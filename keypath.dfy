/** The form key-path inserter of `FormURLEncodedParser`: a key is split on `[`,
    classified as a plain key, an array append `k[]` or a one-level nested key
    `k[s]`, and the pair is folded into a JSON object. Keys with two or more `[`
    reach `panic!`, modelled here as `None`. */
module KeyPath {
  import Seqs
  import opened Wrappers
  import opened Json

  /** Occurrences of c in s. */
  function Count(s: string, c: char): nat {
    if s == [] then 0 else (if s[0] == c then 1 else 0) + Count(s[1..], c)
  }

  /** `s.split(sep).collect::<Vec<_>>()`: the pieces between separators, so
      there is always at least one, and an empty string splits into one empty piece. */
  function Split(s: string, sep: char): (parts: seq<string>)
    ensures |parts| >= 1
  {
    if s == [] then [[]]
    else
      var rest := Split(s[1..], sep);
      if s[0] == sep then [[]] + rest
      else [[s[0]] + rest[0]] + rest[1..]
  }

  /** The pieces glued back with the separator between them. */
  function Join(parts: seq<string>, sep: char): string
    requires |parts| >= 1
  {
    if |parts| == 1 then parts[0] else parts[0] + [sep] + Join(parts[1..], sep)
  }

  /** `s.trim_end_matches(c)`: s with every trailing c removed. */
  function TrimEndMatches(s: string, c: char): (r: string)
    ensures |r| <= |s| && r == s[..|r|]
    ensures r == [] || r[|r| - 1] != c
    ensures forall i :: |r| <= i < |s| ==> s[i] == c
  {
    if s != [] && s[|s| - 1] == c then TrimEndMatches(s[..|s| - 1], c) else s
  }

  /** What `add_or_update_value` makes of a key. */
  datatype Shape =
    | Plain(key: string)                 // no `[`
    | Append(key: string)                // `k[` followed only by `]`s
    | Nested(key: string, sub: string)   // `k[s`, s with its trailing `]`s trimmed
    | Malformed                          // two or more `[`: `panic!`

  function ShapeOf(key: string): (r: Shape)
    ensures r.Malformed? <==> Count(key, '[') >= 2
    ensures r.Plain? ==> r.key == key && '[' !in key
  {
    SplitLength(key, '[');
    JoinSplit(key, '[');
    SplitPiecesHaveNoSep(key, '[');
    var parts := Split(key, '[');
    if |parts| == 1 then Plain(parts[0])
    else if |parts| == 2 then
      var sub := TrimEndMatches(parts[1], ']');
      if sub == [] then Append(parts[0]) else Nested(parts[0], sub)
    else Malformed
  }

  /** The key the pair is stored under: everything before the first `[`. */
  function MainKey(key: string): string {
    Split(key, '[')[0]
  }

  /** `add_or_update_value(result, key, value)`: the new map, or `None` for the panic.
      An absent main key starts as an empty array or object; one holding a
      value of the other kind is left as it is. */
  function Insert(m: map<string, Value>, key: string, value: string): (r: Option<map<string, Value>>)
    ensures r.None? <==> Count(key, '[') >= 2
  {
    match ShapeOf(key)
    case Plain(k) => Some(m[k := String(value)])
    case Append(k) =>
      var slot := if k in m then m[k] else Array([]);
      if slot.Array? then Some(m[k := Array(slot.elems + [String(value)])]) else Some(m)
    case Nested(k, sub) =>
      var slot := if k in m then m[k] else Object(map[]);
      if slot.Object? then Some(m[k := Object(slot.fields[sub := String(value)])]) else Some(m)
    case Malformed => None
  }

  /** The `for (key, value) in pairs` loop: pairs inserted in order; a panic ends it. */
  function Fold(m: map<string, Value>, pairs: seq<(string, string)>): (r: Option<map<string, Value>>)
    ensures r.Some? ==> m.Keys <= r.value.Keys
    decreases |pairs|
  {
    if pairs == [] then Some(m)
    else
      InsertFrame(m, pairs[0].0, pairs[0].1);
      match Insert(m, pairs[0].0, pairs[0].1)
      case None => None
      case Some(m') => Fold(m', pairs[1..])
  }

  /** The main keys of the pairs. */
  function MainKeys(pairs: seq<(string, string)>): set<string> {
    if pairs == [] then {} else {MainKey(pairs[0].0)} + MainKeys(pairs[1..])
  }

  // ---------------------------------------------------------------- splitting

  lemma {:induction false} SplitLength(s: string, sep: char)
    ensures |Split(s, sep)| == Count(s, sep) + 1
    decreases |s|
  {
    if s != [] {
      SplitLength(s[1..], sep);
    }
  }

  /** No piece contains the separator. */
  lemma {:induction false} SplitPiecesHaveNoSep(s: string, sep: char)
    ensures forall i :: 0 <= i < |Split(s, sep)| ==> sep !in Split(s, sep)[i]
    decreases |s|
  {
    if s != [] {
      SplitPiecesHaveNoSep(s[1..], sep);
      var rest := Split(s[1..], sep);
      if s[0] != sep {
        var parts := Split(s, sep);
        forall i | 0 <= i < |parts|
          ensures sep !in parts[i]
        {
          if i == 0 {
            assert parts[0] == [s[0]] + rest[0];
          } else {
            assert parts[i] == rest[i];
          }
        }
      }
    }
  }

  /** Joining the pieces gives the string back. */
  lemma {:induction false} JoinSplit(s: string, sep: char)
    ensures Join(Split(s, sep), sep) == s
    decreases |s|
  {
    if s != [] {
      var rest := Split(s[1..], sep);
      JoinSplit(s[1..], sep);
      if s[0] == sep {
        assert Split(s, sep)[1..] == rest;
        SepThenRest(s, sep);
      } else {
        JoinCons(s[0], rest, sep);
        Seqs.HeadTail(s);
      }
    }
  }

  /** A string that starts with the separator: an empty first piece, the separator, the rest. */
  lemma SepThenRest(s: string, sep: char)
    requires s != [] && s[0] == sep
    ensures [] + [sep] + s[1..] == s
  {
  }

  lemma JoinCons(c: char, parts: seq<string>, sep: char)
    requires |parts| >= 1
    ensures Join([[c] + parts[0]] + parts[1..], sep) == [c] + Join(parts, sep)
  {
    var ps := [[c] + parts[0]] + parts[1..];
    assert ps[0] == [c] + parts[0] && ps[1..] == parts[1..];
    if |parts| > 1 {
      assert [c] + parts[0] + [sep] + Join(parts[1..], sep) == [c] + (parts[0] + [sep] + Join(parts[1..], sep));
    }
  }

  /** A string without the separator is one piece. */
  lemma {:induction false} SplitNoSep(s: string, sep: char)
    requires sep !in s
    ensures Split(s, sep) == [s]
    decreases |s|
  {
    if s != [] {
      assert s[0] != sep && sep !in s[1..];
      SplitNoSep(s[1..], sep);
      Seqs.HeadTail(s);
    }
  }

  /** The first separator ends the first piece. */
  lemma {:induction false} SplitAtFirstSep(k: string, t: string, sep: char)
    requires sep !in k
    ensures Split(k + [sep] + t, sep) == [k] + Split(t, sep)
    decreases |k|
  {
    var u := k + [sep] + t;
    if k == [] {
      assert u == [sep] + t && u[1..] == t;
    } else {
      assert u[0] == k[0] != sep;
      assert u[1..] == k[1..] + [sep] + t;
      assert sep !in k[1..];
      SplitAtFirstSep(k[1..], t, sep);
      Seqs.HeadTail(k);
    }
  }

  // ---------------------------------------------------------------- trimming

  /** A string of closing brackets trims to nothing. */
  lemma TrimAllClosing(t: string)
    requires forall i :: 0 <= i < |t| ==> t[i] == ']'
    ensures TrimEndMatches(t, ']') == []
  {
  }

  // ---------------------------------------------------------------- key shapes

  lemma ShapeOfPlainKey(k: string)
    requires '[' !in k
    ensures ShapeOf(k) == Plain(k) && MainKey(k) == k
  {
    SplitNoSep(k, '[');
  }

  /** `k[t]` with no further `[`: an append when t is only `]`s, else a nested key
      named by t without its trailing `]`s. */
  lemma ShapeOfBracketKey(k: string, t: string)
    requires '[' !in k && '[' !in t
    ensures MainKey(k + "[" + t) == k
    ensures var sub := TrimEndMatches(t, ']');
            ShapeOf(k + "[" + t) == if sub == [] then Append(k) else Nested(k, sub)
  {
    SplitAtFirstSep(k, t, '[');
    SplitNoSep(t, '[');
  }

  // ---------------------------------------------------------------- one insertion

  /** `key=value`: the value is stored as a string, replacing whatever was there. */
  lemma InsertPlainKey(m: map<string, Value>, k: string, v: string)
    requires '[' !in k
    ensures Insert(m, k, v) == Some(m[k := String(v)])
  {
    ShapeOfPlainKey(k);
  }

  /** `k[]=value` (any number of `]`): appended to the array at k, which is created
      empty when absent; a non-array at k is left alone. */
  lemma InsertArrayKey(m: map<string, Value>, k: string, closes: string, v: string)
    requires '[' !in k
    requires forall i :: 0 <= i < |closes| ==> closes[i] == ']'
    ensures k !in m ==> Insert(m, k + "[" + closes, v) == Some(m[k := Array([String(v)])])
    ensures k in m && m[k].Array? ==>
              Insert(m, k + "[" + closes, v) == Some(m[k := Array(m[k].elems + [String(v)])])
    ensures k in m && !m[k].Array? ==> Insert(m, k + "[" + closes, v) == Some(m)
  {
    assert '[' !in closes;
    ShapeOfBracketKey(k, closes);
    TrimAllClosing(closes);
    assert [] + [String(v)] == [String(v)];
  }

  /** `k[s]=value`: s is set in the object at k, which is created empty when absent;
      a non-object at k is left alone. */
  lemma InsertObjectKey(m: map<string, Value>, k: string, t: string, v: string)
    requires '[' !in k && '[' !in t && TrimEndMatches(t, ']') != []
    ensures var sub := TrimEndMatches(t, ']');
            k !in m ==> Insert(m, k + "[" + t, v) == Some(m[k := Object(map[sub := String(v)])])
    ensures var sub := TrimEndMatches(t, ']');
            k in m && m[k].Object? ==>
              Insert(m, k + "[" + t, v) == Some(m[k := Object(m[k].fields[sub := String(v)])])
    ensures k in m && !m[k].Object? ==> Insert(m, k + "[" + t, v) == Some(m)
  {
    ShapeOfBracketKey(k, t);
  }

  /** Only the main key is touched, and it is present afterwards. */
  lemma InsertFrame(m: map<string, Value>, key: string, v: string)
    ensures Insert(m, key, v).Some? ==> Insert(m, key, v).value.Keys == m.Keys + {MainKey(key)}
    ensures Insert(m, key, v).Some? ==>
              forall j :: j in m && j != MainKey(key) ==> Insert(m, key, v).value[j] == m[j]
  {
  }

  // ---------------------------------------------------------------- the fold

  /** A completed fold ends with exactly the old keys and the pairs' main keys,
      and the value under every key no pair names is the old one. */
  lemma {:induction false} FoldFrame(m: map<string, Value>, pairs: seq<(string, string)>)
    ensures Fold(m, pairs).Some? ==> Fold(m, pairs).value.Keys == m.Keys + MainKeys(pairs)
    ensures Fold(m, pairs).Some? ==>
              forall j :: j in m && j !in MainKeys(pairs) ==> Fold(m, pairs).value[j] == m[j]
    decreases |pairs|
  {
    if pairs != [] {
      InsertFrame(m, pairs[0].0, pairs[0].1);
      match Insert(m, pairs[0].0, pairs[0].1)
      case None =>
      case Some(m') => FoldFrame(m', pairs[1..]);
    }
  }

  /** The fold panics exactly when some key has two or more `[`. */
  lemma {:induction false} FoldPanicIff(m: map<string, Value>, pairs: seq<(string, string)>)
    ensures Fold(m, pairs).None? <==> exists i :: 0 <= i < |pairs| && Count(pairs[i].0, '[') >= 2
    decreases |pairs|
  {
    if pairs != [] {
      match Insert(m, pairs[0].0, pairs[0].1)
      case None =>
      case Some(m') =>
        FoldPanicIff(m', pairs[1..]);
        if exists i :: 0 <= i < |pairs| && Count(pairs[i].0, '[') >= 2 {
          var i :| 0 <= i < |pairs| && Count(pairs[i].0, '[') >= 2;
          assert i > 0 && pairs[1..][i - 1] == pairs[i];
        }
        if exists i :: 0 <= i < |pairs[1..]| && Count(pairs[1..][i].0, '[') >= 2 {
          var i :| 0 <= i < |pairs[1..]| && Count(pairs[1..][i].0, '[') >= 2;
          assert pairs[i + 1] == pairs[1..][i];
        }
    }
  }

  /** Folding two runs of pairs is folding the first, then the second. */
  lemma {:induction false} FoldConcat(m: map<string, Value>, a: seq<(string, string)>, b: seq<(string, string)>)
    ensures Fold(m, a + b) == match Fold(m, a) case None => None case Some(m') => Fold(m', b)
    decreases |a|
  {
    if a == [] {
      assert a + b == b;
    } else {
      assert (a + b)[0] == a[0] && (a + b)[1..] == a[1..] + b;
      match Insert(m, a[0].0, a[0].1)
      case None =>
      case Some(m') => FoldConcat(m', a[1..], b);
    }
  }

  /** String values, in order. */
  function Strings(vs: seq<string>): (r: seq<Value>)
    ensures |r| == |vs|
  {
    if vs == [] then [] else [String(vs[0])] + Strings(vs[1..])
  }

  /** The pairs `k[]=v` for each v of vs, in order. */
  function AppendPairs(k: string, vs: seq<string>): (ps: seq<(string, string)>)
    ensures |ps| == |vs|
  {
    if vs == [] then [] else [(k + "[]", vs[0])] + AppendPairs(k, vs[1..])
  }

  /** The elements already collected at k. */
  function ElemsAt(m: map<string, Value>, k: string): seq<Value> {
    if k in m && m[k].Array? then m[k].elems else []
  }

  /** Repeated `k[]` pairs land in the array at k in input order. */
  lemma {:induction false} FoldAppendPairs(m: map<string, Value>, k: string, vs: seq<string>)
    requires '[' !in k && (k !in m || m[k].Array?)
    requires vs != []
    ensures Fold(m, AppendPairs(k, vs)) == Some(m[k := Array(ElemsAt(m, k) + Strings(vs))])
    decreases |vs|
  {
    var ps := AppendPairs(k, vs);
    var m1 := m[k := Array(ElemsAt(m, k) + [String(vs[0])])];
    assert Fold(m, ps) == Fold(m1, AppendPairs(k, vs[1..])) by {
      assert ps[0] == (k + "[]", vs[0]) && ps[1..] == AppendPairs(k, vs[1..]);
      InsertAppendKey(m, k, vs[0]);
    }
    if vs[1..] == [] {
      assert Strings(vs) == [String(vs[0])];
    } else {
      assert Fold(m1, AppendPairs(k, vs[1..])) == Some(m[k := Array(ElemsAt(m, k) + Strings(vs))]) by {
        FoldAppendPairs(m1, k, vs[1..]);
        assert ElemsAt(m1, k) == ElemsAt(m, k) + [String(vs[0])];
        StringsCons(ElemsAt(m, k), vs);
        assert m1[k := Array(ElemsAt(m1, k) + Strings(vs[1..]))] == m[k := Array(ElemsAt(m, k) + Strings(vs))];
      }
    }
  }

  lemma InsertAppendKey(m: map<string, Value>, k: string, v: string)
    requires '[' !in k && (k !in m || m[k].Array?)
    ensures Insert(m, k + "[]", v) == Some(m[k := Array(ElemsAt(m, k) + [String(v)])])
  {
    assert k + "[]" == k + "[" + "]";
    InsertArrayKey(m, k, "]", v);
    assert ElemsAt(m, k) + [String(v)] == if k in m then m[k].elems + [String(v)] else [String(v)];
  }

  lemma StringsCons(e: seq<Value>, vs: seq<string>)
    requires vs != []
    ensures e + [String(vs[0])] + Strings(vs[1..]) == e + Strings(vs)
  {
  }

  /** A plain key written twice keeps the later value. */
  lemma PlainKeyLastWins(m: map<string, Value>, k: string, v1: string, v2: string)
    requires '[' !in k
    ensures Fold(m, [(k, v1), (k, v2)]) == Some(m[k := String(v2)])
  {
    var ps := [(k, v1), (k, v2)];
    var m1 := m[k := String(v1)];
    InsertPlainKey(m, k, v1);
    InsertPlainKey(m1, k, v2);
    assert ps[0] == (k, v1) && ps[1..] == [(k, v2)];
    assert Fold(m, ps) == Fold(m1, [(k, v2)]);
    assert [(k, v2)][1..] == [];
    assert Fold(m1, [(k, v2)]) == Fold(m1[k := String(v2)], []);
    assert m1[k := String(v2)] == m[k := String(v2)];
  }

  // ---------------------------------------------------------------- examples

  /** As in `key1=value1&key2=value2&arr[]=item1&arr[]=item2`, which gives
      `{"key1":"value1","key2":"value2","arr":["item1","item2"]}`. */
  lemma PlainThenArrayPairs(k1: string, k2: string, a: string, v1: string, v2: string, i1: string, i2: string)
    requires '[' !in k1 && '[' !in k2 && '[' !in a
    requires a != k1 && a != k2
    ensures Fold(map[], [(k1, v1), (k2, v2), (a + "[]", i1), (a + "[]", i2)])
         == Some(map[k1 := String(v1)][k2 := String(v2)][a := Array([String(i1), String(i2)])])
  {
    var m1: map<string, Value> := map[k1 := String(v1)];
    var m2 := m1[k2 := String(v2)];
    var run := AppendPairs(a, [i1, i2]);
    var ps := [(k1, v1), (k2, v2), (a + "[]", i1), (a + "[]", i2)];
    assert ps == [(k1, v1)] + ([(k2, v2)] + run) by {
      assert [i1, i2][1..] == [i2] && [i2][1..] == [];
      assert AppendPairs(a, [i2]) == [(a + "[]", i2)];
    }
    assert Fold(map[], ps) == Fold(m1, [(k2, v2)] + run) by {
      InsertPlainKey(map[], k1, v1);
      FoldStep(map[], (k1, v1), [(k2, v2)] + run, m1);
    }
    assert Fold(m1, [(k2, v2)] + run) == Fold(m2, run) by {
      InsertPlainKey(m1, k2, v2);
      FoldStep(m1, (k2, v2), run, m2);
    }
    assert Fold(m2, run) == Some(m2[a := Array([String(i1), String(i2)])]) by {
      FoldAppendPairs(m2, a, [i1, i2]);
      assert ElemsAt(m2, a) == [];
      assert Strings([i1, i2]) == [String(i1), String(i2)] by {
        assert [i1, i2][1..] == [i2] && [i2][1..] == [];
      }
      assert ElemsAt(m2, a) + Strings([i1, i2]) == [String(i1), String(i2)];
    }
  }

  /** As in `parent[child]=value1&arr[]=item1`, which gives
      `{"parent":{"child":"value1"},"arr":["item1"]}`. */
  lemma NestedThenArrayPairs(p: string, c: string, a: string, v: string, i: string)
    requires '[' !in p && '[' !in c && ']' !in c && c != [] && '[' !in a && a != p
    ensures Fold(map[], [(p + "[" + c + "]", v), (a + "[]", i)])
         == Some(map[p := Object(map[c := String(v)])][a := Array([String(i)])])
  {
    var m0: map<string, Value> := map[];
    assert p + "[" + c + "]" == p + "[" + (c + "]");
    TrimEndMatches1(c);
    assert '[' !in c + "]";
    InsertObjectKey(m0, p, c + "]", v);
    var m1 := m0[p := Object(map[c := String(v)])];
    InsertAppendKey(m1, a, i);
    var m2 := m1[a := Array([String(i)])];
    assert ElemsAt(m1, a) + [String(i)] == [String(i)];
    FoldStep(m0, (p + "[" + c + "]", v), [(a + "[]", i)], m1);
    FoldStep(m1, (a + "[]", i), [], m2);
    assert [(p + "[" + c + "]", v)] + [(a + "[]", i)] == [(p + "[" + c + "]", v), (a + "[]", i)];
    assert [(a + "[]", i)] + [] == [(a + "[]", i)];
  }

  /** One pair that inserts without panicking, then the rest. */
  lemma FoldStep(m: map<string, Value>, p: (string, string), rest: seq<(string, string)>, m': map<string, Value>)
    requires Insert(m, p.0, p.1) == Some(m')
    ensures Fold(m, [p] + rest) == Fold(m', rest)
  {
    assert ([p] + rest)[0] == p && ([p] + rest)[1..] == rest;
  }

  lemma TrimEndMatches1(t: string)
    requires ']' !in t
    ensures TrimEndMatches(t + "]", ']') == t
  {
    var u := t + "]";
    assert u[..|u| - 1] == t;
  }
}
