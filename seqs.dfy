/** Regrouping and splitting of sequences, shared by the other modules. */
module Seqs {
  lemma Associate<T>(a: seq<T>, b: seq<T>, c: seq<T>)
    ensures a + (b + c) == a + b + c
  {
  }

  lemma Regroup<T>(a: seq<T>, b: seq<T>, c: seq<T>, d: seq<T>)
    ensures a + b + c + d == a + (b + (c + d))
  {
  }

  lemma HeadTail<T>(s: seq<T>)
    requires s != []
    ensures [s[0]] + s[1..] == s
  {
  }

  lemma ConsSplit<T>(a: seq<T>, p: seq<T>)
    requires a != []
    ensures [a[0]] + (a[1..] + p) == a + p
  {
    assert a == [a[0]] + a[1..];
  }

  lemma AppendHead<T>(p: seq<T>, b: seq<T>)
    requires b != []
    ensures p + [b[0]] + b[1..] == p + b
  {
    assert b == [b[0]] + b[1..];
  }

  lemma TailOfConcat<T>(s: seq<T>, t: seq<T>)
    requires s != []
    ensures (s + t)[1..] == s[1..] + t
  {
  }

  lemma SplitAt<T>(b: seq<T>, n: nat)
    requires n <= |b|
    ensures b[..n] + b[n..] == b
  {
  }
}
