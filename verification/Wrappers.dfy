/** A value or nothing. */
module Wrappers {
  datatype Option<+T> = None | Some(value: T)
}

/** Cutting sequences into pieces. */
module Seqs {
  lemma SplitAt<T>(s: seq<T>, p: nat)
    requires p < |s|
    ensures s == s[..p] + ([s[p]] + s[p + 1..])
  {
  }

  lemma Join<T>(s: seq<T>, a: nat, b: nat, c: nat)
    requires a <= b <= c <= |s|
    ensures s[a..c] == s[a..b] + s[b..c]
  {
  }

  lemma Append<T>(s: seq<T>, a: nat, b: nat)
    requires a <= b < |s|
    ensures s[a..b + 1] == s[a..b] + [s[b]]
  {
  }

  lemma SliceSlice<T>(s: seq<T>, from: nat, a: nat, b: nat)
    requires from <= |s| && a <= b <= |s| - from
    ensures s[from..][a..b] == s[from + a..from + b]
  {
  }

  /** The pieces of t when t is s with x in place of s[at], and one place longer up to the end of the rest. */
  lemma Widened<T>(s: seq<T>, t: seq<T>, from: nat, at: nat, x: seq<T>, rest: nat)
    requires from <= at && at + 1 + rest < |s| == |t| && |x| == 2
    requires t[at] == x[0] && t[at + 1] == x[1]
    requires t[at + 2..at + 2 + rest] == s[at + 1..at + 1 + rest]
    requires forall k :: 0 <= k < |s| && !(at <= k < at + 2 + rest) ==> t[k] == s[k]
    ensures t[from..at + 2] == s[from..at] + x
  {
  }

  lemma TakeTwice<T>(s: seq<T>, j: nat, k: nat)
    requires j <= |s| && k <= |s| - j
    ensures s[..j + k][..j] == s[..j] && s[..j + k][j..] == s[j..][..k]
  {
  }

  lemma DropCommonPrefix<T>(p: seq<T>, a: seq<T>, b: seq<T>)
    requires p + a <= p + b
    ensures a <= b
  {
    assert a == (p + a)[|p|..];
    assert b == (p + b)[|p|..];
    assert (p + b)[..|p + a|] == p + a;
  }

  lemma PrefixOfPrefix<T>(a: seq<T>, b: seq<T>, c: seq<T>)
    requires a + b <= c
    ensures a <= c
  {
    assert c[..|a + b|] == a + b;
    assert c[..|a|] == (a + b)[..|a|];
  }

  lemma Reassociate<T>(a: seq<T>, b: seq<T>, c: seq<T>, ab: seq<T>)
    requires ab == a + b
    ensures ab + c == a + (b + c)
  {
  }

  /** All the pieces, one after the other. */
  function Flatten<T>(ss: seq<seq<T>>): seq<T> {
    if ss == [] then [] else ss[0] + Flatten(ss[1..])
  }

  lemma {:induction false} FlattenConcat<T>(a: seq<seq<T>>, b: seq<seq<T>>)
    ensures Flatten(a + b) == Flatten(a) + Flatten(b)
    decreases |a|
  {
    if a == [] {
      assert a + b == b;
    } else {
      assert (a + b)[1..] == a[1..] + b;
      FlattenConcat(a[1..], b);
    }
  }

  lemma FlattenSplit<T>(ss: seq<seq<T>>, j: nat)
    requires j <= |ss|
    ensures Flatten(ss) == Flatten(ss[..j]) + Flatten(ss[j..])
  {
    assert ss == ss[..j] + ss[j..];
    FlattenConcat(ss[..j], ss[j..]);
  }

  lemma FlattenOne<T>(s: seq<T>)
    ensures Flatten([s]) == s
  {
    assert [s][1..] == [];
    assert s + [] == s;
  }
}
