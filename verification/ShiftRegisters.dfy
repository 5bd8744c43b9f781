/**
 The two shift registers of the CRC loops, over the bits of a message: one takes the next bit in at its
 high end (CRC-32 and CRC-8), the other at its low end (CRC-16 and the link's byte sum).
 Both compute remainders; what follows from that is which errors they detect.
 */
module ShiftRegisters {
  import opened Gf2

  /** A generator with a non-zero constant term: division by it loses nothing of the register. */
  ghost predicate IsCheckGenerator(g: Bits) {
    IsGenerator(g) && |g| >= 2 && g[|g| - 1]
  }

  /** A register that takes the next message bit in at its high end. */
  function TopFedStep(g: Bits, s: Bits, b: bool): (r: Bits)
    requires IsCheckGenerator(g) && |s| == |g| - 1
    ensures |r| == |s|
  {
    var c := s[0] != b;
    Xor(s[1..] + [false], Scale(c, g[1..]))
  }

  function TopFed(g: Bits, s: Bits, m: Bits): (r: Bits)
    requires IsCheckGenerator(g) && |s| == |g| - 1
    ensures |r| == |s|
    decreases |m|
  {
    if m == [] then s else TopFed(g, TopFedStep(g, s, m[0]), m[1..])
  }

  /** s(x) * x^|m| + m(x) * x^|s|: the message moved up by the width, the initial state added on top. */
  function TopFedDividend(s: Bits, m: Bits): (d: Bits)
    ensures |d| == |s| + |m|
  {
    Xor(s + Zeros(|m|), m + Zeros(|s|))
  }

  lemma {:induction false} TopFedIsRemainder(g: Bits, s: Bits, m: Bits)
    requires IsCheckGenerator(g) && |s| == |g| - 1
    ensures TopFed(g, s, m) == Remainder(g, TopFedDividend(s, m))
    decreases |m|
  {
    var d := TopFedDividend(s, m);
    if m == [] {
      assert d == s;
    } else {
      var s' := TopFedStep(g, s, m[0]);
      TopFedIsRemainder(g, s', m[1..]);
      assert DivisionRow(g, d) == TopFedDividend(s', m[1..]) by {
        TopFedRow(g, s, m);
      }
    }
  }

  lemma TopFedRow(g: Bits, s: Bits, m: Bits)
    requires IsCheckGenerator(g) && |s| == |g| - 1 && m != []
    ensures DivisionRow(g, TopFedDividend(s, m)) == TopFedDividend(TopFedStep(g, s, m[0]), m[1..])
  {
    var d := TopFedDividend(s, m);
    var s' := TopFedStep(g, s, m[0]);
    var d' := TopFedDividend(s', m[1..]);
    var row := DivisionRow(g, d);
    assert d[0] == (s[0] != m[0]);
    forall i | 0 <= i < |d'|
      ensures row[i] == d'[i]
    {
      assert d[i + 1] == ((s + Zeros(|m|))[i + 1] != (m + Zeros(|s|))[i + 1]);
      assert d'[i] == ((s' + Zeros(|m| - 1))[i] != (m[1..] + Zeros(|s|))[i]);
      assert (m + Zeros(|s|))[i + 1] == (m[1..] + Zeros(|s|))[i];
      if i < |s| {
        assert row[i] == (d[..|g|][i + 1] != Scale(d[0], g)[i + 1]);
        assert s'[i] == ((s[1..] + [false])[i] != (d[0] && g[1..][i]));
      } else {
        assert row[i] == d[i + 1];
      }
    }
    assert row == d';
  }

  lemma {:induction false} TopFedConcat(g: Bits, s: Bits, a: Bits, b: Bits)
    requires IsCheckGenerator(g) && |s| == |g| - 1
    ensures TopFed(g, s, a + b) == TopFed(g, TopFed(g, s, a), b)
    decreases |a|
  {
    if a == [] {
      assert a + b == b;
    } else {
      assert (a + b)[1..] == a[1..] + b;
      TopFedConcat(g, TopFedStep(g, s, a[0]), a[1..], b);
    }
  }

  // ---------- the register fed at the top ----------

  lemma {:induction false} TopFedLinear(g: Bits, s: Bits, t: Bits, a: Bits, b: Bits)
    requires IsCheckGenerator(g) && |s| == |t| == |g| - 1 && |a| == |b|
    ensures TopFed(g, Xor(s, t), Xor(a, b)) == Xor(TopFed(g, s, a), TopFed(g, t, b))
    decreases |a|
  {
    if a != [] {
      var s', t' := TopFedStep(g, s, a[0]), TopFedStep(g, t, b[0]);
      assert TopFedStep(g, Xor(s, t), Xor(a, b)[0]) == Xor(s', t');
      assert Xor(a, b)[1..] == Xor(a[1..], b[1..]);
      TopFedLinear(g, s', t', a[1..], b[1..]);
    }
  }

  lemma TopFedStepInjective(g: Bits, s: Bits, t: Bits, b: bool)
    requires IsCheckGenerator(g) && |s| == |t| == |g| - 1
    requires TopFedStep(g, s, b) == TopFedStep(g, t, b)
    ensures s == t
  {
    var s', t' := TopFedStep(g, s, b), TopFedStep(g, t, b);
    var last := |s| - 1;
    assert s'[last] == (s[0] != b) && t'[last] == (t[0] != b);
    forall i | 0 <= i < |s|
      ensures s[i] == t[i]
    {
      if i > 0 {
        assert s'[i - 1] == (s[i] != ((s[0] != b) && g[i]));
        assert t'[i - 1] == (t[i] != ((t[0] != b) && g[i]));
      }
    }
  }

  lemma {:induction false} TopFedInjective(g: Bits, s: Bits, t: Bits, m: Bits)
    requires IsCheckGenerator(g) && |s| == |t| == |g| - 1
    requires TopFed(g, s, m) == TopFed(g, t, m)
    ensures s == t
    decreases |m|
  {
    if m != [] {
      TopFedInjective(g, TopFedStep(g, s, m[0]), TopFedStep(g, t, m[0]), m[1..]);
      TopFedStepInjective(g, s, t, m[0]);
    }
  }

  /** Bits that fit in the register may be added to it beforehand instead of being fed in. */
  lemma {:induction false} TopFedAbsorbs(g: Bits, s: Bits, m: Bits)
    requires IsCheckGenerator(g) && |s| == |g| - 1 && |m| <= |s|
    ensures TopFed(g, s, m) == TopFed(g, Xor(s, m + Zeros(|s| - |m|)), Zeros(|m|))
    decreases |m|
  {
    var pre := Xor(s, m + Zeros(|s| - |m|));
    if m == [] {
      assert pre == s;
    } else {
      var rest := m[1..];
      var s' := TopFedStep(g, s, m[0]);
      TopFedAbsorbs(g, s', rest);
      assert Zeros(|m|)[1..] == Zeros(|rest|);
      var lhs, rhs := TopFedStep(g, pre, false), Xor(s', rest + Zeros(|s| - |rest|));
      forall i | 0 <= i < |s|
        ensures lhs[i] == rhs[i]
      {
        if i + 1 < |s| {
          assert pre[i + 1] == (s[i + 1] != (m + Zeros(|s| - |m|))[i + 1]);
          assert (m + Zeros(|s| - |m|))[i + 1] == (rest + Zeros(|s| - |rest|))[i];
        }
      }
      assert lhs == rhs;
    }
  }

  /** Two different inputs no longer than the register leave it in different states. */
  lemma TopFedSeparates(g: Bits, s: Bits, x: Bits, y: Bits)
    requires IsCheckGenerator(g) && |s| == |g| - 1 && |x| == |y| <= |s|
    requires TopFed(g, s, x) == TopFed(g, s, y)
    ensures x == y
  {
    var px, py := Xor(s, x + Zeros(|s| - |x|)), Xor(s, y + Zeros(|s| - |y|));
    TopFedAbsorbs(g, s, x);
    TopFedAbsorbs(g, s, y);
    TopFedInjective(g, px, py, Zeros(|x|));
    forall i | 0 <= i < |x|
      ensures x[i] == y[i]
    {
      assert px[i] == (s[i] != x[i]) && py[i] == (s[i] != y[i]);
    }
  }

  lemma TopFedThree(g: Bits, s: Bits, a: Bits, b: Bits, c: Bits)
    requires IsCheckGenerator(g) && |s| == |g| - 1
    ensures TopFed(g, s, a + b + c) == TopFed(g, TopFed(g, TopFed(g, s, a), b), c)
  {
    TopFedConcat(g, s, a + b, c);
    TopFedConcat(g, s, a, b);
  }

  /** Burst detection: a change confined to a window no wider than the register always shows, whatever follows. */
  lemma TopFedBurst(g: Bits, s: Bits, before: Bits, x: Bits, y: Bits, after: Bits)
    requires IsCheckGenerator(g) && |s| == |g| - 1 && |x| == |y| <= |s|
    requires TopFed(g, s, before + x + after) == TopFed(g, s, before + y + after)
    ensures x == y
  {
    TopFedThree(g, s, before, x, after);
    TopFedThree(g, s, before, y, after);
    var mid := TopFed(g, s, before);
    var sx, sy := TopFed(g, mid, x), TopFed(g, mid, y);
    TopFedInjective(g, sx, sy, after);
    TopFedSeparates(g, mid, x, y);
  }

  /** The register's own contents, fed back in, clear it. */
  lemma TopFedClears(g: Bits, r: Bits)
    requires IsCheckGenerator(g) && |r| == |g| - 1
    ensures TopFed(g, r, r) == Zeros(|r|)
  {
    TopFedAbsorbs(g, r, r);
    assert Xor(r, r + Zeros(0)) == Zeros(|r|);
    ZeroStaysZero(g, |r|);
  }

  /** A message followed by a trailer leaves zero exactly when the trailer is the message's check. */
  lemma TopFedResidue(g: Bits, s: Bits, m: Bits, trailer: Bits)
    requires IsCheckGenerator(g) && |s| == |trailer| == |g| - 1
    ensures TopFed(g, s, m + trailer) == Zeros(|s|) <==> trailer == TopFed(g, s, m)
  {
    var r := TopFed(g, s, m);
    TopFedConcat(g, s, m, trailer);
    TopFedClears(g, r);
    if TopFed(g, r, trailer) == Zeros(|s|) {
      TopFedSeparates(g, r, trailer, r);
    }
  }

  lemma {:induction false} ZeroStaysZero(g: Bits, n: nat)
    requires IsCheckGenerator(g)
    ensures TopFed(g, Zeros(|g| - 1), Zeros(n)) == Zeros(|g| - 1)
    decreases n
  {
    var z := Zeros(|g| - 1);
    if n > 0 {
      assert TopFedStep(g, z, false) == z;
      assert Zeros(n)[1..] == Zeros(n - 1);
      ZeroStaysZero(g, n - 1);
    }
  }

  /** Two states run on zeros and added: the same as the message absorbed by the state they add up to. */
  lemma TopFedFromParts(g: Bits, p: Bits, q: Bits, s: Bits, m: Bits, p': Bits, q': Bits, s': Bits)
    requires IsCheckGenerator(g) && |p| == |q| == |s| == |g| - 1 && |m| <= |s|
    requires Xor(p, q) == Xor(s, m + Zeros(|s| - |m|))
    requires p' == TopFed(g, p, Zeros(|m|)) && q' == TopFed(g, q, Zeros(|m|)) && s' == TopFed(g, s, m)
    ensures Xor(p', q') == s'
  {
    ZeroRunLinear(g, p, q, |m|);
    TopFedAbsorbs(g, s, m);
  }

  lemma ZeroRunLinear(g: Bits, p: Bits, q: Bits, n: nat)
    requires IsCheckGenerator(g) && |p| == |q| == |g| - 1
    ensures TopFed(g, Xor(p, q), Zeros(n)) == Xor(TopFed(g, p, Zeros(n)), TopFed(g, q, Zeros(n)))
  {
    var z := Zeros(n);
    XorSelf(z);
    assert Xor(z, z) == z;
    TopFedLinear(g, p, q, z, z);
  }

  /** While nothing but zeros falls out of it, the register only shifts. */
  lemma {:induction false} TopFedShifts(g: Bits, s: Bits, n: nat)
    requires IsCheckGenerator(g) && |s| == |g| - 1 && n <= |s|
    requires forall i :: 0 <= i < n ==> !s[i]
    ensures TopFed(g, s, Zeros(n)) == s[n..] + Zeros(n)
    decreases n
  {
    if n == 0 {
      assert Zeros(0) == [];
    } else {
      var s' := TopFedStep(g, s, false);
      assert s' == s[1..] + [false];
      TopFedShifts(g, s', n - 1);
      assert Zeros(n)[1..] == Zeros(n - 1);
      assert s'[n - 1..] == s[n..] + [false];
      assert [false] + Zeros(n - 1) == Zeros(n);
    }
  }

  // ---------- the register fed at the bottom ----------

  /** What the register holds after the message when the bits enter at its low end. */
  function LowFed(g: Bits, s: Bits, m: Bits): (r: Bits)
    requires IsCheckGenerator(g) && |s| == |g| - 1
    ensures |r| == |s|
  {
    Remainder(g, s + m)
  }

  lemma LowFedConcat(g: Bits, s: Bits, a: Bits, b: Bits)
    requires IsCheckGenerator(g) && |s| == |g| - 1
    ensures LowFed(g, s, a + b) == LowFed(g, LowFed(g, s, a), b)
  {
    assert s + (a + b) == (s + a) + b;
    RemainderOfConcat(g, s + a, b);
  }

  /** Bits that fit in the register are simply added to what zeros would have left in it. */
  lemma LowFedAdds(g: Bits, s: Bits, m: Bits)
    requires IsCheckGenerator(g) && |s| == |g| - 1 && |m| <= |s|
    ensures LowFed(g, s, m) == Xor(TopFed(g, s, Zeros(|m|)), Zeros(|s| - |m|) + m)
  {
    var low := Zeros(|s| - |m|) + m;
    assert s + m == Xor(s + Zeros(|m|), Zeros(|m|) + low);
    RemainderLinear(g, s + Zeros(|m|), Zeros(|m|) + low);
    RemainderOfShort(g, |m|, low);
    TopFedIsRemainder(g, s, Zeros(|m|));
    assert TopFedDividend(s, Zeros(|m|)) == s + Zeros(|m|);
  }

  /** Followed by a register's width of zeros, the register fed at the bottom agrees with the one fed at the top. */
  lemma LowFedThenZeros(g: Bits, m: Bits)
    requires IsCheckGenerator(g)
    ensures LowFed(g, Zeros(|g| - 1), m + Zeros(|g| - 1)) == TopFed(g, Zeros(|g| - 1), m)
  {
    var w := |g| - 1;
    DividendFromZero(w, m);
    TopFedIsRemainder(g, Zeros(w), m);
    RemainderLeadingZeros(g, w, m + Zeros(w));
  }

  lemma {:induction false} RemainderLeadingZeros(g: Bits, n: nat, d: Bits)
    requires IsGenerator(g) && |d| >= |g| - 1
    ensures Remainder(g, Zeros(n) + d) == Remainder(g, d)
    decreases n
  {
    if n == 0 {
      assert Zeros(n) + d == d;
    } else {
      var e := Zeros(n) + d;
      var rest := Zeros(n - 1) + d;
      forall i | 0 <= i < |rest|
        ensures DivisionRow(g, e)[i] == rest[i]
      {
        RowAt(g, e, i);
      }
      assert DivisionRow(g, e) == rest;
      RemainderLeadingZeros(g, n - 1, d);
    }
  }

  lemma LowFedBurst(g: Bits, s: Bits, before: Bits, x: Bits, y: Bits, after: Bits)
    requires IsCheckGenerator(g) && |s| == |g| - 1 && |x| == |y| <= |s|
    requires LowFed(g, s, before + x + after) == LowFed(g, s, before + y + after)
    ensures x == y
  {
    LowFedThenTop(g, s + (before + x + after));
    LowFedThenTop(g, s + (before + y + after));
    assert s + (before + x + after) == (s + before) + x + after;
    assert s + (before + y + after) == (s + before) + y + after;
    TopFedBurst(g, Zeros(|s|), s + before, x, y, after);
  }

  lemma LowFedThenTop(g: Bits, d: Bits)
    requires IsCheckGenerator(g) && |d| >= |g| - 1
    ensures TopFed(g, Zeros(|g| - 1), d) == Remainder(g, Remainder(g, d) + Zeros(|g| - 1))
  {
    var w := |g| - 1;
    DividendFromZero(w, d);
    TopFedIsRemainder(g, Zeros(w), d);
    RemainderOfConcat(g, d, Zeros(w));
  }

  lemma DividendFromZero(w: nat, d: Bits)
    ensures TopFedDividend(Zeros(w), d) == d + Zeros(w)
  {
  }

  // ---------- windows ----------

  ghost predicate SameOutside(a: Bits, b: Bits, from: nat, width: nat) {
    |a| == |b| && forall i :: 0 <= i < |a| && !(from <= i < from + width) ==> a[i] == b[i]
  }

  lemma Cut(a: Bits, b: Bits, from: nat, width: nat) returns (before: Bits, x: Bits, y: Bits, after: Bits)
    requires SameOutside(a, b, from, width)
    ensures a == before + x + after && b == before + y + after
    ensures |x| == |y| <= width
  {
    var lo := if from <= |a| then from else |a|;
    var hi := if from + width <= |a| then from + width else |a|;
    before, x, y, after := a[..lo], a[lo..hi], b[lo..hi], a[hi..];
    assert b[..lo] == before && b[hi..] == after;
  }

  /** Inputs that differ only inside a window no wider than the register leave it in different states. */
  lemma TopFedWindow(g: Bits, s: Bits, a: Bits, b: Bits, from: nat)
    requires IsCheckGenerator(g) && |s| == |g| - 1
    requires SameOutside(a, b, from, |s|)
    requires TopFed(g, s, a) == TopFed(g, s, b)
    ensures a == b
  {
    var before, x, y, after := Cut(a, b, from, |s|);
    TopFedBurst(g, s, before, x, y, after);
  }

  lemma LowFedWindow(g: Bits, s: Bits, a: Bits, b: Bits, from: nat)
    requires IsCheckGenerator(g) && |s| == |g| - 1
    requires SameOutside(a, b, from, |s|)
    requires LowFed(g, s, a) == LowFed(g, s, b)
    ensures a == b
  {
    var before, x, y, after := Cut(a, b, from, |s|);
    LowFedBurst(g, s, before, x, y, after);
  }

  // ---------- messages with their trailers ----------

  /**
   Two messages that carry their own check, alike outside some window no wider than the check, are the same
   message with the same check: no such change goes undetected, wherever it falls.
   */
  lemma TopFedTrailerBurst(g: Bits, s: Bits, m1: Bits, t1: Bits, m2: Bits, t2: Bits, from: nat)
    requires IsCheckGenerator(g) && |s| == |t1| == |t2| == |g| - 1 && |m1| == |m2|
    requires t1 == TopFed(g, s, m1) && t2 == TopFed(g, s, m2)
    requires SameOutside(m1 + t1, m2 + t2, from, |s|)
    ensures m1 == m2 && t1 == t2
  {
    TopFedResidue(g, s, m1, t1);
    TopFedResidue(g, s, m2, t2);
    TopFedWindow(g, s, m1 + t1, m2 + t2, from);
    assert m1 == (m1 + t1)[..|m1|] && t1 == (m1 + t1)[|m1|..];
    assert m2 == (m2 + t2)[..|m2|] && t2 == (m2 + t2)[|m2|..];
  }

  lemma LowFedTrailerBurst(g: Bits, s: Bits, m1: Bits, t1: Bits, m2: Bits, t2: Bits, from: nat)
    requires IsCheckGenerator(g) && |s| == |t1| == |t2| == |g| - 1 && |m1| == |m2|
    requires t1 == LowFed(g, s, m1) && t2 == LowFed(g, s, m2)
    requires SameOutside(m1 + t1, m2 + t2, from, |s|)
    ensures m1 == m2 && t1 == t2
  {
    var n, w := |m1|, |s|;
    SameOutsideParts(m1, t1, m2, t2, from, w);
    if from >= n {
      assert m1 == m2;
    } else if from + w <= n {
      LowFedWindow(g, s, m1, m2, from);
    } else {
      Straddling(g, s, m1, t1, m2, t2, from);
    }
  }

  lemma SameOutsideParts(m1: Bits, t1: Bits, m2: Bits, t2: Bits, from: nat, w: nat)
    requires |m1| == |m2| && |t1| == |t2|
    requires SameOutside(m1 + t1, m2 + t2, from, w)
    ensures SameOutside(m1, m2, from, w)
    ensures from <= |m1| ==> m1[..from] == m2[..from]
    ensures from + w <= |m1| ==> t1 == t2
    ensures forall i :: 0 <= i < |t1| && i >= from + w - |m1| ==> t1[i] == t2[i]
  {
    var a, b, n := m1 + t1, m2 + t2, |m1|;
    assert forall i :: 0 <= i < n ==> a[i] == m1[i] && b[i] == m2[i];
    assert forall i :: 0 <= i < |t1| ==> a[n + i] == t1[i] && b[n + i] == t2[i];
  }

  lemma Straddling(g: Bits, s: Bits, m1: Bits, t1: Bits, m2: Bits, t2: Bits, from: nat)
    requires IsCheckGenerator(g) && |s| == |t1| == |t2| == |g| - 1 && |m1| == |m2|
    requires t1 == LowFed(g, s, m1) && t2 == LowFed(g, s, m2)
    requires from < |m1| < from + |s|
    requires m1[..from] == m2[..from]
    requires forall i :: from + |s| - |m1| <= i < |s| ==> t1[i] == t2[i]
    ensures m1 == m2 && t1 == t2
  {
    var w, k := |s|, |m1| - from;
    var r := LowFed(g, s, m1[..from]);
    var x, y := m1[from..], m2[from..];
    assert m1 == m1[..from] + x && m2 == m1[..from] + y;
    LowFedConcat(g, s, m1[..from], x);
    LowFedConcat(g, s, m1[..from], y);
    LowFedAdds(g, r, x);
    LowFedAdds(g, r, y);
    var z := TopFed(g, r, Zeros(k));
    assert forall i :: 0 <= i < w - k ==> t1[i] == z[i] && t2[i] == z[i];
    assert t1 == t2;
    forall i | 0 <= i < k
      ensures x[i] == y[i]
    {
      assert t1[w - k + i] == (z[w - k + i] != (Zeros(w - k) + x)[w - k + i]);
      assert t2[w - k + i] == (z[w - k + i] != (Zeros(w - k) + y)[w - k + i]);
    }
    assert x == y;
  }
}
