/**
 Byte stuffing, as in section 4.2 of RFC 1662 but for the flag and the escape octet only. Frames are delimited
 by the mark; inside a frame the mark and the escape become two bytes each.
 */
module Stuffing {
  import opened Wrappers
  import opened WordBits

  const MARK: Byte := 0x7E
  const ESC: Byte := 0x7D
  const ESC_MARK: Byte := 0x5E
  const ESC_ESC: Byte := 0x5D

  predicate Special(b: Byte) {
    b == MARK || b == ESC
  }

  function Code(b: Byte): Byte
    requires Special(b)
  {
    if b == MARK then ESC_MARK else ESC_ESC
  }

  function StuffByte(b: Byte): seq<Byte> {
    if Special(b) then [ESC, Code(b)] else [b]
  }

  function Stuff(s: seq<Byte>): seq<Byte> {
    if s == [] then [] else StuffByte(s[0]) + Stuff(s[1..])
  }

  /**
   What the receiver makes of the bytes between two marks. The last byte is never looked at as an escape: it is
   taken as it is.
   */
  function Unstuff(b: seq<Byte>): Option<seq<Byte>> {
    if |b| < 2 then Some(b)
    else if b[0] != ESC then Prepend(b[0], Unstuff(b[1..]))
    else if b[1] == ESC_MARK then Prepend(MARK, Unstuff(b[2..]))
    else if b[1] == ESC_ESC then Prepend(ESC, Unstuff(b[2..]))
    else None
  }

  function Prepend(b: Byte, rest: Option<seq<Byte>>): Option<seq<Byte>> {
    match rest
    case None => None
    case Some(s) => Some([b] + s)
  }

  function PrependAll(done: seq<Byte>, rest: Option<seq<Byte>>): Option<seq<Byte>> {
    match rest
    case None => None
    case Some(s) => Some(done + s)
  }

  /** The size the receiver gives a body between two marks: zero stands for nothing there, and for a bad escape. */
  function DecodedSize(body: seq<Byte>): (n: nat)
    ensures n == 0 <==> body == [] || Unstuff(body).None?
    ensures n <= |body|
  {
    if body == [] || Unstuff(body).None? then 0
    else
      UnstuffLength(body);
      |Unstuff(body).value|
  }

  // ---------- the image of stuffing ----------

  /** An escape that is followed by something it cannot stand for. */
  ghost predicate BadEscape(b: seq<Byte>, i: int) {
    0 <= i < |b| - 1 && b[i] == ESC && b[i + 1] != ESC_MARK && b[i + 1] != ESC_ESC
  }

  ghost predicate CleanBody(b: seq<Byte>) {
    && MARK !in b
    && (forall i :: !BadEscape(b, i))
    && (b != [] ==> b[|b| - 1] != ESC)
  }

  /** A stuffed body has no mark in it, and every escape in it is followed by one of the two codes. */
  lemma {:induction false} StuffIsClean(s: seq<Byte>)
    ensures CleanBody(Stuff(s))
    decreases |s|
  {
    if s != [] {
      StuffIsClean(s[1..]);
      CleanStep(s[0], Stuff(s[1..]));
    }
  }

  lemma CleanStep(x: Byte, tail: seq<Byte>)
    requires CleanBody(tail)
    ensures CleanBody(StuffByte(x) + tail)
  {
    var head := StuffByte(x);
    forall i
      ensures !BadEscape(head + tail, i)
    {
      if i >= |head| {
        assert !BadEscape(tail, i - |head|);
      }
    }
  }

  lemma {:induction false} StuffLength(s: seq<Byte>)
    ensures |s| <= |Stuff(s)| <= 2 * |s|
    decreases |s|
  {
    if s != [] {
      StuffLength(s[1..]);
    }
  }

  lemma {:induction false} StuffConcat(a: seq<Byte>, b: seq<Byte>)
    ensures Stuff(a + b) == Stuff(a) + Stuff(b)
    decreases |a|
  {
    if a == [] {
      assert a + b == b;
    } else {
      assert (a + b)[1..] == a[1..] + b;
      StuffConcat(a[1..], b);
    }
  }

  lemma {:induction false} StuffPlain(s: seq<Byte>)
    requires forall i :: 0 <= i < |s| ==> !Special(s[i])
    ensures Stuff(s) == s
    decreases |s|
  {
    if s != [] {
      StuffPlain(s[1..]);
    }
  }

  /** Up to the first special byte nothing changes. */
  lemma StuffFirstSpecial(plain: seq<Byte>, x: Byte, rest: seq<Byte>)
    requires forall i :: 0 <= i < |plain| ==> !Special(plain[i])
    requires Special(x)
    ensures Stuff(plain + ([x] + rest)) == plain + ([ESC, Code(x)] + Stuff(rest))
  {
    StuffPlain(plain);
    StuffConcat(plain, [x] + rest);
    assert ([x] + rest)[1..] == rest;
  }

  /** Unstuffing undoes stuffing. */
  lemma {:induction false} UnstuffStuff(s: seq<Byte>)
    ensures Unstuff(Stuff(s)) == Some(s)
    decreases |s|
  {
    if s != [] {
      var tail := Stuff(s[1..]);
      UnstuffStuff(s[1..]);
      assert s == [s[0]] + s[1..];
      if Special(s[0]) {
        assert Stuff(s) == [ESC, Code(s[0])] + tail;
        assert Stuff(s)[2..] == tail;
      } else {
        assert Stuff(s)[1..] == tail;
        if tail == [] {
          StuffIsClean(s[1..]);
          assert s == [s[0]];
        }
      }
    }
  }

  /** Stuffing undoes unstuffing, on exactly the bodies that stuffing produces. */
  lemma {:induction false} StuffUnstuff(b: seq<Byte>)
    ensures CleanBody(b) <==> Unstuff(b).Some? && MARK !in b && Stuff(Unstuff(b).value) == b
    decreases |b|
  {
    if |b| >= 2 {
      assert BadEscape(b, 0) <==> b[0] == ESC && b[1] != ESC_MARK && b[1] != ESC_ESC;
      var n := if b[0] == ESC then 2 else 1;
      var rest := b[n..];
      StuffUnstuff(rest);
      if b[0] != ESC || b[1] == ESC_MARK || b[1] == ESC_ESC {
        BadEscapeTail(b, n);
        if Unstuff(rest).Some? {
          var s := Unstuff(b).value;
          assert s[1..] == Unstuff(rest).value;
          assert b == b[..n] + rest;
        }
      }
    } else {
      StuffShort(b);
    }
  }

  lemma StuffShort(b: seq<Byte>)
    requires |b| < 2
    ensures CleanBody(b) <==> MARK !in b && Stuff(b) == b
  {
    if |b| == 1 {
      assert b[1..] == [];
      assert Stuff(b) == StuffByte(b[0]);
    }
  }

  lemma BadEscapeTail(b: seq<Byte>, n: nat)
    requires 1 <= n <= 2 <= |b|
    requires if n == 1 then b[0] != ESC else b[0] == ESC && (b[1] == ESC_MARK || b[1] == ESC_ESC)
    ensures (exists i :: BadEscape(b, i)) <==> exists i :: BadEscape(b[n..], i)
  {
    forall i | BadEscape(b, i)
      ensures BadEscape(b[n..], i - n)
    {
    }
    forall i | BadEscape(b[n..], i)
      ensures BadEscape(b, i + n)
    {
    }
  }

  /** Unstuffing fails exactly when some escape before the last byte is followed by neither code. */
  lemma {:induction false} UnstuffFails(b: seq<Byte>)
    ensures Unstuff(b) == None <==> exists i :: BadEscape(b, i)
    decreases |b|
  {
    if |b| >= 2 {
      if b[0] != ESC {
        BadEscapeTail(b, 1);
        UnstuffFails(b[1..]);
      } else if b[1] == ESC_MARK || b[1] == ESC_ESC {
        BadEscapeTail(b, 2);
        UnstuffFails(b[2..]);
      } else {
        assert BadEscape(b, 0);
      }
    }
  }

  lemma {:induction false} UnstuffLength(b: seq<Byte>)
    requires Unstuff(b).Some?
    ensures |Unstuff(b).value| <= |b|
    ensures b != [] ==> Unstuff(b).value != []
    decreases |b|
  {
    if |b| >= 2 {
      if b[0] != ESC {
        UnstuffLength(b[1..]);
      } else {
        UnstuffLength(b[2..]);
      }
    }
  }
}
