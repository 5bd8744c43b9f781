/**
 Damage on the wire. A burst among the stuffed bytes between two marks can make or break escapes, so that what is decoded
 may move; but the decoding of both falls back into step one byte behind the burst at the latest.
 */
module WireErrors {
  import opened Wrappers
  import opened WordBits
  import opened CrcDivision
  import opened Stuffing
  import opened Framing
  import opened Reception
  import opened FrameErrors

  /** Bytes that differ only among width of them in a row. */
  ghost predicate AlikeOutside(a: seq<Byte>, b: seq<Byte>, from: nat, width: nat) {
    |a| == |b| && forall i :: 0 <= i < |a| && !(from <= i < from + width) ==> a[i] == b[i]
  }

  /** The code after an escape, decoded. */
  function Decoded(code: Byte): Option<Byte> {
    if code == ESC_MARK then Some(MARK) else if code == ESC_ESC then Some(ESC) else None
  }

  lemma UnstuffEscape(w: seq<Byte>)
    requires |w| >= 2 && w[0] == ESC && Unstuff(w).Some?
    ensures Decoded(w[1]).Some? && Unstuff(w[2..]).Some? && w[1] != ESC
    ensures Unstuff(w).value == [Decoded(w[1]).value] + Unstuff(w[2..]).value
  {
  }

  lemma UnstuffPlain(w: seq<Byte>)
    requires w != [] && (w[0] != ESC || |w| == 1) && Unstuff(w).Some?
    ensures Unstuff(w[1..]).Some? && Unstuff(w).value == [w[0]] + Unstuff(w[1..]).value
  {
    if |w| == 1 {
      assert w[1..] == [] && [w[0]] + [] == w;
    }
  }

  /**
   The decoding of w, cut at byte e or, if an escape stands just before it, one byte later: no more bytes come before the
   cut than there are in front of e.
   */
  lemma {:induction false} CutDecoding(w: seq<Byte>, e: nat) returns (cut: nat, front: seq<Byte>)
    requires e <= |w| && Unstuff(w).Some?
    ensures cut == e || (cut == e + 1 <= |w| && w[e] != ESC)
    ensures Unstuff(w[cut..]).Some? && Unstuff(w).value == front + Unstuff(w[cut..]).value
    ensures |front| <= e
    decreases |w|
  {
    if e == 0 {
      cut, front := 0, [];
      assert w[0..] == w && [] + Unstuff(w).value == Unstuff(w).value;
    } else if w[0] == ESC && |w| >= 2 {
      UnstuffEscape(w);
      var x := Decoded(w[1]).value;
      if e == 1 {
        cut, front := 2, [x];
      } else {
        var cut', front' := CutDecoding(w[2..], e - 2);
        cut, front := cut' + 2, [x] + front';
        CutAgain(w, 2, cut', [x], front', Unstuff(w[2..][cut'..]).value);
      }
    } else {
      UnstuffPlain(w);
      var cut', front' := CutDecoding(w[1..], e - 1);
      cut, front := cut' + 1, [w[0]] + front';
      CutAgain(w, 1, cut', [w[0]], front', Unstuff(w[1..][cut'..]).value);
    }
  }

  lemma CutAgain<T>(w: seq<T>, k: nat, cut: nat, x: seq<T>, front: seq<T>, rest: seq<T>)
    requires k <= |w| && cut <= |w| - k
    ensures w[k..][cut..] == w[k + cut..]
    ensures x + (front + rest) == (x + front) + rest
  {
  }

  /** Behind byte e both are the same: so are the ends of what they decode to, and one of the fronts is no longer than e. */
  lemma SameEnds(w: seq<Byte>, v: seq<Byte>, e: nat) returns (a: seq<Byte>, b: seq<Byte>, end: seq<Byte>)
    requires e <= |w| == |v| && w[e..] == v[e..] && Unstuff(w).Some? && Unstuff(v).Some?
    ensures Unstuff(w).value == a + end && Unstuff(v).value == b + end
    ensures |a| <= e || |b| <= e
  {
    var i, front := CutDecoding(w, e);
    var j, front' := CutDecoding(v, e);
    TailsAlike(w, v, e);
    if i == j {
      a, b, end := front, front', Unstuff(w[i..]).value;
    } else if i < j {
      StepOver(w, e);
      a, b, end := front + [w[e]], front', Unstuff(v[j..]).value;
    } else {
      StepOver(v, e);
      a, b, end := front, front' + [v[e]], Unstuff(w[i..]).value;
    }
  }

  lemma TailsAlike<T>(w: seq<T>, v: seq<T>, e: nat)
    requires e <= |w| == |v| && w[e..] == v[e..]
    ensures e < |w| ==> w[e] == v[e] && w[e + 1..] == v[e + 1..]
  {
    if e < |w| {
      assert w[e] == w[e..][0] && v[e] == v[e..][0];
      assert w[e + 1..] == w[e..][1..] && v[e + 1..] == v[e..][1..];
    }
  }

  lemma StepOver(w: seq<Byte>, e: nat)
    requires e < |w| && w[e] != ESC && Unstuff(w[e..]).Some?
    ensures Unstuff(w[e + 1..]).Some? && Unstuff(w[e..]).value == [w[e]] + Unstuff(w[e + 1..]).value
  {
    assert w[e..][1..] == w[e + 1..];
    UnstuffPlain(w[e..]);
  }

  lemma FrontsAndEnd(a: seq<Byte>, b: seq<Byte>, end: seq<Byte>, width: nat)
    requires |a + end| == |b + end| && (|a| <= width || |b| <= width)
    ensures AlikeOutside(a + end, b + end, 0, width)
  {
  }

  lemma EndsAlike(w: seq<Byte>, v: seq<Byte>, from: nat, width: nat, e: nat)
    requires AlikeOutside(w, v, from, width) && from + width <= e <= |w|
    ensures w[e..] == v[e..]
  {
  }

  /** A burst that starts with the bytes. */
  lemma BurstInFront(w: seq<Byte>, v: seq<Byte>, width: nat, b: seq<Byte>, c: seq<Byte>)
    requires AlikeOutside(w, v, 0, width) && Unstuff(w) == Some(b) && Unstuff(v) == Some(c) && |b| == |c|
    ensures AlikeOutside(b, c, 0, width)
  {
    var e := if width <= |w| then width else |w|;
    if width <= |w| {
      EndsAlike(w, v, 0, width, e);
    }
    var front, front', end := SameEnds(w, v, e);
    FrontsAndEnd(front, front', end, width);
  }

  lemma DropBytes(w: seq<Byte>, v: seq<Byte>, from: nat, width: nat, k: nat)
    requires AlikeOutside(w, v, from, width) && k <= |w|
    ensures AlikeOutside(w[k..], v[k..], if k <= from then from - k else 0,
                         if k <= from then width else if k <= from + width then from + width - k else 0)
  {
  }

  lemma OneMoreByte(x: Byte, y: Byte, b: seq<Byte>, c: seq<Byte>, p: nat, width: nat)
    requires AlikeOutside(b, c, p, width)
    ensures x == y ==> AlikeOutside([x] + b, [y] + c, p + 1, width)
    ensures p == 0 ==> AlikeOutside([x] + b, [y] + c, 0, width + 1)
  {
  }

  /**
   Bytes that differ only within a burst, and decode to equally many bytes, decode to bytes that differ only within a
   burst no longer.
   */
  lemma {:induction false} UnstuffWindow(w: seq<Byte>, v: seq<Byte>, from: nat, width: nat, b: seq<Byte>, c: seq<Byte>)
    returns (p: nat)
    requires AlikeOutside(w, v, from, width) && Unstuff(w) == Some(b) && Unstuff(v) == Some(c) && |b| == |c|
    ensures AlikeOutside(b, c, p, width)
    decreases |w|
  {
    if width == 0 || w == [] {
      assert w == v;
      p := 0;
    } else if from == 0 {
      BurstInFront(w, v, width, b, c);
      p := 0;
    } else if w[0] != ESC || |w| == 1 {
      UnstuffPlain(w);
      UnstuffPlain(v);
      DropBytes(w, v, from, width, 1);
      p := UnstuffWindow(w[1..], v[1..], from - 1, width, Unstuff(w[1..]).value, Unstuff(v[1..]).value);
      OneMoreByte(w[0], v[0], Unstuff(w[1..]).value, Unstuff(v[1..]).value, p, width);
      p := p + 1;
    } else {
      p := EscapeInFront(w, v, from, width, b, c);
    }
  }

  lemma {:induction false} EscapeInFront(w: seq<Byte>, v: seq<Byte>, from: nat, width: nat, b: seq<Byte>, c: seq<Byte>)
    returns (p: nat)
    requires AlikeOutside(w, v, from, width) && Unstuff(w) == Some(b) && Unstuff(v) == Some(c) && |b| == |c|
    requires |w| >= 2 && w[0] == ESC && from >= 1 && width >= 1
    ensures AlikeOutside(b, c, p, width)
    decreases |w|, 0
  {
    UnstuffEscape(w);
    UnstuffEscape(v);
    DropBytes(w, v, from, width, 2);
    var x, y, b', c' := Decoded(w[1]).value, Decoded(v[1]).value, Unstuff(w[2..]).value, Unstuff(v[2..]).value;
    if from == 1 {
      BurstInFront(w[2..], v[2..], width - 1, b', c');
      OneMoreByte(x, y, b', c', 0, width - 1);
      p := 0;
    } else {
      p := UnstuffWindow(w[2..], v[2..], from - 2, width, b', c');
      OneMoreByte(x, y, b', c', p, width);
      p := p + 1;
    }
  }

  // ---------- escapes that stay ----------

  /** The burst makes no escape and breaks none. The last byte is never looked at as one. */
  ghost predicate SameEscapes(w: seq<Byte>, v: seq<Byte>) {
    |w| == |v| && forall i :: 0 <= i < |w| - 1 ==> (w[i] == ESC <==> v[i] == ESC)
  }

  lemma EscapesBehind(w: seq<Byte>, v: seq<Byte>, k: nat)
    requires SameEscapes(w, v) && k <= |w|
    ensures SameEscapes(w[k..], v[k..])
  {
  }

  /** With the same escapes equally many bytes are decoded. */
  lemma {:induction false} SameEscapesSameSize(w: seq<Byte>, v: seq<Byte>)
    requires SameEscapes(w, v) && Unstuff(w).Some? && Unstuff(v).Some?
    ensures |Unstuff(w).value| == |Unstuff(v).value|
    decreases |w|
  {
    if |w| >= 2 {
      assert w[0] == ESC <==> v[0] == ESC;
      if w[0] == ESC {
        UnstuffEscape(w);
        UnstuffEscape(v);
        EscapesBehind(w, v, 2);
        SameEscapesSameSize(w[2..], v[2..]);
      } else {
        UnstuffPlain(w);
        UnstuffPlain(v);
        EscapesBehind(w, v, 1);
        SameEscapesSameSize(w[1..], v[1..]);
      }
    }
  }

  // ---------- frames ----------

  /** A burst among the stuffed bytes of a frame, no longer than its check. */
  ghost predicate WireBurst(m: Msg, w: seq<Byte>, from: nat)
    requires m.payload != []
  {
    AlikeOutside(Stuff(Body(m)), w, from, CheckSize(TxCheck(m.ptype)))
  }

  /** If it decodes to a body of the same size, it is a burst among the bytes of the body, no longer. */
  lemma BurstInBody(m: Msg, w: seq<Byte>, from: nat, body': seq<Byte>) returns (p: nat)
    requires m.payload != [] && WireBurst(m, w, from)
    requires Unstuff(w) == Some(body') && |body'| == |Body(m)|
    ensures Burst(m, body', p)
  {
    var c := CheckSize(TxCheck(m.ptype));
    UnstuffStuff(Body(m));
    var q := UnstuffWindow(Stuff(Body(m)), w, from, c, Body(m), body');
    ByteWindow(Body(m), body', q, c);
    p := 8 * q;
  }

  lemma SizeKept(m: Msg, w: seq<Byte>, body': seq<Byte>)
    requires m.payload != [] && SameEscapes(Stuff(Body(m)), w) && Unstuff(w) == Some(body')
    ensures |body'| == |Body(m)|
  {
    UnstuffStuff(Body(m));
    SameEscapesSameSize(Stuff(Body(m)), w);
  }

  lemma LengthOfSpan(m: Msg, body': seq<Byte>, mem: seq<Byte>)
    requires m.payload != [] && body' <= mem && |body'| >= 3 && SameReading(m, body')
    requires LengthAgrees(mem, |body'|)
    ensures |body'| == |Body(m)|
  {
    HeaderOfPrefix(body', mem);
    LengthChecked(m, mem, |body'|);
  }

  /**
   A burst on the wire. A span without marks that differs from a frame's within as many bytes as its check has gives
   nothing but what was sent: if it does not decode to the body of the frame there is no delivery. The receiver must still
   read the kind of check and the length as they were sent, and either it has its flag up or no escape was made or
   broken.
   */
  lemma DamagedWireNotDelivered(m: Msg, w: seq<Byte>, from: nat, s: RxState, chunk: seq<Byte>, first: nat, last: nat,
                                registered: set<nat>, r: RxStep)
    requires m.payload != [] && WireBurst(m, w, from) && Unstuff(w) != Some(Body(m))
    requires Unstuff(w).Some? ==> SameReading(m, Unstuff(w).value)
    requires s.checkLen || SameEscapes(Stuff(Body(m)), w)
    requires Scan(s.pending + chunk) == TwoMarks(first, last) && (s.pending + chunk)[first + 1..last] == w
    requires r == ProcessStep(s, chunk, registered)
    ensures r.out == []
  {
    if Unstuff(w).None? {
      Undecodable(s, chunk, first, last, registered, r);
    } else if Unstuff(w).value != [] {
      DecodableNotDelivered(m, w, from, Unstuff(w).value, s, chunk, first, last, registered, r);
    } else {
      StuffLength(Body(m));
      UnstuffLength(w);
    }
  }

  lemma Undecodable(s: RxState, chunk: seq<Byte>, first: nat, last: nat, registered: set<nat>, r: RxStep)
    requires Scan(s.pending + chunk) == TwoMarks(first, last) && Unstuff((s.pending + chunk)[first + 1..last]) == None
    requires r == ProcessStep(s, chunk, registered)
    ensures r.out == []
  {
    var all := s.pending + chunk;
    SpanFound(s, chunk, registered, all, first, last, r, CompleteSpan(all, s.checkLen, first, last, registered));
  }

  lemma DecodableNotDelivered(m: Msg, w: seq<Byte>, from: nat, body': seq<Byte>, s: RxState, chunk: seq<Byte>, first: nat,
                              last: nat, registered: set<nat>, r: RxStep)
    requires m.payload != [] && WireBurst(m, w, from)
    requires Unstuff(w) == Some(body') && body' != Body(m) && body' != [] && SameReading(m, body')
    requires s.checkLen || SameEscapes(Stuff(Body(m)), w)
    requires Scan(s.pending + chunk) == TwoMarks(first, last) && (s.pending + chunk)[first + 1..last] == w
    requires r == ProcessStep(s, chunk, registered)
    ensures r.out == []
  {
    var mem := DecodedMemory(s.pending + chunk, first, last);
    DeliveredOnlyIf(s, chunk, first, last, mem, body', registered, r);
    if r.out != [] {
      if s.checkLen {
        LengthOfSpan(m, body', mem);
      } else {
        SizeKept(m, w, body');
      }
      var p := BurstInBody(m, w, from, body');
      DamagedBodyNotDelivered(m, body', p, s, chunk, first, last, registered, r);
    }
  }
}
