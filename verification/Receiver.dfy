/** The receiver: it collects bytes in its buffer, finds and decodes one span between marks at a time, and shifts it out. */
module Receiver {
  import opened Wrappers
  import opened Seqs
  import opened WordBits
  import opened Pcrc
  import opened Stuffing
  import opened StuffingLoops
  import opened Framing
  import opened Checks
  import opened Reception
  import opened Reassembly
  import opened Protocols

  /** How far the second scan and the check of a declared length may look past the buffer. */
  const OVERREAD: nat := 2050

  class UsiRx {
    const buf: array<Byte>
    var size: nat
    var checkLen: bool
    var registered: set<nat>

    /** Nothing but zeros follows the pending bytes. */
    ghost predicate Valid()
      reads this, buf
    {
      && buf.Length == BUFFER_SIZE + OVERREAD
      && size <= BUFFER_SIZE
      && ZeroFrom(buf[..], size)
    }

    ghost function State(): RxState
      requires Valid()
      reads this, buf
    {
      RxState(buf[..size], checkLen)
    }

    constructor ()
      ensures Valid() && State() == RxState([], false) && registered == {} && fresh(buf)
    {
      buf := new Byte[BUFFER_SIZE + OVERREAD](_ => 0);
      size, checkLen, registered := 0, false, {};
    }

    method SetCallback(t: Byte, present: bool) returns (found: bool)
      modifies this`registered
      ensures found <==> AcceptedType(t)
      ensures registered == Register(old(registered), Callback(t, present))
      ensures !found ==> registered == old(registered)
    {
      RowOfType(t);
      var idx := ProtocolIndex(t);
      if idx.None? {
        return false;
      }
      registered := if present then registered + {idx.value} else registered - {idx.value};
      return true;
    }

    /** One call: a failed read changes nothing, any other makes the step of the specification. */
    method Process(read: ReadResult) returns (out: seq<Delivery>)
      requires Valid() && (read.Got? ==> |read.bytes| <= BUFFER_SIZE - size)
      modifies this, buf
      ensures Valid() && registered == old(registered)
      ensures RxStep(State(), out) == Run(old(State()), [read], registered)
    {
      if read.Failed? {
        return [];
      }
      out := Receive(read.bytes);
      OneCall(old(State()), read, registered, RxStep(State(), out));
    }

    method Receive(chunk: seq<Byte>) returns (out: seq<Delivery>)
      requires Valid() && |chunk| <= BUFFER_SIZE - size
      modifies this, buf
      ensures Valid() && registered == old(registered)
      ensures RxStep(State(), out) == ProcessStep(old(State()), chunk, registered)
    {
      ghost var s, all := State(), State().pending + chunk;
      var pending := Store(chunk);
      out := [];
      if pending == 0 {
        NothingReceived(s, chunk, all, registered);
        return;
      }
      var marks := FindMarks(all, pending);
      Outcome(s, chunk, all, marks, registered);
      match marks
      case NoMark =>
        Clear(pending);
      case OneMark =>
        checkLen, size := true, pending;
      case TwoMarks(first, last) =>
        out := Complete(all, pending, first, last);
    }

    /** The two scans. The second may look past the pending bytes, but there are only zeros to find. */
    method FindMarks(ghost all: seq<Byte>, pending: nat) returns (marks: Marks)
      requires Holds(all, pending)
      ensures marks == Scan(all)
      ensures marks.TwoMarks? ==> marks.last < pending && buf[marks.first] == MARK
    {
      var first := FindByte(buf, 0, MARK, pending);
      if first.None? {
        FindMarkIs(all, 0, |all|);
        return NoMark;
      }
      var last := FindByte(buf, first.value + 1, MARK, pending);
      if last.None? {
        OneMarkFound(all, buf[..], first.value);
        return OneMark;
      }
      SecondMarkIsPending(all, buf[..], last.value);
      TwoMarksFound(all, first.value, last.value);
      return TwoMarks(first.value, last.value);
    }

    /** Puts the bytes that were read after those that are pending. */
    method Store(chunk: seq<Byte>) returns (pending: nat)
      requires Valid() && |chunk| <= BUFFER_SIZE - size
      modifies buf
      ensures pending == size + |chunk| && buf[..pending] == old(buf[..size]) + chunk
      ensures ZeroFrom(buf[..], pending)
    {
      pending := size;
      for i := 0 to |chunk|
        invariant pending == size + i
        invariant buf[..size] == old(buf[..size]) && buf[size..pending] == chunk[..i]
        invariant ZeroFrom(buf[..], pending)
      {
        buf[pending] := chunk[i];
        pending := pending + 1;
      }
      Join(buf[..], 0, size, pending);
    }

    method Clear(pending: nat)
      requires buf.Length == BUFFER_SIZE + OVERREAD && pending <= BUFFER_SIZE && ZeroFrom(buf[..], pending)
      modifies this`size, buf
      ensures Valid() && size == 0
    {
      for i := 0 to pending
        invariant forall k :: 0 <= k < i || pending <= k < buf.Length ==> buf[k] == 0
      {
        buf[i] := 0;
      }
      size := 0;
    }

    /** Decodes the span, checks and delivers it, and shifts it out of the buffer. */
    method Complete(ghost all: seq<Byte>, pending: nat, first: nat, last: nat) returns (out: seq<Delivery>)
      requires Holds(all, pending) && first < last < pending && buf[first] == MARK
      modifies this`size, this`checkLen, buf
      ensures Valid()
      ensures RxStep(State(), out) == CompleteSpan(all, old(checkLen), first, last, registered)
    {
      var from;
      from, out := DecodeAndJudge(all, pending, first, last);
      ShiftOut(all, pending, from);
    }

    /** Decodes the span, checks and delivers it. What is kept starts at from. */
    method DecodeAndJudge(ghost all: seq<Byte>, pending: nat, first: nat, last: nat) returns (from: nat, out: seq<Delivery>)
      requires Holds(all, pending) && first < last < pending && buf[first] == MARK
      modifies this`checkLen, buf
      ensures last <= from <= pending && !checkLen
      ensures RxStep(RxState(all[from..], false), out) == CompleteSpan(all, old(checkLen), first, last, registered)
      ensures ZeroFrom(buf[..], pending) && forall k :: from <= k < pending ==> buf[k] == all[k]
    {
      ghost var mem := DecodedMemory(all, first, last);
      ghost var c := CompleteSpan(all, checkLen, first, last, registered);
      var n := DecodeSpan(all, pending, first, last, mem);
      var agrees;
      agrees, out := Judge(first + 1, n);
      SpanOutcome(all, old(checkLen), first, last, n, buf[..], mem, registered, agrees, out, c);
      from := if agrees then last + 1 else last;
    }

    /** Checks the length if that is asked for, and delivers the message if its check agrees. */
    method Judge(at: nat, n: nat) returns (agrees: bool, out: seq<Delivery>)
      requires buf.Length == BUFFER_SIZE + OVERREAD && at + n <= BUFFER_SIZE
      modifies this`checkLen
      ensures !checkLen
      ensures agrees == (!old(checkLen) || LengthAgrees(buf[at..], n))
      ensures out == if agrees && CheckAgrees(buf[at..], n) then Dispatch(buf[at..], registered) else []
    {
      out := [];
      agrees := true;
      if checkLen {
        checkLen := false;
        agrees := CheckIntegrityLen(at, n);
      }
      if agrees {
        var good := CheckMessage(at, n);
        if good {
          out := Deliver(at);
        }
      }
    }

    /** Decodes the span in place. Its marks and what follows it stay. */
    method DecodeSpan(ghost all: seq<Byte>, pending: nat, first: nat, last: nat, ghost mem: seq<Byte>) returns (n: nat)
      requires Holds(all, pending) && first < last < pending && buf[first] == MARK
      requires mem == DecodedMemory(all, first, last)
      modifies buf
      ensures n == DecodedSize(all[first + 1..last]) && first + 1 + n <= last
      ensures n > 0 ==> SameMemory(buf[first + 1..], mem)
      ensures ZeroFrom(buf[..], pending) && forall k :: last <= k < pending ==> buf[k] == all[k]
    {
      ghost var before := buf[..];
      n := DecodeCopy(buf, first, last);
      SlicePrefix(all, before, first + 1, last);
      DecodedInPlace(all, first, last, n, before, buf[..], mem);
    }

    /** The bytes that are pending, with zeros after them. */
    ghost predicate Holds(all: seq<Byte>, pending: nat)
      reads this, buf
    {
      && buf.Length == BUFFER_SIZE + OVERREAD && pending == |all| <= BUFFER_SIZE
      && buf[..pending] == all && ZeroFrom(buf[..], pending)
    }

    method CheckIntegrityLen(at: nat, n: nat) returns (ok: bool)
      requires buf.Length == BUFFER_SIZE + OVERREAD && at + n <= BUFFER_SIZE
      ensures ok == LengthAgrees(buf[at..], n)
    {
      if n < 4 {
        return false;
      }
      var t := TypeBits(buf[at + 1]);
      if RxCheck(t).None? {
        return false;
      }
      var len := DeclaredAt(at);
      return len + CheckSize(RxCheck(t).value) + 2 == n;
    }

    method DeclaredAt(at: nat) returns (len: nat)
      requires buf.Length == BUFFER_SIZE + OVERREAD && at <= BUFFER_SIZE
      ensures len == DeclaredLen(buf[at..]) < 2048
    {
      LenBound(buf[at], buf[at + 1]);
      if TypeBits(buf[at + 1]) == PRIME_API {
        len := XLen(buf[at], buf[at + 1], buf[at + 2]);
      } else {
        len := Len(buf[at], buf[at + 1]);
      }
    }

    method CheckMessage(at: nat, n: nat) returns (ok: bool)
      requires buf.Length == BUFFER_SIZE + OVERREAD && at + n <= BUFFER_SIZE
      ensures ok == CheckAgrees(buf[at..], n)
    {
      if n < 4 {
        return false;
      }
      var t := TypeBits(buf[at + 1]);
      if !LengthAllowed(Len(buf[at], buf[at + 1]), t) {
        return false;
      }
      if RxCheck(t).None? {
        return false;
      }
      var c := RxCheck(t).value;
      var len := DeclaredAt(at);
      ok := CompareCheck(at, n, c, len + 2);
    }

    /** Compares the last bytes of the message, read as a number, with the check of its first bytes. */
    method CompareCheck(at: nat, n: nat, c: Check, len: nat) returns (same: bool)
      requires buf.Length == BUFFER_SIZE + OVERREAD && 4 <= n && at + n <= BUFFER_SIZE && len < OVERREAD
      ensures same <==> buf[at..][n - CheckSize(c)..n] == CheckBytes(c, Window(buf[at..], len))
    {
      var from := at + n - CheckSize(c);
      var x := BytesNumber(buf[from..at + n]);
      var crc := CalcUsi(buf, at, len, CrcType(c));
      SameNumberIffSameBytes(c, buf[at..at + len], buf[from..at + n], x, crc);
      SliceSlice(buf[..], at, n - CheckSize(c), n);
      WindowIsSlice(buf[..], at, len);
      return x == crc;
    }

    /** Calls the handler of the message's type, if there is one. */
    method Deliver(at: nat) returns (out: seq<Delivery>)
      requires buf.Length == BUFFER_SIZE + OVERREAD && at <= BUFFER_SIZE
      ensures out == Dispatch(buf[at..], registered)
      ensures out != [] ==> ProtocolIndex(TypeAt(buf[at..])) == Some(out[0].handler)
    {
      RowOfType(TypeAt(buf[at..]));
      var t := TypeBits(buf[at + 1]);
      var len := DeclaredAt(at);
      if !LengthAllowed(len, t) {
        return [];
      }
      var handler := HandlerOf(t);
      if handler.None? || handler.value !in registered {
        return [];
      }
      WindowIsSlice(buf[..], at, len + 2);
      return [Delivery(handler.value, buf[at..at + (len + 2)][if t <= MNGP_LAST then 0 else 2..])];
    }

    /** Shifts everything before from out. */
    method ShiftOut(ghost all: seq<Byte>, pending: nat, from: nat)
      requires buf.Length == BUFFER_SIZE + OVERREAD && from <= pending == |all| <= BUFFER_SIZE
      requires ZeroFrom(buf[..], pending) && forall k :: from <= k < pending ==> buf[k] == all[k]
      modifies this`size, buf
      ensures Valid() && buf[..size] == all[from..]
    {
      ShiftLeft(buf, 0, from, pending);
      size := pending - from;
    }
  }

  ghost predicate ZeroFrom(b: seq<Byte>, n: nat) {
    forall k :: n <= k < |b| ==> b[k] == 0
  }

  lemma LenBound(hi: Byte, lo: Byte)
    ensures Len(hi, lo) < 1024
  {
    TopTwoBits(lo);
  }

  lemma TopTwoBits(lo: Byte)
    ensures lo >> 6 < 4
  {
  }

  lemma WindowIsSlice(b: seq<Byte>, at: nat, n: nat)
    requires at + n <= |b|
    ensures Window(b[at..], n) == b[at..at + n]
  {
  }

  lemma OneCall(s: RxState, read: ReadResult, registered: set<nat>, r: RxStep)
    requires read.Got? && r == ProcessStep(s, read.bytes, registered)
    ensures r == Run(s, [read], registered)
  {
    var rest := Run(r.state, [], registered);
    RunGot(s, [read], registered, Run(s, [read], registered), r, rest);
    assert r.out + [] == r.out;
  }

  lemma NothingReceived(s: RxState, chunk: seq<Byte>, all: seq<Byte>, registered: set<nat>)
    requires all == s.pending + chunk && all == []
    ensures ProcessStep(s, chunk, registered) == RxStep(s, [])
  {
  }

  lemma Outcome(s: RxState, chunk: seq<Byte>, all: seq<Byte>, marks: Marks, registered: set<nat>)
    requires all == s.pending + chunk && all != [] && marks == Scan(all)
    ensures ProcessStep(s, chunk, registered) ==
              match marks
              case NoMark => RxStep(RxState([], s.checkLen), [])
              case OneMark => RxStep(RxState(all, true), [])
              case TwoMarks(first, last) => CompleteSpan(all, s.checkLen, first, last, registered)
  {
  }

  lemma OneMarkFound(all: seq<Byte>, b: seq<Byte>, first: nat)
    requires all <= b && first < |all| && all[first] == MARK
    requires MARK !in all[..first] && first + 1 + |all| <= |b| && MARK !in b[first + 1..first + 1 + |all|]
    ensures Scan(all) == OneMark
  {
    assert forall i :: 0 <= i < first ==> all[i] in all[..first];
    FindMarkIs(all, 0, first);
    assert forall i :: first + 1 <= i < |all| ==> all[i] in b[first + 1..first + 1 + |all|];
    FindMarkIs(all, first + 1, |all|);
  }

  lemma TwoMarksFound(all: seq<Byte>, first: nat, last: nat)
    requires first < last < |all| && all[first] == MARK && all[last] == MARK
    requires MARK !in all[..first] && MARK !in all[first + 1..last]
    ensures Scan(all) == TwoMarks(first, last)
  {
    assert forall i :: 0 <= i < first ==> all[i] in all[..first];
    FindMarkIs(all, 0, first);
    assert forall i :: first + 1 <= i < last ==> all[i] in all[first + 1..last];
    FindMarkIs(all, first + 1, last);
  }

  /** The second scan runs past the pending bytes, but there are only zeros to find. */
  lemma SecondMarkIsPending(all: seq<Byte>, b: seq<Byte>, last: nat)
    requires all <= b && ZeroFrom(b, |all|) && last < |b| && b[last] == MARK
    ensures last < |all| && all[last] == MARK
  {
  }

  /** Two memories with the same contents, as far as anyone reads. */
  ghost predicate SameMemory(a: seq<Byte>, b: seq<Byte>) {
    forall i: nat :: At(a, i) == At(b, i)
  }

  lemma SameHeader(a: seq<Byte>, b: seq<Byte>)
    requires SameMemory(a, b)
    ensures TypeAt(a) == TypeAt(b) && DeclaredLen(a) == DeclaredLen(b)
    ensures Len(At(a, 0), At(a, 1)) == Len(At(b, 0), At(b, 1))
  {
    assert At(a, 0) == At(b, 0) && At(a, 1) == At(b, 1) && At(a, 2) == At(b, 2);
  }

  lemma SameSlice(a: seq<Byte>, b: seq<Byte>, from: nat, to: nat)
    requires SameMemory(a, b) && from <= to <= |a| && to <= |b|
    ensures a[from..to] == b[from..to]
  {
    forall i | from <= i < to
      ensures a[i] == b[i]
    {
      assert At(a, i) == At(b, i);
    }
  }

  lemma SameCheck(a: seq<Byte>, b: seq<Byte>, n: nat, c: Check)
    requires 4 <= n <= |a| && n <= |b| && SameMemory(a, b) && RxCheck(TypeAt(a)) == Some(c)
    ensures CheckAgrees(a, n) == CheckAgrees(b, n)
  {
    SameHeader(a, b);
    SameWindow(a, b, DeclaredLen(a) + 2);
    SameSlice(a, b, n - CheckSize(c), n);
  }

  lemma SameTests(a: seq<Byte>, b: seq<Byte>, n: nat, registered: set<nat>)
    requires n <= |a| && n <= |b| && (n < 4 || SameMemory(a, b))
    ensures LengthAgrees(a, n) == LengthAgrees(b, n)
    ensures CheckAgrees(a, n) == CheckAgrees(b, n)
    ensures n >= 4 ==> Dispatch(a, registered) == Dispatch(b, registered)
  {
    if n >= 4 {
      SameHeader(a, b);
      SameWindow(a, b, DeclaredLen(a) + 2);
      if RxCheck(TypeAt(a)).Some? {
        SameCheck(a, b, n, RxCheck(TypeAt(a)).value);
      }
    }
  }

  lemma SameWindow(a: seq<Byte>, b: seq<Byte>, n: nat)
    requires SameMemory(a, b)
    ensures Window(a, n) == Window(b, n)
  {
    forall i | 0 <= i < n
      ensures Window(a, n)[i] == Window(b, n)[i]
    {
      assert At(a, i) == At(b, i);
    }
  }

  /** After decoding, the buffer from the byte after the opening mark on is the decoded memory. */
  lemma DecodedInPlace(all: seq<Byte>, first: nat, last: nat, n: nat, before: seq<Byte>, after: seq<Byte>,
                       mem: seq<Byte>)
    requires first < last < |all| && all <= before && |after| == |before|
    requires n == DecodedSize(all[first + 1..last]) && mem == DecodedMemory(all, first, last)
    requires n > 0 ==> first + 1 + n <= last && after[first + 1..first + 1 + n] == Unstuff(all[first + 1..last]).value
    requires n > 0 ==> forall k :: first + 1 + n <= k < last ==> after[k] == 0
    requires forall k :: 0 <= k < |after| && !(first < k < last) ==> after[k] == before[k]
    requires ZeroFrom(before, |all|)
    ensures n > 0 ==> SameMemory(after[first + 1..], mem)
  {
    if n > 0 {
      var decoded := Unstuff(all[first + 1..last]).value;
      assert decoded == after[first + 1..first + 1 + n];
      forall i: nat
        ensures At(after[first + 1..], i) == At(mem, i)
      {
      }
    }
  }

  lemma SpanOutcome(all: seq<Byte>, checkLen: bool, first: nat, last: nat, n: nat, b: seq<Byte>, mem: seq<Byte>,
                    registered: set<nat>, agrees: bool, out: seq<Delivery>, c: RxStep)
    requires first < last < |all| && first + 1 + n <= |b|
    requires n == DecodedSize(all[first + 1..last]) && mem == DecodedMemory(all, first, last)
    requires n > 0 ==> SameMemory(b[first + 1..], mem)
    requires agrees == (!checkLen || LengthAgrees(b[first + 1..], n))
    requires out == if agrees && CheckAgrees(b[first + 1..], n) then Dispatch(b[first + 1..], registered) else []
    requires c == CompleteSpan(all, checkLen, first, last, registered)
    ensures c == RxStep(RxState(all[if agrees then last + 1 else last..], false), out)
  {
    SameTests(b[first + 1..], mem, n, registered);
  }

  lemma SlicePrefix<T>(a: seq<T>, b: seq<T>, from: nat, to: nat)
    requires a <= b && from <= to <= |a|
    ensures a[from..to] == b[from..to]
  {
  }
}
