/** When the pointers of one connection come back in the order of its requests. */
module DataOrder {
  import opened Wrappers
  import opened DataTable

  /**
   After one more request of a handle, the next confirm takes the entry that stands first: the one that was first before,
   exactly if the new one was stored above it.
   */
  lemma TakeAfterStore(t: seq<Entry>, handle: nat, data: nat)
    requires FirstFree(t, 0) < |t|
    ensures var k, f := FirstFor(t, handle, 0), FirstFree(t, 0);
            && FirstFor(Store(t, handle, data), handle, 0) == (if f < k then f else k)
            && Take(Store(t, handle, data), handle).data == Some(if f < k then data else t[k].data)
  {
    var k, f := FirstFor(t, handle, 0), FirstFree(t, 0);
    var t' := Store(t, handle, data);
    FirstForIs(t', handle, 0, if f < k then f else k);
  }

  lemma {:induction false} FirstForIs(t: seq<Entry>, handle: nat, i: nat, k: nat)
    requires i <= k < |t| && HeldAt(t[k], handle)
    requires forall j :: i <= j < k ==> !HeldAt(t[j], handle)
    ensures FirstFor(t, handle, i) == k
    decreases k - i
  {
    if i < k {
      FirstForIs(t, handle, i + 1, k);
    }
  }

  // ---------- requests with numbers ----------

  /** A pointer that was handed back, with the number of its request. */
  datatype Ticket = Ticket(handle: nat, number: nat)

  /** A run in which every request that finds room gets the next number, which stays with its slot. */
  datatype Numbered = Numbered(history: History, numbers: seq<nat>, next: nat, tickets: seq<Ticket>)

  /** The number of a request is its place among those that were stored. */
  ghost predicate Matched(r: Numbered) {
    var t, stored, handed := r.history.table, r.history.stored, r.history.handed;
    && |r.numbers| == |t| && r.next == |stored| && |r.tickets| == |handed|
    && (forall i :: 0 <= i < |t| && t[i].valid ==> r.numbers[i] < r.next && stored[r.numbers[i]] == PairOf(t[i]))
    && (forall i :: 0 <= i < |handed| ==>
          && r.tickets[i].number < r.next && stored[r.tickets[i].number] == handed[i]
          && r.tickets[i].handle == handed[i].handle)
  }

  function Count(r: Numbered, op: Op): (r': Numbered)
    requires |r.numbers| == |r.history.table|
    ensures r'.history == Step(r.history, op) && |r'.numbers| == |r'.history.table|
  {
    var t := r.history.table;
    match op
    case Request(handle, data) =>
      var f := FirstFree(t, 0);
      if f < |t| then Numbered(Step(r.history, op), r.numbers[f := r.next], r.next + 1, r.tickets) else r
    case Confirm(handle) =>
      var k := FirstFor(t, handle, 0);
      if k < |t|
      then Numbered(Step(r.history, op), r.numbers, r.next, r.tickets + [Ticket(handle, r.numbers[k])])
      else r
  }

  /** The numbers that are outstanding for a handle, in the order of their slots. */
  function Waiting(t: seq<Entry>, numbers: seq<nat>, handle: nat): seq<nat>
    requires |t| == |numbers|
  {
    if t == [] then []
    else (if HeldAt(t[0], handle) then [numbers[0]] else []) + Waiting(t[1..], numbers[1..], handle)
  }

  /** The numbers that were handed back to a handle, in the order of the confirms. */
  function Returned(tickets: seq<Ticket>, handle: nat): seq<nat> {
    if tickets == [] then []
    else
      var last := tickets[|tickets| - 1];
      Returned(tickets[..|tickets| - 1], handle) + if last.handle == handle then [last.number] else []
  }

  ghost predicate Increasing(s: seq<nat>) {
    forall i, j :: 0 <= i < j < |s| ==> s[i] < s[j]
  }

  /** What was handed back and what is still to come, in one line: confirms only move its border. */
  function Line(r: Numbered, handle: nat): seq<nat>
    requires |r.numbers| == |r.history.table|
  {
    Returned(r.tickets, handle) + Waiting(r.history.table, r.numbers, handle)
  }

  /** A request that is stored below an outstanding entry of its own handle. */
  predicate Overtakes(t: seq<Entry>, op: Op, handle: nat) {
    && op.Request? && op.handle == handle
    && var f := FirstFree(t, 0);
       exists k :: f < k < |t| && HeldAt(t[k], handle)
  }

  lemma {:induction false} WaitingSplit(t: seq<Entry>, numbers: seq<nat>, handle: nat, k: nat)
    requires |t| == |numbers| && k < |t|
    ensures Waiting(t, numbers, handle) ==
              Waiting(t[..k], numbers[..k], handle)
              + ((if HeldAt(t[k], handle) then [numbers[k]] else []) + Waiting(t[k + 1..], numbers[k + 1..], handle))
    decreases k
  {
    if k > 0 {
      WaitingSplit(t[1..], numbers[1..], handle, k - 1);
      assert t[..k][1..] == t[1..][..k - 1] && numbers[..k][1..] == numbers[1..][..k - 1];
      assert t[1..][k..] == t[k + 1..] && numbers[1..][k..] == numbers[k + 1..];
    }
  }

  lemma {:induction false} NobodyWaits(t: seq<Entry>, numbers: seq<nat>, handle: nat)
    requires |t| == |numbers|
    ensures Waiting(t, numbers, handle) == [] <==> forall i :: 0 <= i < |t| ==> !HeldAt(t[i], handle)
    decreases |t|
  {
    if t != [] {
      NobodyWaits(t[1..], numbers[1..], handle);
      assert forall i :: 0 < i < |t| ==> t[i] == t[1..][i - 1];
    }
  }

  lemma {:induction false} WaitingBounded(t: seq<Entry>, numbers: seq<nat>, handle: nat, next: nat)
    requires |t| == |numbers| && forall i :: 0 <= i < |t| && t[i].valid ==> numbers[i] < next
    ensures forall i :: 0 <= i < |Waiting(t, numbers, handle)| ==> Waiting(t, numbers, handle)[i] < next
    decreases |t|
  {
    if t != [] {
      WaitingBounded(t[1..], numbers[1..], handle, next);
    }
  }

  lemma {:induction false} ReturnedBounded(tickets: seq<Ticket>, handle: nat, next: nat)
    requires forall i :: 0 <= i < |tickets| ==> tickets[i].number < next
    ensures forall i :: 0 <= i < |Returned(tickets, handle)| ==> Returned(tickets, handle)[i] < next
    decreases |tickets|
  {
    if tickets != [] {
      ReturnedBounded(tickets[..|tickets| - 1], handle, next);
    }
  }

  /** A number larger than all keeps a line increasing exactly if it is put at the end. */
  lemma InsertLargest(a: seq<nat>, b: seq<nat>, x: nat)
    requires forall i :: 0 <= i < |a| ==> a[i] < x
    requires forall i :: 0 <= i < |b| ==> b[i] < x
    ensures Increasing(a + ([x] + b)) <==> Increasing(a + b) && b == []
  {
    var with, without := a + ([x] + b), a + b;
    assert with[|a|] == x;
    assert forall i :: 0 <= i < |a| ==> with[i] == a[i] && without[i] == a[i];
    if b == [] {
      assert a + b == a;
    } else {
      assert with[|a| + 1] == b[0] < x;
    }
  }

  lemma StoreElsewhere(t: seq<Entry>, numbers: seq<nat>, f: nat, e: Entry, x: nat, handle: nat)
    requires |t| == |numbers| && f < |t| && !HeldAt(t[f], handle)
    ensures var a, b := Waiting(t[..f], numbers[..f], handle), Waiting(t[f + 1..], numbers[f + 1..], handle);
            && Waiting(t, numbers, handle) == a + b
            && Waiting(t[f := e], numbers[f := x], handle) ==
                 a + ((if HeldAt(e, handle) then [x] else []) + b)
  {
    WaitingSplit(t, numbers, handle, f);
    WaitingSplit(t[f := e], numbers[f := x], handle, f);
    assert t[f := e][..f] == t[..f] && numbers[f := x][..f] == numbers[..f];
    assert t[f := e][f + 1..] == t[f + 1..] && numbers[f := x][f + 1..] == numbers[f + 1..];
  }

  // ---------- one operation ----------

  lemma NewTicket(tickets: seq<Ticket>, k: Ticket, handle: nat)
    ensures Returned(tickets + [k], handle) ==
              Returned(tickets, handle) + if k.handle == handle then [k.number] else []
  {
    assert (tickets + [k])[..|tickets + [k]| - 1] == tickets;
  }

  lemma CountMatches(r: Numbered, op: Op)
    requires Matched(r)
    ensures Matched(Count(r, op))
  {
  }

  /** Put into a line, a number larger than all keeps the order exactly if nothing stands behind it. */
  lemma InsertInLine(back: seq<nat>, a: seq<nat>, b: seq<nat>, x: nat, put: seq<nat>)
    requires Below(back, x) && Below(a + b, x) && (put == [] || put == [x])
    ensures Increasing(back + (a + (put + b))) <==> Increasing(back + (a + b)) && (put == [] || b == [])
  {
    assert back + (a + (put + b)) == (back + a) + (put + b);
    assert back + (a + b) == (back + a) + b;
    if put == [] {
      assert put + b == b;
    } else {
      AllBounded(back, a, b, x);
      InsertLargest(back + a, b, x);
    }
  }

  lemma RequestLine(r: Numbered, op: Op, handle: nat)
    requires Matched(r) && op.Request?
    ensures Increasing(Line(Count(r, op), handle)) <==>
              Increasing(Line(r, handle)) && !Overtakes(r.history.table, op, handle)
  {
    var t, f := r.history.table, FirstFree(r.history.table, 0);
    if f < |t| {
      var e := Entry(true, op.handle, op.data);
      StoreElsewhere(t, r.numbers, f, e, r.next, handle);
      NobodyAbove(t, r.numbers, f, handle);
      Bounded(r, handle);
      InsertInLine(Returned(r.tickets, handle), Waiting(t[..f], r.numbers[..f], handle),
                   Waiting(t[f + 1..], r.numbers[f + 1..], handle), r.next, if HeldAt(e, handle) then [r.next] else []);
    }
  }

  lemma NobodyAbove(t: seq<Entry>, numbers: seq<nat>, f: nat, handle: nat)
    requires |t| == |numbers| && f < |t|
    ensures Waiting(t[f + 1..], numbers[f + 1..], handle) != [] <==> exists k :: f < k < |t| && HeldAt(t[k], handle)
  {
    NobodyWaits(t[f + 1..], numbers[f + 1..], handle);
    assert forall k :: f < k < |t| ==> t[k] == t[f + 1..][k - f - 1];
  }

  ghost predicate Below(s: seq<nat>, next: nat) {
    forall i :: 0 <= i < |s| ==> s[i] < next
  }

  lemma Bounded(r: Numbered, handle: nat)
    requires Matched(r)
    ensures Below(Returned(r.tickets, handle), r.next)
    ensures Below(Waiting(r.history.table, r.numbers, handle), r.next)
  {
    ReturnedBounded(r.tickets, handle, r.next);
    WaitingBounded(r.history.table, r.numbers, handle, r.next);
  }

  lemma AllBounded(back: seq<nat>, a: seq<nat>, b: seq<nat>, next: nat)
    requires Below(back, next) && Below(a + b, next)
    ensures Below(back + a, next) && Below(b, next)
  {
    assert forall i :: 0 <= i < |a| ==> a[i] == (a + b)[i];
    assert forall i :: 0 <= i < |b| ==> b[i] == (a + b)[|a| + i];
  }

  /** The first in the line to come moves over to the line of those that have come. */
  lemma MoveBorder(back: seq<nat>, a: seq<nat>, first: seq<nat>, rest: seq<nat>)
    requires a == [] || first == []
    ensures back + (a + (first + rest)) == (back + first) + (a + ([] + rest))
  {
    if a == [] {
      assert back + (first + rest) == (back + first) + rest;
    }
  }

  lemma ConfirmLine(r: Numbered, op: Op, handle: nat)
    requires Matched(r) && op.Confirm?
    ensures Line(Count(r, op), handle) == Line(r, handle)
  {
    var t, k := r.history.table, FirstFor(r.history.table, op.handle, 0);
    if k < |t| {
      NewTicket(r.tickets, Ticket(op.handle, r.numbers[k]), handle);
      WaitingSplit(t, r.numbers, handle, k);
      TakenOut(t, r.numbers, k, t[k].(valid := false), handle);
      NobodyWaits(t[..k], r.numbers[..k], handle);
      MoveBorder(Returned(r.tickets, handle), Waiting(t[..k], r.numbers[..k], handle),
                 if op.handle == handle then [r.numbers[k]] else [], Waiting(t[k + 1..], r.numbers[k + 1..], handle));
    }
  }

  lemma TakenOut(t: seq<Entry>, numbers: seq<nat>, k: nat, e: Entry, handle: nat)
    requires |t| == |numbers| && k < |t| && !e.valid
    ensures Waiting(t[k := e], numbers, handle) ==
              Waiting(t[..k], numbers[..k], handle) + ([] + Waiting(t[k + 1..], numbers[k + 1..], handle))
  {
    WaitingSplit(t[k := e], numbers, handle, k);
    assert t[k := e][..k] == t[..k] && t[k := e][k + 1..] == t[k + 1..];
  }

  // ---------- whole runs ----------

  function CountAll(r: Numbered, ops: seq<Op>): (r': Numbered)
    requires |r.numbers| == |r.history.table|
    ensures r'.history == RunOps(r.history, ops) && |r'.numbers| == |r'.history.table|
    decreases |ops|
  {
    if ops == [] then r else CountAll(Count(r, ops[0]), ops[1..])
  }

  /** No request of the handle is stored below an outstanding entry of it. */
  predicate NoneOvertakes(h: History, ops: seq<Op>, handle: nat)
    decreases |ops|
  {
    ops != [] ==> !Overtakes(h.table, ops[0], handle) && NoneOvertakes(Step(h, ops[0]), ops[1..], handle)
  }

  lemma {:induction false} LineOfRun(r: Numbered, ops: seq<Op>, handle: nat)
    requires Matched(r)
    ensures Increasing(Line(CountAll(r, ops), handle)) <==>
              Increasing(Line(r, handle)) && NoneOvertakes(r.history, ops, handle)
    ensures Matched(CountAll(r, ops))
    decreases |ops|
  {
    if ops != [] {
      CountMatches(r, ops[0]);
      if ops[0].Request? {
        RequestLine(r, ops[0], handle);
      } else {
        ConfirmLine(r, ops[0], handle);
      }
      LineOfRun(Count(r, ops[0]), ops[1..], handle);
    }
  }

  function Start(): Numbered {
    Numbered(Empty(), seq(SLOTS, _ => 0), 0, [])
  }

  lemma IncreasingPart(a: seq<nat>, b: seq<nat>)
    requires Increasing(a + b)
    ensures Increasing(a)
  {
    assert forall i :: 0 <= i < |a| ==> a[i] == (a + b)[i];
  }

  /**
   Order over all runs. If no request of a handle is stored below an outstanding entry of it, its pointers come back in
   the order of the requests; and once none is outstanding any more, they have come back in order only if so.
   */
  lemma InOrderIffNoneOvertakes(ops: seq<Op>, handle: nat, r: Numbered)
    requires r == CountAll(Start(), ops)
    ensures r.history == RunOps(Empty(), ops) && Matched(r)
    ensures NoneOvertakes(Empty(), ops, handle) ==> Increasing(Returned(r.tickets, handle))
    ensures (forall i :: 0 <= i < |r.history.table| ==> !HeldAt(r.history.table[i], handle)) ==>
              (Increasing(Returned(r.tickets, handle)) <==> NoneOvertakes(Empty(), ops, handle))
  {
    var t, back := r.history.table, Returned(r.tickets, handle);
    var waiting := Waiting(t, r.numbers, handle);
    LineOfRun(Start(), ops, handle);
    NobodyWaits(Start().history.table, Start().numbers, handle);
    NobodyWaits(t, r.numbers, handle);
    if NoneOvertakes(Empty(), ops, handle) {
      IncreasingPart(back, waiting);
    }
    assert back + [] == back;
  }
}
