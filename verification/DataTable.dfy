/**
 The table of outstanding data requests: each request leaves its connection handle and its data pointer in the first free
 slot, each confirm takes the first entry of its handle out again.
 */
module DataTable {
  import opened Wrappers
  import opened WordBits

  const SLOTS: nat := 20
  const CONFIRM_LENGTH: nat := 7

  /** A slot keeps what was last stored in it; only the flag says whether that counts. */
  datatype Entry = Entry(valid: bool, handle: nat, data: nat)

  datatype Pair = Pair(handle: nat, data: nat)

  function PairOf(e: Entry): Pair {
    Pair(e.handle, e.data)
  }

  function One(e: Entry): multiset<Pair> {
    if e.valid then multiset{PairOf(e)} else multiset{}
  }

  /** What the table stands for: the pairs that are outstanding, as often as they are. */
  function Outstanding(t: seq<Entry>): multiset<Pair> {
    if t == [] then multiset{} else One(t[0]) + Outstanding(t[1..])
  }

  /** The first free slot at or after i. */
  function FirstFree(t: seq<Entry>, i: nat): (k: nat)
    requires i <= |t|
    ensures i <= k <= |t| && (k < |t| ==> !t[k].valid)
    ensures forall j :: i <= j < k ==> t[j].valid
    decreases |t| - i
  {
    if i == |t| || !t[i].valid then i else FirstFree(t, i + 1)
  }

  predicate HeldAt(e: Entry, handle: nat) {
    e.valid && e.handle == handle
  }

  /** The first slot at or after i that holds an entry for the handle. */
  function FirstFor(t: seq<Entry>, handle: nat, i: nat): (k: nat)
    requires i <= |t|
    ensures i <= k <= |t| && (k < |t| ==> HeldAt(t[k], handle))
    ensures forall j :: i <= j < k ==> !HeldAt(t[j], handle)
    decreases |t| - i
  {
    if i == |t| || HeldAt(t[i], handle) then i else FirstFor(t, handle, i + 1)
  }

  function Store(t: seq<Entry>, handle: nat, data: nat): (t': seq<Entry>)
    ensures |t'| == |t|
  {
    var k := FirstFree(t, 0);
    if k < |t| then t[k := Entry(true, handle, data)] else t
  }

  datatype Taken = Taken(table: seq<Entry>, data: Option<nat>)

  function Take(t: seq<Entry>, handle: nat): (r: Taken)
    ensures |r.table| == |t|
  {
    var k := FirstFor(t, handle, 0);
    if k < |t| then Taken(t[k := t[k].(valid := false)], Some(t[k].data)) else Taken(t, None)
  }

  // ---------- the table as a multiset ----------

  lemma {:induction false} OutstandingUpdate(t: seq<Entry>, k: nat, e: Entry)
    requires k < |t|
    ensures One(t[k]) <= Outstanding(t)
    ensures Outstanding(t[k := e]) == Outstanding(t) - One(t[k]) + One(e)
    decreases |t|
  {
    if k == 0 {
      assert t[k := e][1..] == t[1..];
    } else {
      assert t[k := e][1..] == t[1..][k - 1 := e];
      OutstandingUpdate(t[1..], k - 1, e);
      ReplaceInSum(One(t[0]), Outstanding(t[1..]), One(t[k]), One(e));
    }
  }

  lemma ReplaceInSum<T>(a: multiset<T>, b: multiset<T>, x: multiset<T>, y: multiset<T>)
    requires x <= b
    ensures x <= a + b && a + (b - x + y) == a + b - x + y
  {
  }

  ghost predicate AllValid(t: seq<Entry>) {
    forall i :: 0 <= i < |t| ==> t[i].valid
  }

  lemma AllValidTail(t: seq<Entry>)
    requires t != []
    ensures AllValid(t) <==> t[0].valid && AllValid(t[1..])
  {
    assert forall i :: 0 < i < |t| ==> t[i] == t[1..][i - 1];
  }

  lemma {:induction false} OutstandingSize(t: seq<Entry>)
    ensures |Outstanding(t)| <= |t|
    ensures |Outstanding(t)| == |t| <==> AllValid(t)
    decreases |t|
  {
    if t != [] {
      OutstandingSize(t[1..]);
      AllValidTail(t);
      assert |One(t[0]) + Outstanding(t[1..])| == |One(t[0])| + |Outstanding(t[1..])|;
    }
  }

  lemma {:induction false} OutstandingHas(t: seq<Entry>, p: Pair)
    ensures p in Outstanding(t) <==> exists i :: 0 <= i < |t| && t[i].valid && PairOf(t[i]) == p
    decreases |t|
  {
    if t != [] {
      OutstandingHas(t[1..], p);
      assert forall i :: 0 < i < |t| ==> t[i] == t[1..][i - 1];
      assert forall i :: 0 <= i < |t| - 1 ==> t[1..][i] == t[i + 1];
    }
  }

  /** A request adds its pair, unless the table is full; then it changes nothing. */
  lemma StoreAdds(t: seq<Entry>, handle: nat, data: nat)
    ensures |Outstanding(t)| < |t| <==> FirstFree(t, 0) < |t|
    ensures |Outstanding(t)| < |t| ==>
              Outstanding(Store(t, handle, data)) == Outstanding(t) + multiset{Pair(handle, data)}
    ensures |Outstanding(t)| >= |t| ==> Store(t, handle, data) == t
  {
    var k := FirstFree(t, 0);
    RoomIffFree(t, k);
    if k < |t| {
      OutstandingUpdate(t, k, Entry(true, handle, data));
      FreeIsNothing(Outstanding(t), One(t[k]));
    }
  }

  lemma FreeIsNothing<T>(a: multiset<T>, b: multiset<T>)
    requires b == multiset{}
    ensures a - b == a
  {
  }

  lemma RoomIffFree(t: seq<Entry>, k: nat)
    requires k == FirstFree(t, 0)
    ensures |Outstanding(t)| < |t| <==> k < |t|
  {
    OutstandingSize(t);
  }

  /** A confirm hands a pointer back exactly when one is outstanding for its handle, and removes just that pair. */
  lemma TakeRemoves(t: seq<Entry>, handle: nat, r: Taken)
    requires r == Take(t, handle)
    ensures r.data.Some? <==> exists p :: p in Outstanding(t) && p.handle == handle
    ensures r.data.Some? ==>
              Pair(handle, r.data.value) in Outstanding(t)
              && Outstanding(r.table) == Outstanding(t) - multiset{Pair(handle, r.data.value)}
    ensures r.data.None? ==> r.table == t
  {
    var k := FirstFor(t, handle, 0);
    if k < |t| {
      OutstandingUpdate(t, k, t[k].(valid := false));
      OutstandingHas(t, PairOf(t[k]));
    } else {
      forall p | p in Outstanding(t)
        ensures p.handle != handle
      {
        OutstandingHas(t, p);
      }
    }
  }

  // ---------- whole runs ----------

  datatype Op = Request(handle: nat, data: nat) | Confirm(handle: nat)

  /** The table after some operations, the pairs that found room in it, and the pairs that were handed back, in order. */
  datatype History = History(table: seq<Entry>, stored: seq<Pair>, handed: seq<Pair>)

  function Step(h: History, op: Op): History {
    match op
    case Request(handle, data) =>
      if FirstFree(h.table, 0) < |h.table|
      then History(Store(h.table, handle, data), h.stored + [Pair(handle, data)], h.handed)
      else h
    case Confirm(handle) =>
      var r := Take(h.table, handle);
      (match r.data
       case None => h
       case Some(data) => History(r.table, h.stored, h.handed + [Pair(handle, data)]))
  }

  function RunOps(h: History, ops: seq<Op>): History
    decreases |ops|
  {
    if ops == [] then h else RunOps(Step(h, ops[0]), ops[1..])
  }

  function Empty(): History {
    History(seq(SLOTS, _ => Entry(false, 0, 0)), [], [])
  }

  /** Every pair that was stored has been handed back or is outstanding, each as often as it was stored. */
  ghost predicate Conserved(h: History) {
    && |h.table| == SLOTS
    && multiset(h.stored) == multiset(h.handed) + Outstanding(h.table)
  }

  lemma {:induction false} NothingOutstanding(t: seq<Entry>)
    requires forall i :: 0 <= i < |t| ==> !t[i].valid
    ensures Outstanding(t) == multiset{}
    decreases |t|
  {
    if t != [] {
      NothingOutstanding(t[1..]);
    }
  }

  lemma StepConserves(h: History, op: Op)
    requires Conserved(h)
    ensures Conserved(Step(h, op))
  {
    match op
    case Request(handle, data) =>
      if FirstFree(h.table, 0) < |h.table| {
        StoreAdds(h.table, handle, data);
        OutstandingSize(h.table);
        AddToBoth(h.stored, h.handed, Outstanding(h.table), Pair(handle, data));
      }
    case Confirm(handle) =>
      var r := Take(h.table, handle);
      TakeRemoves(h.table, handle, r);
      if r.data.Some? {
        MoveOver(h.stored, h.handed, Outstanding(h.table), Pair(handle, r.data.value));
      }
  }

  /** A request is stored exactly while fewer than 20 pairs are outstanding, and then its pair is outstanding as well. */
  lemma RequestIs(h: History, handle: nat, data: nat, h': History)
    requires Conserved(h) && h' == Step(h, Request(handle, data))
    ensures |Outstanding(h.table)| < 20 ==>
              && h'.stored == h.stored + [Pair(handle, data)] && h'.handed == h.handed
              && Outstanding(h'.table) == Outstanding(h.table) + multiset{Pair(handle, data)}
    ensures |Outstanding(h.table)| >= 20 ==> h' == h
  {
    StoreAdds(h.table, handle, data);
  }

  /** A confirm hands back one pair that is outstanding for its handle, if there is any. */
  lemma ConfirmIs(h: History, handle: nat, h': History) returns (p: Pair)
    requires Conserved(h) && h' == Step(h, Confirm(handle))
    ensures (exists q :: q in Outstanding(h.table) && q.handle == handle) ==>
              && p in Outstanding(h.table) && p.handle == handle
              && h'.stored == h.stored && h'.handed == h.handed + [p]
              && Outstanding(h'.table) == Outstanding(h.table) - multiset{p}
    ensures !(exists q :: q in Outstanding(h.table) && q.handle == handle) ==> h' == h
  {
    var r := Take(h.table, handle);
    TakeRemoves(h.table, handle, r);
    p := Pair(handle, match r.data case None => 0 case Some(data) => data);
  }

  lemma AddToBoth<T>(stored: seq<T>, handed: seq<T>, out: multiset<T>, p: T)
    requires multiset(stored) == multiset(handed) + out
    ensures multiset(stored + [p]) == multiset(handed) + (out + multiset{p})
  {
  }

  lemma MoveOver<T>(stored: seq<T>, handed: seq<T>, out: multiset<T>, p: T)
    requires multiset(stored) == multiset(handed) + out && p in out
    ensures multiset(stored) == multiset(handed + [p]) + (out - multiset{p})
  {
  }

  /** Conservation over all runs: nothing is handed back twice, to another handle, or lost. */
  lemma {:induction false} RunConserves(h: History, ops: seq<Op>)
    requires Conserved(h)
    ensures Conserved(RunOps(h, ops))
    decreases |ops|
  {
    if ops != [] {
      StepConserves(h, ops[0]);
      RunConserves(Step(h, ops[0]), ops[1..]);
    }
  }

  lemma AllRuns(ops: seq<Op>, h: History)
    requires h == RunOps(Empty(), ops)
    ensures Conserved(h) && |Outstanding(h.table)| <= SLOTS
    ensures multiset(h.handed) <= multiset(h.stored)
  {
    NothingOutstanding(Empty().table);
    RunConserves(Empty(), ops);
    OutstandingSize(h.table);
  }

  /**
   The order is not that of the requests: with two requests outstanding for a handle, one confirm and one more request,
   the newest of the three is handed back before the second.
   */
  lemma NotFirstInFirstOut(handle: nat, a: nat, b: nat, c: nat, h: History)
    requires h == RunOps(Empty(), [Request(handle, a), Request(handle, b), Confirm(handle), Request(handle, c),
                                   Confirm(handle), Confirm(handle)])
    ensures h.stored == [Pair(handle, a), Pair(handle, b), Pair(handle, c)]
    ensures h.handed == [Pair(handle, a), Pair(handle, c), Pair(handle, b)]
  {
    var ops := [Request(handle, a), Request(handle, b), Confirm(handle), Request(handle, c), Confirm(handle),
                Confirm(handle)];
    var h1 := Step(Empty(), ops[0]);
    var h2 := Step(h1, ops[1]);
    var h3 := Step(h2, ops[2]);
    var h4 := Step(h3, ops[3]);
    var h5 := Step(h4, ops[4]);
    var h6 := Step(h5, ops[5]);
    assert h1.table[0] == Entry(true, handle, a);
    assert FirstFree(h1.table, 0) == 1;
    assert FirstFor(h2.table, handle, 0) == 0;
    assert FirstFree(h3.table, 0) == 0;
    assert FirstFor(h4.table, handle, 0) == 0;
    assert FirstFor(h5.table, handle, 0) == 1;
    assert ops == [ops[0]] + ([ops[1]] + ([ops[2]] + ([ops[3]] + ([ops[4]] + ([ops[5]] + [])))));
    FirstOp(Empty(), ops[0], [ops[1]] + ([ops[2]] + ([ops[3]] + ([ops[4]] + ([ops[5]] + [])))));
    FirstOp(h1, ops[1], [ops[2]] + ([ops[3]] + ([ops[4]] + ([ops[5]] + []))));
    FirstOp(h2, ops[2], [ops[3]] + ([ops[4]] + ([ops[5]] + [])));
    FirstOp(h3, ops[3], [ops[4]] + ([ops[5]] + []));
    FirstOp(h4, ops[4], [ops[5]] + []);
    FirstOp(h5, ops[5], []);
  }

  lemma FirstOp(h: History, op: Op, ops: seq<Op>)
    ensures RunOps(h, [op] + ops) == RunOps(Step(h, op), ops)
  {
    assert ([op] + ops)[1..] == ops;
  }

  // ---------- in place ----------

  /** The call of the application's confirm handler. */
  datatype Callback = Callback(handle: nat, data: Option<nat>, result: Byte)

  class PointerTable {
    const slots: array<Entry>

    ghost predicate Valid() {
      slots.Length == SLOTS
    }

    constructor ()
      ensures Valid() && slots[..] == Empty().table && fresh(slots)
    {
      slots := new Entry[SLOTS](_ => Entry(false, 0, 0));
      new;
      assert slots[..] == Empty().table;
    }

    method DataRequest(handle: nat, data: nat)
      requires Valid()
      modifies slots
      ensures slots[..] == Store(old(slots[..]), handle, data)
      ensures |Outstanding(old(slots[..]))| < SLOTS ==>
                Outstanding(slots[..]) == Outstanding(old(slots[..])) + multiset{Pair(handle, data)}
      ensures |Outstanding(old(slots[..]))| >= SLOTS ==> slots[..] == old(slots[..])
    {
      StoreAdds(slots[..], handle, data);
      var i := 0;
      while i < SLOTS
        invariant 0 <= i <= SLOTS && slots[..] == old(slots[..])
        invariant FirstFree(slots[..], 0) == FirstFree(slots[..], i)
      {
        if !slots[i].valid {
          slots[i] := Entry(true, handle, data);
          return;
        }
        i := i + 1;
      }
    }

    /** Handles a confirm. Without a handler it is accepted and ignored; with one it must be seven bytes long. */
    method DataConfirm(msg: seq<Byte>, registered: bool) returns (ok: bool, call: Option<Callback>)
      requires Valid()
      modifies slots
      ensures ok <==> !registered || |msg| == CONFIRM_LENGTH
      ensures call.Some? <==> registered && |msg| == CONFIRM_LENGTH
      ensures call.None? ==> slots[..] == old(slots[..])
      ensures call.Some? ==>
                var handle := 256 * (msg[0] as nat) + msg[1] as nat;
                && Taken(slots[..], call.value.data) == Take(old(slots[..]), handle)
                && call.value.handle == handle && call.value.result == msg[6]
    {
      if !registered {
        return true, None;
      }
      if |msg| != CONFIRM_LENGTH {
        return false, None;
      }
      var handle := 256 * (msg[0] as nat) + msg[1] as nat;
      var data := TakeEntry(handle);
      return true, Some(Callback(handle, data, msg[6]));
    }

    method TakeEntry(handle: nat) returns (data: Option<nat>)
      requires Valid()
      modifies slots
      ensures Taken(slots[..], data) == Take(old(slots[..]), handle)
    {
      var i := 0;
      while i < SLOTS
        invariant 0 <= i <= SLOTS && slots[..] == old(slots[..])
        invariant FirstFor(slots[..], handle, 0) == FirstFor(slots[..], handle, i)
      {
        if HeldAt(slots[i], handle) {
          data := Some(slots[i].data);
          slots[i] := slots[i].(valid := false);
          return;
        }
        i := i + 1;
      }
      data := None;
    }
  }
}
