/**
 Descriptor lifetime in full-duplex mode (sockets.c): the counter of calls that hold a
 socket slot and the pending free. Each section under SYS_ARCH_PROTECT is one atomic step
 and any number of opens, uses and closes interleave.
 */
module SocketLifetime {
  import opened FiniteSets
  import opened Options

  /** fd_free_pending: free requested, and for which kind of socket. */
  datatype Pending = No | Free(tcp: bool)

  /** A slot of the socket array; netconns are told apart by numbers. */
  datatype Slot = Slot(conn: Option<nat>, used: nat, pending: Pending)

  /** fd_used is an 8-bit counter. */
  const USED_MAX: nat := 255

  // ----- the four protected sections, on one slot -----

  /** sock_inc_used. */
  function IncUsed(k: Slot): (Slot, bool) {
    if k.pending.Free? then (k, false) else (k.(used := k.used + 1), true)
  }

  /** free_socket_locked: the slot, and the netconn to delete when the slot has been freed. */
  function FreeLocked(k: Slot, tcp: bool): (Slot, Option<nat>)
    requires k.used > 0
  {
    if k.used - 1 > 0 then (k.(used := k.used - 1, pending := Free(tcp)), None)
    else (k.(used := 0, conn := None), k.conn)
  }

  /** done_socket. */
  function Done(k: Slot): (Slot, Option<nat>)
    requires k.used > 0
  {
    var k' := k.(used := k.used - 1);
    if k'.used == 0 && k'.pending.Free? then FreeLocked(k'.(used := 1), k'.pending.tcp) else (k', None)
  }

  /** The body of the loop of alloc_socket. */
  function TryAlloc(k: Slot, conn: nat): (Slot, bool) {
    if k.conn.None? && k.used == 0 then (Slot(Some(conn), 1, No), true) else (k, false)
  }

  // ----- the protocol -----

  /** What a call is doing: looking for a free slot for a new netconn, or holding a slot that
      had netconn `conn` (or none) when the hold began. */
  datatype Call = Opening(i: nat, newconn: nat) | Holding(s: nat, conn: Option<nat>)

  /** The slots, the calls in progress, the netconns deleted so far and those whose open
      failed; netconns below `next` have been created. */
  datatype State = State(slots: seq<Slot>, calls: map<nat, Call>, deleted: seq<nat>, refused: set<nat>, next: nat)

  datatype Step =
    | Open(t: nat)            // a call creates a netconn and starts alloc_socket
    | Alloc(t: nat)           // one iteration of alloc_socket
    | Acquire(t: nat, s: nat) // sock_inc_used at the start of a call
    | Release(t: nat)         // done_socket at its end
    | Close(t: nat, tcp: bool) // free_socket at the end of lwip_close

  predicate Enabled(st: State, a: Step) {
    match a
    case Open(t) => t !in st.calls
    case Alloc(t) => t in st.calls && st.calls[t].Opening?
    case Acquire(t, s) => t !in st.calls && s < |st.slots| && st.slots[s].used < USED_MAX
    case Release(t) => t in st.calls && st.calls[t].Holding? && st.calls[t].s < |st.slots| && st.slots[st.calls[t].s].used > 0
    case Close(t, _) => t in st.calls && st.calls[t].Holding? && st.calls[t].conn.Some? &&
                        st.calls[t].s < |st.slots| && st.slots[st.calls[t].s].used > 0
  }

  function Log(deleted: seq<nat>, c: Option<nat>): seq<nat> {
    match c
    case None => deleted
    case Some(n) => deleted + [n]
  }

  function Next(st: State, a: Step): State
    requires Enabled(st, a)
  {
    match a
    case Open(t) => st.(calls := st.calls[t := Opening(0, st.next)], next := st.next + 1)
    case Alloc(t) =>
      var Opening(i, c) := st.calls[t];
      if i >= |st.slots| then st.(calls := st.calls - {t}, refused := st.refused + {c})
      else
        var (k, ok) := TryAlloc(st.slots[i], c);
        if ok then st.(slots := st.slots[i := k], calls := st.calls[t := Holding(i, Some(c))])
        else st.(calls := st.calls[t := Opening(i + 1, c)])
    case Acquire(t, s) =>
      var (k, ok) := IncUsed(st.slots[s]);
      if ok then st.(slots := st.slots[s := k], calls := st.calls[t := Holding(s, k.conn)]) else st
    case Release(t) =>
      var s := st.calls[t].s;
      var (k, c) := Done(st.slots[s]);
      st.(slots := st.slots[s := k], calls := st.calls - {t}, deleted := Log(st.deleted, c))
    case Close(t, tcp) =>
      var s := st.calls[t].s;
      var (k, c) := FreeLocked(st.slots[s], tcp);
      st.(slots := st.slots[s := k], calls := st.calls - {t}, deleted := Log(st.deleted, c))
  }

  /** The calls that hold slot `s`. */
  function Holders(calls: map<nat, Call>, s: nat): set<nat> {
    set t | t in calls && Holds(calls, t, s)
  }

  predicate Holds(calls: map<nat, Call>, t: nat, s: nat) {
    t in calls && calls[t].Holding? && calls[t].s == s
  }

  ghost predicate SlotOk(st: State, s: nat)
    requires s < |st.slots|
  {
    var k := st.slots[s];
    && k.used == |Holders(st.calls, s)|
    && (k.pending.Free? ==> (k.used > 0 <==> k.conn.Some?))
    && (k.conn.Some? ==> k.conn.value < st.next && k.conn.value !in st.refused && k.conn.value !in st.deleted)
  }

  ghost predicate CallOk(st: State, t: nat, c: Call) {
    match c
    case Opening(_, n) => n < st.next && n !in st.deleted && n !in st.refused
                          && (forall s :: 0 <= s < |st.slots| ==> st.slots[s].conn != Some(n))
                          && (forall u :: u in st.calls && u != t && st.calls[u].Opening? ==> st.calls[u].newconn != n)
    case Holding(s, n) => s < |st.slots| && st.slots[s].conn == n
  }

  ghost predicate Inv(st: State) {
    && (forall s :: 0 <= s < |st.slots| ==> SlotOk(st, s))
    && (forall t :: t in st.calls ==> CallOk(st, t, st.calls[t]))
    && (forall i, j :: 0 <= i < j < |st.slots| && st.slots[i].conn.Some? ==> st.slots[i].conn != st.slots[j].conn)
    && (forall i, j :: 0 <= i < j < |st.deleted| ==> st.deleted[i] != st.deleted[j])
    && (forall c :: c in st.deleted ==> c < st.next && c !in st.refused)
    && (forall c :: c in st.refused ==> c < st.next)
  }

  ghost predicate Init(st: State) {
    && st.calls == map[] && st.deleted == [] && st.refused == {} && st.next == 0
    && forall s :: 0 <= s < |st.slots| ==> st.slots[s] == Slot(None, 0, No)
  }

  lemma HoldersAre(calls: map<nat, Call>, s: nat)
    ensures forall t :: t in Holders(calls, s) <==> Holds(calls, t, s)
  {
  }

  lemma HoldersChange(calls: map<nat, Call>, calls': map<nat, Call>, t: nat, s: nat)
    requires forall u :: u != t ==> (Holds(calls, u, s) <==> Holds(calls', u, s))
    ensures |Holders(calls', s)| == |Holders(calls, s)| - (if Holds(calls, t, s) then 1 else 0) + (if Holds(calls', t, s) then 1 else 0)
  {
    hide Holders, Holds;
    HoldersAre(calls, s);
    HoldersAre(calls', s);
    var a, b := Holders(calls, s), Holders(calls', s);
    assert a - {t} == b - {t};
    SizesDiffer(a, b, t);
  }

  lemma HolderCounts(st: State, t: nat)
    requires Inv(st) && t in st.calls && st.calls[t].Holding?
    ensures st.calls[t].s < |st.slots| && st.slots[st.calls[t].s].used > 0
    ensures st.slots[st.calls[t].s].used == 1 ==> Holders(st.calls, st.calls[t].s) == {t}
  {
    assert CallOk(st, t, st.calls[t]);
    var s := st.calls[t].s;
    assert SlotOk(st, s);
    assert t in Holders(st.calls, s);
    if st.slots[s].used == 1 {
      assert |Holders(st.calls, s) - {t}| == 0;
    }
  }

  lemma StepSlots(st: State, a: Step, s: nat)
    requires Inv(st) && Enabled(st, a) && s < |st.slots|
    ensures |Next(st, a).slots| == |st.slots| && SlotOk(Next(st, a), s)
  {
    assert SlotOk(st, s);
    var st' := Next(st, a);
    var t := a.t;
    HoldersChange(st.calls, st'.calls, t, s);
    if t in st.calls {
      assert CallOk(st, t, st.calls[t]);
    }
  }

  /** What a step does to a netconn: every netconn keeps its place unless the step moves it. */
  lemma StepCalls(st: State, a: Step, u: nat)
    requires Inv(st) && Enabled(st, a) && u in Next(st, a).calls
    ensures CallOk(Next(st, a), u, Next(st, a).calls[u])
  {
    hide SlotOk;
    var st' := Next(st, a);
    if u in st.calls {
      assert CallOk(st, u, st.calls[u]);
      if st.calls[u].Holding? {
        HolderCounts(st, u);
      }
    }
    if a.t in st.calls {
      assert CallOk(st, a.t, st.calls[a.t]);
    }
    assert a.Release? || a.Close? ==> u != a.t;
    if (a.Release? || a.Close?) && st'.calls[u].Holding? && st'.calls[u].s == st.calls[a.t].s {
      // the slot is still in use, so its netconn stays
      TwoHolders(st, a.t, u);
    }
    FreshConn(st);
  }

  /** The next netconn is in no slot yet. */
  lemma FreshConn(st: State)
    requires Inv(st)
    ensures forall s :: 0 <= s < |st.slots| ==> st.slots[s].conn != Some(st.next)
  {
    forall s | 0 <= s < |st.slots|
      ensures st.slots[s].conn != Some(st.next)
    {
      assert SlotOk(st, s);
    }
  }

  lemma TwoHolders(st: State, t: nat, u: nat)
    requires Inv(st) && t in st.calls && u in st.calls && t != u
    requires st.calls[t].Holding? && st.calls[u].Holding? && st.calls[t].s == st.calls[u].s
    ensures st.calls[t].s < |st.slots| && st.slots[st.calls[t].s].used > 1
  {
    HolderCounts(st, t);
    assert u in Holders(st.calls, st.calls[t].s);
  }

  lemma StepConns(st: State, a: Step)
    requires Inv(st) && Enabled(st, a)
    ensures var st' := Next(st, a);
            && (forall i, j :: 0 <= i < j < |st'.slots| && st'.slots[i].conn.Some? ==> st'.slots[i].conn != st'.slots[j].conn)
            && (forall i, j :: 0 <= i < j < |st'.deleted| ==> st'.deleted[i] != st'.deleted[j])
            && (forall c :: c in st'.deleted ==> c < st'.next && c !in st'.refused)
            && (forall c :: c in st'.refused ==> c < st'.next)
  {
    if a.t in st.calls {
      assert CallOk(st, a.t, st.calls[a.t]);
      if st.calls[a.t].Holding? {
        assert SlotOk(st, st.calls[a.t].s);
      }
    }
  }

  lemma StepKeeps(st: State, a: Step)
    requires Inv(st) && Enabled(st, a)
    ensures Inv(Next(st, a))
  {
    hide SlotOk, CallOk, Next;
    StepConns(st, a);
    var st' := Next(st, a);
    forall s | 0 <= s < |st'.slots|
      ensures SlotOk(st', s)
    {
      SlotCount(st, a);
      StepSlots(st, a, s);
    }
    forall u | u in st'.calls
      ensures CallOk(st', u, st'.calls[u])
    {
      StepCalls(st, a, u);
    }
  }

  lemma SlotCount(st: State, a: Step)
    requires Enabled(st, a)
    ensures |Next(st, a).slots| == |st.slots|
  {
  }

  ghost predicate Runs(st: State, steps: seq<Step>, last: State)
    decreases |steps|
  {
    if steps == [] then last == st
    else Enabled(st, steps[0]) && Runs(Next(st, steps[0]), steps[1..], last)
  }

  lemma {:induction false} RunKeeps(st: State, steps: seq<Step>, last: State)
    requires Inv(st) && Runs(st, steps, last)
    ensures Inv(last)
    decreases |steps|
  {
    if steps != [] {
      StepKeeps(st, steps[0]);
      RunKeeps(Next(st, steps[0]), steps[1..], last);
    }
  }

  ghost predicate Reachable(st: State) {
    exists first: State, steps: seq<Step> :: Init(first) && Runs(first, steps, st)
  }

  lemma ReachableInv(st: State)
    requires Reachable(st)
    ensures Inv(st)
  {
    var first: State, steps: seq<Step> :| Init(first) && Runs(first, steps, st);
    forall s | 0 <= s < |first.slots|
      ensures SlotOk(first, s)
    {
      assert Holders(first.calls, s) == {};
    }
    RunKeeps(first, steps, st);
  }

  /** While any call holds a slot, the slot keeps the netconn it had when the hold began: it is
      neither freed nor given to another open. */
  lemma HeldSlotKeepsConn(st: State, t: nat)
    requires Reachable(st) && t in st.calls && st.calls[t].Holding?
    ensures st.calls[t].s < |st.slots| && st.slots[st.calls[t].s].conn == st.calls[t].conn
    ensures st.slots[st.calls[t].s].used == |Holders(st.calls, st.calls[t].s)| > 0
    ensures forall a :: Enabled(st, a) && a.Alloc? ==> Next(st, a).slots[st.calls[t].s] == st.slots[st.calls[t].s]
  {
    ReachableInv(st);
    HolderCounts(st, t);
    assert CallOk(st, t, st.calls[t]) && SlotOk(st, st.calls[t].s);
  }

  /** After a free is pending no new call gets hold of the slot. */
  lemma NoNewHolder(st: State, a: Step, s: nat)
    requires Reachable(st) && Enabled(st, a) && s < |st.slots| && st.slots[s].pending.Free? && st.slots[s].used > 0
    ensures Holders(Next(st, a).calls, s) <= Holders(st.calls, s)
    ensures Next(st, a).slots[s].pending.Free?
  {
    ReachableInv(st);
    assert SlotOk(st, s);
    if a.t in st.calls {
      assert CallOk(st, a.t, st.calls[a.t]);
    }
  }

  /** A step that removes a netconn is the end of a close or of a call on a slot whose free is
      pending, its call was the only holder left, and exactly that netconn is deleted. */
  lemma RemovedByLastHolder(st: State, a: Step, s: nat)
    requires Reachable(st) && Enabled(st, a) && s < |st.slots|
    requires st.slots[s].conn.Some? && Next(st, a).slots[s].conn != st.slots[s].conn
    ensures (a.Close? || (a.Release? && st.slots[s].pending.Free?)) && Holders(st.calls, s) == {a.t}
    ensures Next(st, a).slots[s].conn.None? && Next(st, a).deleted == st.deleted + [st.slots[s].conn.value]
  {
    ReachableInv(st);
    assert SlotOk(st, s);
    if a.t in st.calls && st.calls[a.t].Holding? {
      HolderCounts(st, a.t);
    }
  }

  /** The netconn waits for a slot with some call. */
  predicate IsOpening(st: State, c: nat) {
    exists t :: t in st.calls && Opens(st, t, c)
  }

  predicate Opens(st: State, t: nat, c: nat) {
    t in st.calls && st.calls[t].Opening? && st.calls[t].newconn == c
  }

  predicate InSlot(st: State, c: nat) {
    exists s :: 0 <= s < |st.slots| && st.slots[s].conn == Some(c)
  }

  predicate Placed(st: State, c: nat) {
    IsOpening(st, c) || InSlot(st, c) || c in st.deleted || c in st.refused
  }

  lemma StepPlaces(st: State, a: Step, c: nat)
    requires Inv(st) && Enabled(st, a) && (c < st.next ==> Placed(st, c)) && c < Next(st, a).next
    ensures Placed(Next(st, a), c)
  {
    var st' := Next(st, a);
    if c == st.next {
      assert a.Open? && Opens(st', a.t, c);
    } else if t :| t in st.calls && Opens(st, t, c) {
      if t == a.t {
        var i := st.calls[t].i;
        assert a.Alloc?;
        if i >= |st.slots| {
          assert c in st'.refused;
        } else if TryAlloc(st.slots[i], c).1 {
          assert st'.slots[i].conn == Some(c);
        } else {
          assert Opens(st', t, c);
        }
      } else {
        assert Opens(st', t, c);
      }
    } else if s :| 0 <= s < |st.slots| && st.slots[s].conn == Some(c) {
      assert st'.slots[s].conn == Some(c) || (st'.deleted == st.deleted + [c]);
    }
  }

  lemma {:induction false} RunPlaces(st: State, steps: seq<Step>, last: State, c: nat)
    requires Inv(st) && Runs(st, steps, last) && (c < st.next ==> Placed(st, c)) && c < last.next
    ensures Placed(last, c)
    decreases |steps|
  {
    if steps != [] {
      StepKeeps(st, steps[0]);
      if c < Next(st, steps[0]).next {
        StepPlaces(st, steps[0], c);
      }
      RunPlaces(Next(st, steps[0]), steps[1..], last, c);
    }
  }

  /** Conservation of netconns over every run: each one ever created is in exactly one place, with
      one call that looks for a slot, in one slot, deleted once, or refused. */
  lemma NetconnsConserved(st: State, c: nat)
    requires Reachable(st) && c < st.next
    ensures Placed(st, c)
    ensures IsOpening(st, c) ==> !InSlot(st, c) && c !in st.deleted && c !in st.refused
    ensures InSlot(st, c) ==> c !in st.deleted && c !in st.refused
    ensures c in st.deleted ==> c !in st.refused
    ensures forall t, u :: t in st.calls && u in st.calls && Opens(st, t, c) && Opens(st, u, c) ==> t == u
    ensures forall i, j :: 0 <= i < j < |st.slots| ==> !(st.slots[i].conn == Some(c) && st.slots[j].conn == Some(c))
    ensures forall i, j :: 0 <= i < j < |st.deleted| ==> !(st.deleted[i] == c && st.deleted[j] == c)
  {
    var first: State, steps: seq<Step> :| Init(first) && Runs(first, steps, st);
    ReachableInv(st);
    assert Runs(first, [], first);
    assert Reachable(first);
    ReachableInv(first);
    RunPlaces(first, steps, st, c);
    if s :| 0 <= s < |st.slots| && st.slots[s].conn == Some(c) {
      assert SlotOk(st, s);
    }
    forall t | t in st.calls
      ensures CallOk(st, t, st.calls[t])
    {
    }
  }

  // ----- which slot an open gets -----

  /** What keeps a slot from being given to an open: a netconn or a holder, and not a pending free. */
  predicate Busy(k: Slot) {
    k.conn.Some? || k.used != 0
  }

  /** One look of an open: it goes on behind a slot that is busy, takes any other one with a clean
      state, and is refused behind the last slot. */
  lemma AllocExactly(st: State, t: nat)
    requires Enabled(st, Alloc(t))
    ensures var i, c, st' := st.calls[t].i, st.calls[t].newconn, Next(st, Alloc(t));
            && st'.deleted == st.deleted && st'.next == st.next
            && if i >= |st.slots| then st'.slots == st.slots && st'.calls == st.calls - {t} && st'.refused == st.refused + {c}
               else if Busy(st.slots[i]) then st' == st.(calls := st.calls[t := Opening(i + 1, c)])
               else && st'.slots == st.slots[i := Slot(Some(c), 1, No)] && st'.refused == st.refused
                    && st'.calls == st.calls[t := Holding(i, Some(c))]
  {
  }

  /** In the run, the open of `t` has looked at slot `s` and found it busy. */
  ghost predicate FoundBusy(st: State, steps: seq<Step>, t: nat, s: nat)
    decreases |steps|
  {
    && steps != [] && Enabled(st, steps[0])
    && ((steps[0] == Alloc(t) && st.calls[t].i == s && s < |st.slots| && Busy(st.slots[s]))
        || FoundBusy(Next(st, steps[0]), steps[1..], t, s))
  }

  /** A netconn that no call opens any more is not refused. */
  lemma {:induction false} NotRefused(st: State, steps: seq<Step>, last: State, c: nat)
    requires Runs(st, steps, last) && c < st.next && c !in st.refused
    requires forall t :: t in st.calls ==> !Opens(st, t, c)
    ensures c !in last.refused
    decreases |steps|
  {
    if steps != [] {
      assert steps[0].Alloc? ==> !Opens(st, steps[0].t, c);
      NotRefused(Next(st, steps[0]), steps[1..], last, c);
    }
  }

  /** While a call opens, only its own looks change that. */
  lemma OpenStays(st: State, a: Step, t: nat, c: nat)
    requires Inv(st) && Enabled(st, a) && Opens(st, t, c)
    ensures a != Alloc(t) ==> t in Next(st, a).calls && Next(st, a).calls[t] == st.calls[t]
    ensures a != Alloc(t) ==> (c in Next(st, a).refused <==> c in st.refused)
    ensures a == Alloc(t) ==> forall u :: u in Next(st, a).calls && u != t ==> !Opens(Next(st, a), u, c)
    ensures c < Next(st, a).next && |Next(st, a).slots| == |st.slots|
  {
    assert CallOk(st, t, st.calls[t]);
    if a.t in st.calls {
      assert CallOk(st, a.t, st.calls[a.t]);
    }
  }

  /** An open is refused only when it has found every slot, at the moment it came to it, with a
      netconn or a holder. */
  lemma {:induction false} RefusedLooked(st: State, steps: seq<Step>, last: State, t: nat, c: nat, s: nat)
    requires Inv(st) && Opens(st, t, c) && Runs(st, steps, last) && c !in st.refused && c in last.refused
    requires st.calls[t].i <= s < |st.slots|
    ensures FoundBusy(st, steps, t, s)
    decreases |steps|
  {
    hide Inv, Next;
    var a := steps[0];
    var st1 := Next(st, a);
    OpenStays(st, a, t, c);
    StepKeeps(st, a);
    if a == Alloc(t) {
      AllocExactly(st, t);
      var i := st.calls[t].i;
      if !Busy(st.slots[i]) {
        NotRefused(st1, steps[1..], last, c);
        assert false;
      }
      if i < s {
        RefusedLooked(st1, steps[1..], last, t, c, s);
      }
    } else {
      RefusedLooked(st1, steps[1..], last, t, c, s);
    }
  }

  /** Nothing in the run takes slot `s`: no open comes to it, and no call takes a hold on it. */
  ghost predicate LeavesSlot(st: State, steps: seq<Step>, s: nat)
    decreases |steps|
  {
    steps != [] && Enabled(st, steps[0]) ==>
      && !(steps[0].Alloc? && st.calls[steps[0].t].i == s)
      && !(steps[0].Acquire? && steps[0].s == s && st.slots[s].pending.No?)
      && LeavesSlot(Next(st, steps[0]), steps[1..], s)
  }

  /** A free slot has no holders. */
  lemma FreeHasNoHolder(st: State, s: nat, t: nat)
    requires Inv(st) && s < |st.slots| && st.slots[s].used == 0 && t in st.calls && st.calls[t].Holding?
    ensures st.calls[t].s != s
  {
    HolderCounts(st, t);
  }

  lemma {:induction false} FreeStays(st: State, steps: seq<Step>, last: State, s: nat)
    requires Inv(st) && Runs(st, steps, last) && s < |st.slots| && !Busy(st.slots[s]) && LeavesSlot(st, steps, s)
    ensures |last.slots| == |st.slots| && last.slots[s] == st.slots[s] && Inv(last)
    decreases |steps|
  {
    if steps != [] {
      var a := steps[0];
      StepKeeps(st, a);
      SlotCount(st, a);
      if a.t in st.calls && st.calls[a.t].Holding? {
        FreeHasNoHolder(st, s, a.t);
      }
      FreeStays(Next(st, a), steps[1..], last, s);
    }
  }

  /** A slot whose netconn has been removed is reused, with or without a free still marked as
      pending: the next open that comes to it gets it. */
  lemma FreedIsTaken(st: State, a: Step, s: nat, steps: seq<Step>, last: State, t: nat)
    requires Reachable(st) && Enabled(st, a) && s < |st.slots|
    requires st.slots[s].conn.Some? && Next(st, a).slots[s].conn != st.slots[s].conn
    requires Runs(Next(st, a), steps, last) && LeavesSlot(Next(st, a), steps, s)
    requires Enabled(last, Alloc(t)) && last.calls[t].i == s
    ensures s < |last.slots| && !Busy(last.slots[s])
    ensures Next(last, Alloc(t)).slots[s] == Slot(Some(last.calls[t].newconn), 1, No)
    ensures Next(last, Alloc(t)).calls[t] == Holding(s, Some(last.calls[t].newconn))
  {
    hide Inv, LeavesSlot, Runs;
    ReachableInv(st);
    RemovedByLastHolder(st, a, s);
    StepKeeps(st, a);
    SlotCount(st, a);
    RemovedIsFree(st, a, s);
    FreeStays(Next(st, a), steps, last, s);
    AllocExactly(last, t);
  }

  lemma RemovedIsFree(st: State, a: Step, s: nat)
    requires Inv(st) && Enabled(st, a) && s < |st.slots| && s < |Next(st, a).slots|
    requires st.slots[s].conn.Some? && Next(st, a).slots[s].conn != st.slots[s].conn
    ensures !Busy(Next(st, a).slots[s])
  {
  }

  /** The assertion of sock_inc_used_locked, that a slot whose free is pending is in use, holds
      exactly while the slot still has its netconn ... */
  lemma LockedAssertExactly(st: State, s: nat)
    requires Reachable(st) && s < |st.slots| && st.slots[s].pending.Free?
    ensures st.slots[s].used != 0 <==> st.slots[s].conn.Some?
  {
    ReachableInv(st);
    assert SlotOk(st, s);
  }

  /** ... and fails on a slot that was freed by the last of two holders and not reallocated. */
  lemma LockedAssertFails()
    ensures exists st: State :: Reachable(st) && |st.slots| == 1 && st.slots[0].pending.Free? && st.slots[0].used == 0
  {
    hide Next, Enabled;
    var s0 := State([Slot(None, 0, No)], map[], [], {}, 0);
    var s2 := State([Slot(Some(0), 1, No)], map[0 := Holding(0, Some(0))], [], {}, 1);
    var s3 := State([Slot(Some(0), 2, No)], map[0 := Holding(0, Some(0)), 1 := Holding(0, Some(0))], [], {}, 1);
    var s5 := State([Slot(None, 0, Free(true))], map[], [0], {}, 1);
    OpenOne(s0, s2);
    UseAndClose(s2, s3, s5);
    var s1 := Next(s0, Open(0));
    Prepend(s3, Acquire(1, 0), s2, [Close(0, true), Release(1)], s5);
    Prepend(s2, Alloc(0), s1, [Acquire(1, 0)] + [Close(0, true), Release(1)], s5);
    Prepend(s1, Open(0), s0, [Alloc(0)] + ([Acquire(1, 0)] + [Close(0, true), Release(1)]), s5);
    assert Init(s0);
  }

  /** The slot is opened. */
  lemma OpenOne(s0: State, s2: State)
    requires s0 == State([Slot(None, 0, No)], map[], [], {}, 0)
    requires s2 == State([Slot(Some(0), 1, No)], map[0 := Holding(0, Some(0))], [], {}, 1)
    ensures Enabled(s0, Open(0)) && Enabled(Next(s0, Open(0)), Alloc(0)) && Next(Next(s0, Open(0)), Alloc(0)) == s2
  {
    assert Next(s0, Open(0)) == State([Slot(None, 0, No)], map[0 := Opening(0, 0)], [], {}, 1);
  }

  /** A second call uses the slot while the first one closes it. */
  lemma UseAndClose(s2: State, s3: State, s5: State)
    requires s2 == State([Slot(Some(0), 1, No)], map[0 := Holding(0, Some(0))], [], {}, 1)
    requires s3 == State([Slot(Some(0), 2, No)], map[0 := Holding(0, Some(0)), 1 := Holding(0, Some(0))], [], {}, 1)
    requires s5 == State([Slot(None, 0, Free(true))], map[], [0], {}, 1)
    ensures Enabled(s2, Acquire(1, 0)) && Next(s2, Acquire(1, 0)) == s3 && Runs(s3, [Close(0, true), Release(1)], s5)
  {
    var s4 := State([Slot(Some(0), 1, Free(true))], map[1 := Holding(0, Some(0))], [], {}, 1);
    Prepend(s5, Release(1), s4, [], s5);
    Prepend(s4, Close(0, true), s3, [Release(1)], s5);
  }

  lemma Prepend(st': State, a: Step, st: State, steps: seq<Step>, last: State)
    requires Enabled(st, a) && Next(st, a) == st' && Runs(st', steps, last)
    ensures Runs(st, [a] + steps, last)
  {
    assert ([a] + steps)[1..] == steps;
  }
}

/** The socket array itself. */
module SocketTable {
  import opened Options
  import opened SocketLifetime

  class Table {
    const sockets: array<Slot>

    constructor (n: nat)
      ensures fresh(sockets) && sockets.Length == n
      ensures forall s :: 0 <= s < n ==> sockets[s] == Slot(None, 0, No)
    {
      sockets := new Slot[n](_ => Slot(None, 0, No));
    }

    /** sock_inc_used. */
    method SockIncUsed(s: nat) returns (ret: bool)
      requires s < sockets.Length && sockets[s].used < USED_MAX
      modifies sockets
      ensures sockets[..] == old(sockets[..])[s := IncUsed(old(sockets[s])).0]
      ensures ret == IncUsed(old(sockets[s])).1
      ensures sockets[..] == old(sockets[..])[s := sockets[s]]
      ensures ret == old(sockets[s]).pending.No?
      ensures sockets[s] == if ret then old(sockets[s]).(used := old(sockets[s]).used + 1) else old(sockets[s])
    {
      if sockets[s].pending.Free? {
        ret := false;
      } else {
        sockets[s] := sockets[s].(used := sockets[s].used + 1);
        ret := true;
      }
    }

    /** free_socket_locked; `conn` is the netconn to delete outside the lock. */
    method FreeSocketLocked(s: nat, tcp: bool) returns (freed: bool, conn: Option<nat>)
      requires s < sockets.Length && sockets[s].used > 0
      modifies sockets
      ensures sockets[..] == old(sockets[..])[s := FreeLocked(old(sockets[s]), tcp).0]
      ensures conn == FreeLocked(old(sockets[s]), tcp).1
      ensures freed <==> old(sockets[s]).used == 1
      ensures var k := old(sockets[s]);
              && sockets[s] == (if freed then Slot(None, 0, k.pending) else Slot(k.conn, k.used - 1, Free(tcp)))
              && conn == if freed then k.conn else None
    {
      sockets[s] := sockets[s].(used := sockets[s].used - 1);
      if sockets[s].used > 0 {
        sockets[s] := sockets[s].(pending := Free(tcp));
        return false, None;
      }
      conn := sockets[s].conn;
      sockets[s] := sockets[s].(conn := None);
      freed := true;
    }

    /** done_socket. */
    method DoneSocket(s: nat) returns (conn: Option<nat>)
      requires s < sockets.Length && sockets[s].used > 0
      modifies sockets
      ensures sockets[..] == old(sockets[..])[s := Done(old(sockets[s])).0]
      ensures conn == Done(old(sockets[s])).1
      ensures var k := old(sockets[s]);
              var last := k.used == 1 && k.pending.Free?;
              && sockets[s] == (if last then Slot(None, 0, k.pending) else Slot(k.conn, k.used - 1, k.pending))
              && conn == if last then k.conn else None
    {
      conn := None;
      sockets[s] := sockets[s].(used := sockets[s].used - 1);
      if sockets[s].used == 0 {
        if sockets[s].pending.Free? {
          sockets[s] := sockets[s].(used := 1);
          var freed;
          freed, conn := FreeSocketLocked(s, sockets[s].pending.tcp);
        }
      }
    }

    /** alloc_socket, undisturbed: the lowest slot without netconn and without holder, whether or not a
        free is still marked as pending in it. */
    method AllocSocket(newconn: nat) returns (fd: int)
      modifies sockets
      ensures -1 <= fd < sockets.Length
      ensures fd == -1 <==> forall s :: 0 <= s < sockets.Length ==> old(sockets[s]).conn.Some? || old(sockets[s]).used != 0
      ensures fd >= 0 ==>
                && old(sockets[fd]).conn.None? && old(sockets[fd]).used == 0
                && (forall s :: 0 <= s < fd ==> old(sockets[s]).conn.Some? || old(sockets[s]).used != 0)
                && sockets[..] == old(sockets[..])[fd := Slot(Some(newconn), 1, No)]
      ensures forall s :: 0 <= s < (if fd == -1 then sockets.Length else fd) ==> !TryAlloc(old(sockets[s]), newconn).1
      ensures fd == -1 ==> sockets[..] == old(sockets[..])
      ensures fd >= 0 ==> TryAlloc(old(sockets[fd]), newconn).1
                          && sockets[..] == old(sockets[..])[fd := TryAlloc(old(sockets[fd]), newconn).0]
    {
      for i := 0 to sockets.Length
        invariant forall s :: 0 <= s < i ==> !TryAlloc(sockets[s], newconn).1
        invariant sockets[..] == old(sockets[..])
      {
        if sockets[i].conn.None? {
          if sockets[i].used != 0 {
            continue;
          }
          sockets[i] := sockets[i].(used := 1);
          sockets[i] := sockets[i].(pending := No);
          sockets[i] := sockets[i].(conn := Some(newconn));
          return i;
        }
      }
      return -1;
    }
  }
}
