/**
 The handshake between lwip_select and event_callback (sockets.c, build without core
 locking): each section under SYS_ARCH_PROTECT is one atomic step, and any number of
 select callers and event callbacks interleave.
 */
module SelectProtocol {
  import opened FiniteSets

  datatype Direction = Read | Write | Except

  /** The event fields of a socket (struct lwip_sock). */
  datatype Sock = Sock(lastdata: bool, rcvevent: int, sendevent: bool, errevent: bool, waiting: nat)

  /** SELWAIT_T is an 8-bit counter. */
  const SELWAIT_MAX: nat := 255

  /** Where a caller of lwip_select is. */
  datatype Pc =
    | Ready                              // its select_cb is not on the list yet
    | Counting(i: nat)                   // increasing select_waiting, sockets below i are done
    | Scanning(i: nat, ready: bool)      // second lwip_selscan
    | Waiting                            // blocked on its semaphore
    | Uncounting(i: nat, upto: nat)      // decreasing select_waiting, sockets i..upto are left
    | Returned

  /** A call of lwip_select: the three descriptor sets, the state of its select_cb and its semaphore. */
  datatype Caller = Caller(readset: set<nat>, writeset: set<nat>, exceptset: set<nat>,
                           pc: Pc, signalled: bool, sem: nat)
  {
    predicate Watches(s: nat) {
      s in readset || s in writeset || s in exceptset
    }

    predicate In(s: nat, d: Direction) {
      match d
      case Read => s in readset
      case Write => s in writeset
      case Except => s in exceptset
    }

    /** The select_cb is on select_cb_list. */
    predicate OnList() {
      pc != Ready && pc != Returned
    }

    /** The caller has increased select_waiting of `s` and not decreased it yet. */
    predicate Counts(s: nat) {
      && Watches(s)
      && match pc
         case Counting(i) => s < i
         case Scanning(_, _) => true
         case Waiting => true
         case Uncounting(i, upto) => i <= s < upto
         case _ => false
    }

    /** The second scan has passed `s` and found nothing, so the caller relies on being woken. */
    predicate Relies(s: nat) {
      match pc
      case Scanning(i, ready) => s < i && !ready
      case Waiting => true
      case _ => false
    }
  }

  /** A call of select_check_waiters: the socket and the events it was told, the counter value
      it remembered and how many elements of the list it has visited since. */
  datatype Walk = Walk(s: nat, recv: bool, send: bool, err: bool, seen: int, pos: nat)
  {
    predicate Has(d: Direction) {
      match d
      case Read => recv
      case Write => send
      case Except => err
    }

    /** The test with which the walk decides to signal a caller. */
    predicate Matches(c: Caller) {
      (recv && s in c.readset) || (send && s in c.writeset) || (err && s in c.exceptset)
    }
  }

  datatype State = State(socks: seq<Sock>, list: seq<nat>, ctr: nat, callers: map<nat, Caller>, walks: map<nat, Walk>)

  datatype Event = RcvPlus | RcvMinus | SendPlus | SendMinus | Error

  predicate Active(k: Sock, d: Direction) {
    match d
    case Read => k.rcvevent > 0
    case Write => k.sendevent
    case Except => k.errevent
  }

  /** What lwip_selscan asks of a socket. */
  predicate HasEvent(k: Sock, d: Direction) {
    Active(k, d) || (d.Read? && k.lastdata)
  }

  /** The switch of event_callback: the new fields and whether waiters are to be checked. */
  function Happened(k: Sock, e: Event): (Sock, bool) {
    match e
    case RcvPlus => (k.(rcvevent := k.rcvevent + 1), k.rcvevent + 1 <= 1)
    case RcvMinus => (k.(rcvevent := k.rcvevent - 1), false)
    case SendPlus => (k.(sendevent := true), !k.sendevent)
    case SendMinus => (k.(sendevent := false), false)
    case Error => (k.(errevent := true), true)
  }

  datatype Step =
    | Link(t: nat)
    | Count(t: nat)
    | CountFails(t: nat)
    | Scan(t: nat)
    | ScanFails(t: nat)
    | Wake(t: nat)
    | Timeout(t: nat)
    | Uncount(t: nat)
    | Unlink(t: nat)
    | Lastdata(s: nat, present: bool)
    | EventCallback(s: nat, e: Event, w: nat)
    | CheckNext(w: nat)

  predicate At(st: State, t: nat) {
    t in st.callers
  }

  /** The section that a walk runs between two releases of the protection: start over when the
      list has changed, otherwise go on; visit one element. */
  function Visit(st: State, w: nat): State
    requires w in st.walks
  {
    var k := st.walks[w];
    var pos := if k.seen == st.ctr then k.pos else 0;
    if pos >= |st.list| then st.(walks := st.walks - {w})
    else
      var u := st.list[pos];
      var walks := st.walks[w := k.(seen := st.ctr, pos := pos + 1)];
      if u in st.callers && !st.callers[u].signalled && k.Matches(st.callers[u])
      then st.(walks := walks, callers := st.callers[u := st.callers[u].(signalled := true, sem := st.callers[u].sem + 1)])
      else st.(walks := walks)
  }

  function Without(list: seq<nat>, t: nat): (r: seq<nat>)
    ensures forall u :: u in r <==> u in list && u != t
  {
    if list == [] then [] else if list[0] == t then Without(list[1..], t) else [list[0]] + Without(list[1..], t)
  }

  ghost predicate Distinct(list: seq<nat>) {
    forall i, j :: 0 <= i < j < |list| ==> list[i] != list[j]
  }

  lemma {:induction false} WithoutDistinct(list: seq<nat>, t: nat)
    requires Distinct(list)
    ensures Distinct(Without(list, t))
  {
    if list != [] {
      WithoutDistinct(list[1..], t);
      var r := Without(list[1..], t);
      forall i | 0 <= i < |r|
        ensures r[i] != list[0]
      {
        assert r[i] in r && r[i] in list[1..];
      }
    }
  }

  lemma DistinctTail(list: seq<nat>)
    requires Distinct(list) && list != []
    ensures Distinct(list[1..]) && list[0] !in list[1..]
  {
  }

  lemma RemovedBehind(list: seq<nat>, k: nat)
    requires 0 < k < |list|
    ensures list[1..][k - 1] == list[k]
    ensures [list[0]] + (list[1..][..k - 1] + list[1..][k..]) == list[..k] + list[k + 1..]
  {
  }

  /** On a list without duplicates this is the removal of one element. */
  lemma {:induction false} WithoutOne(list: seq<nat>, k: nat)
    requires Distinct(list) && k < |list|
    ensures Without(list, list[k]) == list[..k] + list[k + 1..]
  {
    hide Distinct;
    DistinctTail(list);
    if k == 0 {
      WithoutAbsent(list[1..], list[0]);
    } else {
      RemovedBehind(list, k);
      assert list[k] in list[1..];
      WithoutOne(list[1..], k - 1);
    }
  }

  lemma {:induction false} WithoutAbsent(list: seq<nat>, t: nat)
    requires t !in list
    ensures Without(list, t) == list
  {
    if list != [] {
      WithoutAbsent(list[1..], t);
    }
  }

  function Move(st: State, t: nat, pc: Pc): State
    requires t in st.callers
  {
    st.(callers := st.callers[t := st.callers[t].(pc := pc)])
  }

  function Waiters(st: State, s: nat, n: nat): State
    requires s < |st.socks|
  {
    st.(socks := st.socks[s := st.socks[s].(waiting := n)])
  }

  /** Whether a step can be taken. */
  predicate Enabled(st: State, a: Step) {
    match a
    case Link(t) => t in st.callers && st.callers[t].pc.Ready?
    case Count(t) => t in st.callers && st.callers[t].pc.Counting? &&
                     (st.callers[t].Watches(st.callers[t].pc.i) && st.callers[t].pc.i < |st.socks| ==> st.socks[st.callers[t].pc.i].waiting < SELWAIT_MAX)
    case CountFails(t) => t in st.callers && st.callers[t].pc.Counting? && st.callers[t].pc.i < |st.socks|
    case Scan(t) => t in st.callers && st.callers[t].pc.Scanning?
    case ScanFails(t) => t in st.callers && st.callers[t].pc.Scanning?
    case Wake(t) => t in st.callers && st.callers[t].pc.Waiting? && st.callers[t].sem > 0
    case Timeout(t) => t in st.callers && st.callers[t].pc.Waiting?
    case Uncount(t) => t in st.callers && st.callers[t].pc.Uncounting? && st.callers[t].pc.i < st.callers[t].pc.upto
    case Unlink(t) => t in st.callers && st.callers[t].pc.Uncounting? && st.callers[t].pc.i >= st.callers[t].pc.upto
    case Lastdata(s, _) => s < |st.socks|
    case EventCallback(s, _, w) => s < |st.socks| && w !in st.walks
    case CheckNext(w) => w in st.walks
  }

  /** One atomic step. */
  function Next(st: State, a: Step): State
    requires Enabled(st, a)
  {
    var n := |st.socks|;
    match a
    case Link(t) =>
      Move(st, t, Counting(0)).(list := [t] + st.list, ctr := st.ctr + 1)
    case Count(t) =>
      var i := st.callers[t].pc.i;
      if i >= n then Move(st, t, Scanning(0, false))
      else if st.callers[t].Watches(i) then Waiters(Move(st, t, Counting(i + 1)), i, st.socks[i].waiting + 1)
      else Move(st, t, Counting(i + 1))
    case CountFails(t) =>
      // invalid socket, or too many threads waiting: undo what has been counted
      Move(st, t, Uncounting(0, st.callers[t].pc.i))
    case Scan(t) =>
      var c := st.callers[t];
      var i := c.pc.i;
      if i >= n then Move(st, t, if c.pc.ready then Uncounting(0, n) else Waiting)
      else
        var k := st.socks[i];
        var ready := (i in c.readset && (k.lastdata || k.rcvevent > 0)) || (i in c.writeset && k.sendevent) || (i in c.exceptset && k.errevent);
        Move(st, t, Scanning(i + 1, c.pc.ready || ready))
    case ScanFails(t) => Move(st, t, Uncounting(0, n))
    case Wake(t) => Move(st.(callers := st.callers[t := st.callers[t].(sem := st.callers[t].sem - 1)]), t, Uncounting(0, n))
    case Timeout(t) => Move(st, t, Uncounting(0, n))
    case Uncount(t) =>
      var i := st.callers[t].pc.i;
      var st' := Move(st, t, Uncounting(i + 1, st.callers[t].pc.upto));
      if i < n && st.callers[t].Watches(i) && st.socks[i].waiting > 0 then Waiters(st', i, st.socks[i].waiting - 1) else st'
    case Unlink(t) => Move(st, t, Returned).(list := Without(st.list, t), ctr := st.ctr + 1)
    case Lastdata(s, present) => st.(socks := st.socks[s := st.socks[s].(lastdata := present)])
    case EventCallback(s, e, w) =>
      var (k, check) := Happened(st.socks[s], e);
      var st' := st.(socks := st.socks[s := k]);
      if k.waiting > 0 && check
      then st'.(walks := st.walks[w := Walk(s, k.rcvevent > 0, k.sendevent, k.errevent, -1, 0)])
      else st'
    case CheckNext(w) => Visit(st, w)
  }

  // ----- the invariant -----

  function Counters(callers: map<nat, Caller>, s: nat): set<nat> {
    set t | t in callers && callers[t].Counts(s)
  }

  /** The walk will still come to the select_cb of `t`. */
  predicate Reaches(st: State, k: Walk, t: nat) {
    k.seen != st.ctr || (k.pos <= |st.list| && t !in st.list[..k.pos])
  }

  /** An event callback in progress will signal `t` because of `s`. */
  ghost predicate WillSignal(st: State, t: nat, s: nat, d: Direction) {
    exists w :: w in st.walks && st.walks[w].s == s && st.walks[w].Has(d) && Reaches(st, st.walks[w], t)
  }

  ghost predicate CallerOk(st: State, t: nat, c: Caller) {
    && (c.OnList() <==> t in st.list)
    && (forall s: nat :: c.Watches(s) ==> s < |st.socks|)
    && (c.pc.Uncounting? ==> c.pc.upto <= |st.socks|)
    && (c.signalled && !c.pc.Uncounting? && !c.pc.Returned? ==> c.sem > 0)
    && (c.pc.Ready? ==> !c.signalled)
  }

  /** No lost wakeup, for one caller, socket and direction. */
  ghost predicate Safe(st: State, t: nat, c: Caller, s: nat, d: Direction) {
    c.In(s, d) && s < |st.socks| && c.Relies(s) && Active(st.socks[s], d) ==> c.signalled || WillSignal(st, t, s, d)
  }

  ghost predicate Inv(st: State) {
    && (forall t :: t in st.callers ==> CallerOk(st, t, st.callers[t]))
    && (forall t :: t in st.list ==> t in st.callers)
    && Distinct(st.list)
    && (forall s :: 0 <= s < |st.socks| ==> st.socks[s].waiting == |Counters(st.callers, s)|)
    && (forall w :: w in st.walks ==> st.walks[w].seen <= st.ctr && (st.walks[w].seen == st.ctr ==> st.walks[w].pos <= |st.list|))
    && (forall t, s, d :: t in st.callers ==> Safe(st, t, st.callers[t], s, d))
  }

  /** Any number of callers that have not linked their select_cb yet, and no event under way. */
  ghost predicate Init(st: State) {
    && st.list == [] && st.walks == map[]
    && (forall s :: 0 <= s < |st.socks| ==> st.socks[s].waiting == 0)
    && (forall t :: t in st.callers ==>
          var c := st.callers[t];
          c.pc.Ready? && !c.signalled && forall s: nat :: c.Watches(s) ==> s < |st.socks|)
  }

  lemma CountersMove(callers: map<nat, Caller>, t: nat, c: Caller, s: nat)
    requires t in callers
    ensures |Counters(callers[t := c], s)| == |Counters(callers, s)| - (if callers[t].Counts(s) then 1 else 0) + (if c.Counts(s) then 1 else 0)
  {
    hide Caller.Counts;
    var callers' := callers[t := c];
    var a, b := Counters(callers, s), Counters(callers', s);
    forall u
      ensures u in a - {t} <==> u in b - {t}
    {
      assert u != t ==> (u in callers <==> u in callers') && (u in callers ==> callers[u] == callers'[u]);
    }
    assert t in callers' && callers'[t] == c;
    SizesDiffer(a, b, t);
  }

  /** A caller that counts a socket keeps its select_waiting positive. */
  lemma CounterPositive(st: State, t: nat, s: nat)
    requires Inv(st) && t in st.callers && s < |st.socks| && st.callers[t].Counts(s)
    ensures st.socks[s].waiting > 0
  {
    assert t in Counters(st.callers, s);
  }

  ghost predicate CountersOk(st: State) {
    forall s :: 0 <= s < |st.socks| ==> st.socks[s].waiting == |Counters(st.callers, s)|
  }

  /** The steps of one select caller. */
  predicate IsMove(a: Step) {
    !a.Lastdata? && !a.EventCallback? && !a.CheckNext?
  }

  lemma CallerFacts(st: State, t: nat)
    requires Inv(st) && t in st.callers
    ensures CallerOk(st, t, st.callers[t])
  {
  }

  /** Each step of a caller changes select_waiting exactly as it changes what it counts. */
  lemma MoveOne(st: State, a: Step, s: nat)
    requires Enabled(st, a) && IsMove(a) && s < |st.socks| && CallerOk(st, a.t, st.callers[a.t])
    requires st.callers[a.t].Counts(s) ==> st.socks[s].waiting > 0
    ensures var st' := Next(st, a);
            && |st'.socks| == |st.socks|
            && st'.callers == st.callers[a.t := st'.callers[a.t]]
            && st'.socks[s].waiting == st.socks[s].waiting - (if st.callers[a.t].Counts(s) then 1 else 0)
                                                           + (if st'.callers[a.t].Counts(s) then 1 else 0)
  {
  }

  /** A walk changes nobody's counts. */
  lemma VisitCounts(st: State, w: nat, s: nat)
    requires Inv(st) && w in st.walks && s < |st.socks|
    ensures Visit(st, w).socks == st.socks
    ensures |Counters(Visit(st, w).callers, s)| == |Counters(st.callers, s)|
  {
    hide CallerOk, Safe, WalksOk, Distinct, Counters;
    var st' := Visit(st, w);
    if st'.callers != st.callers {
      var u := VisitedCaller(st, w);
      assert st'.callers == st.callers[u := st'.callers[u]];
      CountersMove(st.callers, u, st'.callers[u], s);
    }
  }

  lemma VisitSocks(st: State, w: nat)
    requires w in st.walks
    ensures Visit(st, w).socks == st.socks
  {
  }

  lemma CountersAfter(st: State, a: Step)
    requires Inv(st) && Enabled(st, a)
    ensures CountersOk(Next(st, a))
  {
    hide CallerOk, Safe, WalksOk, Distinct, Counters, Visit, Caller.Counts;
    var st' := Next(st, a);
    assert CountersOk(st);
    if IsMove(a) {
      forall s | 0 <= s < |st'.socks|
        ensures st'.socks[s].waiting == |Counters(st'.callers, s)|
      {
        CallerFacts(st, a.t);
        if st.callers[a.t].Counts(s) {
          CounterPositive(st, a.t, s);
        }
        MoveOne(st, a, s);
        CountersMove(st.callers, a.t, st'.callers[a.t], s);
      }
    } else if a.CheckNext? {
      forall s | 0 <= s < |st.socks|
        ensures st'.socks == st.socks && |Counters(st'.callers, s)| == |Counters(st.callers, s)|
      {
        VisitCounts(st, a.w, s);
      }
      VisitSocks(st, a.w);
    }
  }

  /** The caller whose select_cb the next section of a walk visits. */
  function VisitedCaller(st: State, w: nat): nat
    requires w in st.walks
  {
    var k := st.walks[w];
    var pos := if k.seen == st.ctr then k.pos else 0;
    if pos < |st.list| then st.list[pos] else 0
  }

  lemma Listed(st: State, a: Step, t: nat)
    requires Enabled(st, a)
    ensures t in Next(st, a).list <==> a == Link(t) || (t in st.list && a != Unlink(t))
  {
  }

  /** What one step does to one caller. */
  lemma CallerEffect(st: State, a: Step, t: nat)
    requires Enabled(st, a) && t in st.callers && t in Next(st, a).callers
    ensures var c, c' := st.callers[t], Next(st, a).callers[t];
            && c'.readset == c.readset && c'.writeset == c.writeset && c'.exceptset == c.exceptset
            && (c'.OnList() <==> a == Link(t) || (c.OnList() && a != Unlink(t)))
            && (c'.pc.Uncounting? ==> c'.pc.upto <= |st.socks| || c'.pc.upto == (if c.pc.Uncounting? then c.pc.upto else 0))
            && (c'.signalled && !c'.pc.Uncounting? && !c'.pc.Returned? && c'.sem == 0 ==> c.signalled && !c.pc.Uncounting? && !c.pc.Returned? && c.sem == 0)
            && (c'.pc.Ready? && c'.signalled ==> c.pc.Ready? && (c.signalled || t in st.list))
  {
  }

  lemma CallersAfter(st: State, a: Step, t: nat)
    requires Inv(st) && Enabled(st, a) && t in Next(st, a).callers
    ensures CallerOk(Next(st, a), t, Next(st, a).callers[t])
  {
    hide Safe, WalksOk, Counters, Next, Enabled;
    NextKeys(st, a);
    var c, c' := st.callers[t], Next(st, a).callers[t];
    assert CallerOk(st, t, c);
    Listed(st, a, t);
    CallerEffect(st, a, t);
    assert forall s: nat :: c'.Watches(s) <==> c.Watches(s);
  }

  lemma ListAfter(st: State, a: Step)
    requires Inv(st) && Enabled(st, a)
    ensures Distinct(Next(st, a).list) && forall t :: t in Next(st, a).list ==> t in Next(st, a).callers
  {
    match a
    case Link(t) => assert CallerOk(st, t, st.callers[t]);
    case Unlink(t) => WithoutDistinct(st.list, t);
    case _ =>
  }

  ghost predicate WalksOk(st: State) {
    forall w :: w in st.walks ==> st.walks[w].seen <= st.ctr && (st.walks[w].seen == st.ctr ==> st.walks[w].pos <= |st.list|)
  }

  lemma WalksAfter(st: State, a: Step)
    requires Inv(st) && Enabled(st, a)
    ensures WalksOk(Next(st, a))
  {
  }

  /** A walk that will come to `t` still will after any step but its own. */
  lemma StillReaches(st: State, a: Step, w: nat, t: nat)
    requires Inv(st) && Enabled(st, a) && w in st.walks && Reaches(st, st.walks[w], t)
    requires !(a.CheckNext? && a.w == w)
    ensures w in Next(st, a).walks && Next(st, a).walks[w] == st.walks[w] && Reaches(Next(st, a), st.walks[w], t)
  {
  }

  /** Its own step visits `t` or leaves it ahead. */
  lemma VisitReaches(st: State, w: nat, t: nat)
    requires Inv(st) && w in st.walks && Reaches(st, st.walks[w], t) && t in st.list
    ensures var st' := Visit(st, w);
            || (VisitedCaller(st, w) == t && (st.walks[w].Matches(st.callers[t]) ==> st'.callers[t].signalled))
            || (w in st'.walks && st'.walks[w].(seen := 0, pos := 0) == st.walks[w].(seen := 0, pos := 0) && Reaches(st', st'.walks[w], t))
  {
    var k := st.walks[w];
    var pos := if k.seen == st.ctr then k.pos else 0;
    assert st.list[..|st.list|] == st.list;
    assert pos < |st.list|;
    assert st.list[..pos + 1] == st.list[..pos] + [st.list[pos]];
  }

  lemma WillSignalAfter(st: State, a: Step, t: nat, s: nat, d: Direction)
    requires Inv(st) && Enabled(st, a) && t in st.callers && WillSignal(st, t, s, d)
    requires st.callers[t].In(s, d) && t in st.list
    ensures t in Next(st, a).callers && (Next(st, a).callers[t].signalled || WillSignal(Next(st, a), t, s, d))
  {
    var st' := Next(st, a);
    var w :| w in st.walks && st.walks[w].s == s && st.walks[w].Has(d) && Reaches(st, st.walks[w], t);
    if a.CheckNext? && a.w == w {
      VisitReaches(st, w, t);
      if w in st'.walks && Reaches(st', st'.walks[w], t) {
        assert st'.walks[w].s == s && st'.walks[w].Has(d);
      }
    } else {
      StillReaches(st, a, w, t);
    }
  }

  /** When an event becomes active under a caller that relies on it, a walk is started. */
  lemma EventStartsWalk(st: State, s: nat, e: Event, w: nat, t: nat, d: Direction)
    requires Inv(st) && s < |st.socks| && w !in st.walks && t in st.callers
    requires st.callers[t].In(s, d) && st.callers[t].Relies(s)
    requires !Active(st.socks[s], d) && Active(Happened(st.socks[s], e).0, d)
    ensures WillSignal(Next(st, EventCallback(s, e, w)), t, s, d)
  {
    assert CallerOk(st, t, st.callers[t]);
    CounterPositive(st, t, s);
    var st' := Next(st, EventCallback(s, e, w));
    assert w in st'.walks && st'.walks[w].s == s && st'.walks[w].Has(d) && Reaches(st', st'.walks[w], t);
  }

  /** A caller comes to rely on a socket only when the second scan finds it inactive. */
  lemma ReliedBefore(st: State, a: Step, t: nat, s: nat, d: Direction)
    requires Enabled(st, a) && t in st.callers && t in Next(st, a).callers && s < |st.socks|
    requires var c' := Next(st, a).callers[t];
             c'.In(s, d) && c'.Relies(s) && Active(Next(st, a).socks[s], d) && !c'.signalled
    ensures var c := st.callers[t];
            c.In(s, d) && !c.signalled && c.Relies(s)
    ensures Active(st.socks[s], d) || (a.EventCallback? && a.s == s && Active(Happened(st.socks[s], a.e).0, d))
  {
  }

  lemma SafeAfter(st: State, a: Step, t: nat, s: nat, d: Direction)
    requires Inv(st) && Enabled(st, a) && t in Next(st, a).callers
    ensures Safe(Next(st, a), t, Next(st, a).callers[t], s, d)
  {
    hide WillSignal, Next, Active, Caller.Relies, Happened, Distinct, WalksOk;
    NextKeys(st, a);
    var st' := Next(st, a);
    var c, c' := st.callers[t], st'.callers[t];
    if c'.In(s, d) && s < |st'.socks| && c'.Relies(s) && Active(st'.socks[s], d) && !c'.signalled {
      ReliedBefore(st, a, t, s, d);
      assert CallerOk(st, t, c) && Safe(st, t, c, s, d);
      if !Active(st.socks[s], d) {
        EventStartsWalk(st, s, a.e, a.w, t, d);
      } else {
        ReliesOnList(c, s);
        WillSignalAfter(st, a, t, s, d);
      }
    }
  }

  lemma ReliesOnList(c: Caller, s: nat)
    requires c.Relies(s)
    ensures c.OnList()
  {
  }

  lemma NextKeys(st: State, a: Step)
    requires Enabled(st, a)
    ensures |Next(st, a).socks| == |st.socks| && Next(st, a).callers.Keys == st.callers.Keys
  {
  }

  lemma StepKeeps(st: State, a: Step)
    requires Inv(st) && Enabled(st, a)
    ensures Inv(Next(st, a))
  {
    hide CallerOk, Safe, WalksOk, Distinct;
    var st' := Next(st, a);
    CountersAfter(st, a);
    ListAfter(st, a);
    WalksAfter(st, a);
    forall t | t in st'.callers
      ensures CallerOk(st', t, st'.callers[t])
    {
      CallersAfter(st, a, t);
    }
    forall t, s, d | t in st'.callers
      ensures Safe(st', t, st'.callers[t], s, d)
    {
      SafeAfter(st, a, t, s, d);
    }
  }

  // ----- runs -----

  ghost predicate Runs(st: State, steps: seq<Step>, last: State)
    decreases |steps|
  {
    if steps == [] then last == st
    else Enabled(st, steps[0]) && Runs(Next(st, steps[0]), steps[1..], last)
  }

  lemma InitInv(st: State)
    requires Init(st)
    ensures Inv(st)
  {
    forall s | 0 <= s < |st.socks|
      ensures Counters(st.callers, s) == {}
    {
    }
  }

  lemma {:induction false} RunKeeps(st: State, steps: seq<Step>, last: State)
    requires Inv(st) && Runs(st, steps, last)
    ensures Inv(last)
    decreases |steps|
  {
    if steps != [] {
      StepKeeps(st, steps[0]);
      RunKeeps(Next(st, steps[0]), steps[1..], last);
    }
  }

  /** No lost wakeup: in every reachable state, a caller blocked on its semaphore while one of
      its sockets has an event it asked for can be woken already, or an event callback in
      progress will come to its select_cb and signal it. */
  lemma NoLostWakeup(first: State, steps: seq<Step>, st: State, t: nat, s: nat, d: Direction)
    requires Init(first) && Runs(first, steps, st)
    requires t in st.callers && st.callers[t].pc.Waiting?
    requires s < |st.socks| && st.callers[t].In(s, d) && Active(st.socks[s], d)
    ensures Enabled(st, Wake(t)) || WillSignal(st, t, s, d)
    ensures st.walks == map[] ==> Enabled(st, Wake(t))
  {
    InitInv(first);
    RunKeeps(first, steps, st);
    assert CallerOk(st, t, st.callers[t]) && Safe(st, t, st.callers[t], s, d);
  }

  /** select_waiting is at all times the number of callers that count the socket, so the
      assertion at the end of lwip_select never fails, and it is 0 when all have returned. */
  lemma WaitingCounts(first: State, steps: seq<Step>, st: State, s: nat)
    requires Init(first) && Runs(first, steps, st) && s < |st.socks|
    ensures st.socks[s].waiting == |Counters(st.callers, s)|
    ensures forall t :: t in st.callers && Enabled(st, Uncount(t)) && st.callers[t].pc.i == s && st.callers[t].Watches(s) ==> st.socks[s].waiting > 0
    ensures (forall t :: t in st.callers ==> st.callers[t].pc.Returned?) ==> st.socks[s].waiting == 0 && st.list == []
  {
    InitInv(first);
    RunKeeps(first, steps, st);
    forall t | t in st.callers && Enabled(st, Uncount(t)) && st.callers[t].pc.i == s && st.callers[t].Watches(s)
      ensures st.socks[s].waiting > 0
    {
      CounterPositive(st, t, s);
    }
    forall u | u in st.list
      ensures !st.callers[u].pc.Returned?
    {
      assert CallerOk(st, u, st.callers[u]);
    }
    assert |st.list| > 0 ==> st.list[0] in st.list;
    if forall t :: t in st.callers ==> st.callers[t].pc.Returned? {
      assert Counters(st.callers, s) == {};
    }
  }

  /** `n` consecutive sections of one walk. */
  function Visits(st: State, w: nat, n: nat): State
    decreases n
  {
    if n == 0 || w !in st.walks then st else Visits(Visit(st, w), w, n - 1)
  }

  /** A walk that will signal a caller does so within one pass over the list when nothing else
      runs: the wakeup is delivered, not merely promised. */
  lemma {:induction false} WalkDelivers(st: State, w: nat, t: nat, fuel: nat) returns (n: nat)
    requires Inv(st) && w in st.walks && t in st.callers && t in st.list
    requires Reaches(st, st.walks[w], t) && st.walks[w].Matches(st.callers[t])
    requires fuel == |st.list| - if st.walks[w].seen == st.ctr then st.walks[w].pos else 0
    ensures n <= fuel && t in Visits(st, w, n).callers && Visits(st, w, n).callers[t].signalled
    decreases fuel
  {
    hide Inv;
    VisitReaches(st, w, t);
    StepKeeps(st, CheckNext(w));
    var st' := Visit(st, w);
    if st'.callers[t].signalled {
      assert Visits(st', w, 0) == st';
      n := 1;
      assert fuel > 0 by {
        assert st.list[..|st.list|] == st.list;
      }
    } else {
      n := WalkDelivers(st', w, t, fuel - 1);
      n := n + 1;
    }
  }
}
