/**
 What the event fields and the wakeups of the select handshake mean over a whole run:
 the fields say which events have come, and no caller is woken without one.
 */
module SelectEvents {
  import opened SelectProtocol

  /** The events that `steps` report for socket `s`, in their order. */
  function Events(steps: seq<Step>, s: nat): seq<Event> {
    if steps == [] then []
    else if steps[0].EventCallback? && steps[0].s == s then [steps[0].e] + Events(steps[1..], s)
    else Events(steps[1..], s)
  }

  predicate IsSend(e: Event) {
    e.SendPlus? || e.SendMinus?
  }

  /** What the last event about sending says, or `first` when there is none. */
  ghost predicate Decides(es: seq<Event>, first: bool, now: bool) {
    && ((forall i :: 0 <= i < |es| ==> !IsSend(es[i])) ==> now == first)
    && (forall i :: 0 <= i < |es| && IsSend(es[i]) && (forall j :: i < j < |es| ==> !IsSend(es[j])) ==> (now <==> es[i].SendPlus?))
  }

  /** The fields of a socket after `es`, by what has come and not by how it was processed. */
  ghost predicate Follows(k: Sock, es: seq<Event>, k': Sock) {
    && k'.rcvevent == k.rcvevent + multiset(es)[RcvPlus] - multiset(es)[RcvMinus]
    && Decides(es, k.sendevent, k'.sendevent)
    && (k'.errevent <==> k.errevent || Error in es)
  }

  lemma FollowsNothing(k: Sock)
    ensures Follows(k, [], k)
  {
  }

  /** One event in front of others. */
  lemma FollowsOne(k: Sock, e: Event, k1: Sock, es: seq<Event>, k2: Sock)
    requires Follows(k1, es, k2)
    requires k1.rcvevent == k.rcvevent + (if e.RcvPlus? then 1 else 0) - (if e.RcvMinus? then 1 else 0)
    requires k1.sendevent == if IsSend(e) then e.SendPlus? else k.sendevent
    requires k1.errevent <==> k.errevent || e.Error?
    ensures Follows(k, [e] + es, k2)
  {
    var all := [e] + es;
    assert multiset(all) == multiset{e} + multiset(es);
    assert forall i :: 0 < i < |all| ==> all[i] == es[i - 1];
    assert forall i :: 0 <= i < |es| ==> es[i] == all[i + 1];
    assert all[0] == e;
    forall i | 0 <= i < |all| && IsSend(all[i]) && forall j :: i < j < |all| ==> !IsSend(all[j])
      ensures k2.sendevent <==> all[i].SendPlus?
    {
      if i > 0 {
        assert forall j :: i - 1 < j < |es| ==> es[j] == all[j + 1];
      } else {
        assert forall j :: 0 <= j < |es| ==> !IsSend(es[j]);
      }
    }
  }

  /** One step leaves the fields of a socket alone, or reports an event for it. */
  lemma FieldsAfter(st: State, a: Step, s: nat)
    requires Enabled(st, a) && s < |st.socks|
    ensures |Next(st, a).socks| == |st.socks|
    ensures var k, k' := st.socks[s], Next(st, a).socks[s];
            var e := if a.EventCallback? && a.s == s then [a.e] else [];
            && k'.rcvevent == k.rcvevent + (if e == [RcvPlus] then 1 else 0) - (if e == [RcvMinus] then 1 else 0)
            && k'.sendevent == (if e != [] && IsSend(e[0]) then e == [SendPlus] else k.sendevent)
            && (k'.errevent <==> k.errevent || e == [Error])
            && k'.lastdata == if a.Lastdata? && a.s == s then a.present else k.lastdata
  {
    hide Caller.Watches;
  }

  /** Over every run, rcvevent counts the receive events against the receive-minus events,
      sendevent is what the last event about sending said, and errevent stays once set. */
  lemma {:induction false} FieldsFollow(first: State, steps: seq<Step>, st: State, s: nat)
    requires Runs(first, steps, st) && s < |first.socks|
    ensures |st.socks| == |first.socks| && Follows(first.socks[s], Events(steps, s), st.socks[s])
    decreases |steps|
  {
    hide Follows, Enabled, Next;
    if steps == [] {
      FollowsNothing(first.socks[s]);
    } else {
      var st1 := Next(first, steps[0]);
      FieldsAfter(first, steps[0], s);
      FieldsFollow(st1, steps[1..], st, s);
      var k, k1 := first.socks[s], st1.socks[s];
      if steps[0].EventCallback? && steps[0].s == s {
        FollowsOne(k, steps[0].e, k1, Events(steps[1..], s), st.socks[s]);
      } else {
        SameFields(k, k1, Events(steps[1..], s), st.socks[s]);
      }
    }
  }

  lemma SameFields(k: Sock, k1: Sock, es: seq<Event>, k2: Sock)
    requires Follows(k1, es, k2)
    requires k1.rcvevent == k.rcvevent && k1.sendevent == k.sendevent && k1.errevent == k.errevent
    ensures Follows(k, es, k2)
  {
  }

  // ----- no wakeup without a cause -----

  /** A caller is signalled only by a walk that stands on it and matches it, its semaphore is
      given once for that, and only a wakeup takes it. */
  lemma SignalCause(st: State, a: Step, t: nat)
    requires Enabled(st, a) && t in st.callers
    ensures t in Next(st, a).callers
    ensures var c, c' := st.callers[t], Next(st, a).callers[t];
            var given := a.CheckNext? && !c.signalled && c'.signalled;
            && (c'.signalled <==> c.signalled || given)
            && (given ==> VisitedCaller(st, a.w) == t && st.walks[a.w].Matches(c))
            && c'.sem == c.sem + (if given then 1 else 0) - (if a == Wake(t) then 1 else 0)
  {
  }

  /** A walk that is under way was started by an event callback for its socket. */
  lemma WalkCause(st: State, a: Step, w: nat)
    requires Enabled(st, a) && w in Next(st, a).walks
    ensures || (w in st.walks && Next(st, a).walks[w].(seen := 0, pos := 0) == st.walks[w].(seen := 0, pos := 0))
            || (a.EventCallback? && a.w == w && Next(st, a).walks[w].s == a.s && Raises(a.e))
  {
  }

  predicate Raises(e: Event) {
    e.RcvPlus? || e.SendPlus? || e.Error?
  }

  /** `steps` report an event that sets a field of socket `s`. */
  ghost predicate Raised(steps: seq<Step>, s: nat) {
    exists i :: 0 <= i < |steps| && steps[i].EventCallback? && steps[i].s == s && Raises(steps[i].e)
  }

  /** Every walk and every signal has had its event. */
  ghost predicate Caused(hist: seq<Step>, st: State) {
    && (forall w :: w in st.walks ==> Raised(hist, st.walks[w].s))
    && (forall t :: t in st.callers && st.callers[t].signalled ==> Woken(hist, st.callers[t]))
  }

  ghost predicate Woken(hist: seq<Step>, c: Caller) {
    exists s: nat :: c.Watches(s) && Raised(hist, s)
  }

  lemma RaisedMore(hist: seq<Step>, a: Step, s: nat)
    ensures Raised(hist, s) ==> Raised(hist + [a], s)
    ensures a.EventCallback? && a.s == s && Raises(a.e) ==> Raised(hist + [a], s)
  {
    var h := hist + [a];
    assert h[|hist|] == a;
    if Raised(hist, s) {
      var i :| 0 <= i < |hist| && hist[i].EventCallback? && hist[i].s == s && Raises(hist[i].e);
      assert h[i] == hist[i];
    }
  }

  lemma MatchesWatched(k: Walk, c: Caller)
    requires k.Matches(c)
    ensures c.Watches(k.s)
  {
  }

  lemma SetsStay(st: State, a: Step, t: nat)
    requires Enabled(st, a) && t in st.callers
    ensures Next(st, a).callers.Keys == st.callers.Keys
    ensures var c, c' := st.callers[t], Next(st, a).callers[t];
            c'.readset == c.readset && c'.writeset == c.writeset && c'.exceptset == c.exceptset
  {
  }

  lemma WokenMore(hist: seq<Step>, st: State, a: Step, t: nat)
    requires Enabled(st, a) && Caused(hist, st) && t in st.callers && Next(st, a).callers.Keys == st.callers.Keys
    requires Next(st, a).callers[t].signalled
    ensures Woken(hist + [a], Next(st, a).callers[t])
  {
    hide Next, Enabled, Raised, Walk.Matches;
    var c, c' := st.callers[t], Next(st, a).callers[t];
    SignalCause(st, a, t);
    SetsStay(st, a, t);
    var s: nat;
    if c.signalled {
      s :| c.Watches(s) && Raised(hist, s);
    } else {
      WalkIsThere(st, a);
      s := st.walks[a.w].s;
      MatchesWatched(st.walks[a.w], c);
    }
    RaisedMore(hist, a, s);
    assert c'.Watches(s) && Raised(hist + [a], s);
  }

  lemma WalkIsThere(st: State, a: Step)
    requires Enabled(st, a) && a.CheckNext?
    ensures a.w in st.walks
  {
  }

  lemma CausedAfter(hist: seq<Step>, st: State, a: Step)
    requires Enabled(st, a) && Caused(hist, st)
    ensures Caused(hist + [a], Next(st, a))
  {
    hide Next, Enabled, Raised, Raises, Woken;
    var st' := Next(st, a);
    forall w | w in st'.walks
      ensures Raised(hist + [a], st'.walks[w].s)
    {
      WalkCause(st, a, w);
      RaisedMore(hist, a, st'.walks[w].s);
    }
    NextKeys(st, a);
    forall t | t in st'.callers && st'.callers[t].signalled
      ensures Woken(hist + [a], st'.callers[t])
    {
      WokenMore(hist, st, a, t);
    }
  }

  lemma {:induction false} CausedRun(hist: seq<Step>, st: State, steps: seq<Step>, last: State)
    requires Caused(hist, st) && Runs(st, steps, last)
    ensures Caused(hist + steps, last)
    decreases |steps|
  {
    hide Next, Enabled, Caused;
    if steps == [] {
      assert hist + steps == hist;
    } else {
      CausedAfter(hist, st, steps[0]);
      assert hist + [steps[0]] + steps[1..] == hist + steps;
      CausedRun(hist + [steps[0]], Next(st, steps[0]), steps[1..], last);
    }
  }

  /** No spurious wakeup: in every run a caller is signalled only after an event that sets a
      field of a socket it watches. */
  lemma NoSpuriousWakeup(first: State, steps: seq<Step>, st: State, t: nat)
    requires Init(first) && Runs(first, steps, st) && t in st.callers && st.callers[t].signalled
    ensures exists s: nat :: st.callers[t].Watches(s) && Raised(steps, s)
  {
    hide Raised, Runs;
    CausedRun([], first, steps, st);
    assert [] + steps == steps;
  }

  // ----- a call that nothing disturbs -----

  /** The step `a` taken `n` times in a row. */
  function Again(st: State, a: Step, n: nat): State
    decreases n
  {
    if n == 0 then st
    else
      var st' := Again(st, a, n - 1);
      if Enabled(st', a) then Next(st', a) else st'
  }

  ghost predicate Sees(c: Caller, socks: seq<Sock>, n: nat) {
    exists s: nat, d :: s < n && s < |socks| && c.In(s, d) && HasEvent(socks[s], d)
  }

  lemma SeesMore(c: Caller, socks: seq<Sock>, n: nat)
    requires n < |socks|
    ensures Sees(c, socks, n + 1) <==>
            Sees(c, socks, n) || (n in c.readset && (socks[n].lastdata || socks[n].rcvevent > 0))
                              || (n in c.writeset && socks[n].sendevent) || (n in c.exceptset && socks[n].errevent)
  {
    assert c.In(n, Read) <==> n in c.readset;
    assert c.In(n, Write) <==> n in c.writeset;
    assert c.In(n, Except) <==> n in c.exceptset;
    assert HasEvent(socks[n], Read) <==> socks[n].lastdata || socks[n].rcvevent > 0;
    assert HasEvent(socks[n], Write) <==> socks[n].sendevent;
    assert HasEvent(socks[n], Except) <==> socks[n].errevent;
  }

  /** One section of the scan. */
  lemma ScanOne(st: State, t: nat)
    requires Enabled(st, Scan(t)) && st.callers[t].pc.i < |st.socks|
    ensures var c := st.callers[t];
            var k := st.socks[c.pc.i];
            Next(st, Scan(t)) == Move(st, t, Scanning(c.pc.i + 1, c.pc.ready || (c.pc.i in c.readset && (k.lastdata || k.rcvevent > 0))
                                                               || (c.pc.i in c.writeset && k.sendevent) || (c.pc.i in c.exceptset && k.errevent)))
  {
  }

  lemma MoveTwice(st: State, t: nat, pc: Pc, pc': Pc)
    requires t in st.callers
    ensures Move(Move(st, t, pc), t, pc') == Move(st, t, pc')
  {
    var c := st.callers[t];
    assert st.callers[t := c.(pc := pc)][t := c.(pc := pc')] == st.callers[t := c.(pc := pc')];
  }

  lemma {:induction false} ScansSee(st: State, t: nat, n: nat)
    requires t in st.callers && st.callers[t].pc == Scanning(0, false) && n <= |st.socks|
    ensures Again(st, Scan(t), n) == Move(st, t, Scanning(n, Sees(st.callers[t], st.socks, n)))
    decreases n
  {
    hide Sees, Next;
    var c := st.callers[t];
    if n == 0 {
      NothingSeen(c, st.socks);
    } else {
      ScansSee(st, t, n - 1);
      SeesMore(c, st.socks, n - 1);
      ScanOne(Again(st, Scan(t), n - 1), t);
      MoveTwice(st, t, Scanning(n - 1, Sees(c, st.socks, n - 1)), Scanning(n, Sees(c, st.socks, n)));
    }
  }

  lemma NothingSeen(c: Caller, socks: seq<Sock>)
    ensures !Sees(c, socks, 0)
  {
  }

  /** An undisturbed second scan blocks exactly when no watched socket has an event. */
  lemma ScanBlocksExactly(st: State, t: nat)
    requires t in st.callers && st.callers[t].pc == Scanning(0, false)
    ensures var n := |st.socks|;
            Again(st, Scan(t), n + 1)
            == Move(st, t, if Sees(st.callers[t], st.socks, n) then Uncounting(0, n) else Waiting)
  {
    hide Sees;
    var n := |st.socks|;
    ScansSee(st, t, n);
    var seen := Sees(st.callers[t], st.socks, n);
    MoveTwice(st, t, Scanning(n, seen), if seen then Uncounting(0, n) else Waiting);
  }

  /** select_waiting of the watched sockets in [lo, hi) raised by one. */
  function Plus(socks: seq<Sock>, c: Caller, lo: nat, hi: nat): seq<Sock> {
    seq(|socks|, i requires 0 <= i < |socks| => if lo <= i < hi && c.Watches(i) then socks[i].(waiting := socks[i].waiting + 1) else socks[i])
  }

  lemma CountOne(st: State, t: nat)
    requires Enabled(st, Count(t)) && st.callers[t].pc.i < |st.socks|
    ensures var i := st.callers[t].pc.i;
            Next(st, Count(t)) == Move(if st.callers[t].Watches(i) then Waiters(st, i, st.socks[i].waiting + 1) else st, t, Counting(i + 1))
  {
  }

  lemma PlusMore(socks: seq<Sock>, c: Caller, n: nat)
    requires n < |socks|
    ensures Plus(socks, c, 0, n)[n] == socks[n] && Plus(socks, c, 0, 0) == socks
    ensures Plus(socks, c, 0, n + 1) == if c.Watches(n) then Plus(socks, c, 0, n)[n := socks[n].(waiting := socks[n].waiting + 1)]
                                        else Plus(socks, c, 0, n)
  {
  }

  lemma {:induction false} CountsAll(st: State, t: nat, k: nat)
    requires t in st.callers && st.callers[t].pc == Counting(0) && k <= |st.socks|
    requires forall s :: 0 <= s < |st.socks| ==> st.socks[s].waiting < SELWAIT_MAX
    ensures Again(st, Count(t), k) == Move(st.(socks := Plus(st.socks, st.callers[t], 0, k)), t, Counting(k))
    decreases k
  {
    hide Plus, Next, Caller.Watches;
    var c := st.callers[t];
    if k == 0 {
      assert Plus(st.socks, c, 0, 0) == st.socks by {
        PlusNone(st.socks, c, 0);
      }
      assert st.callers[t := c] == st.callers;
    } else {
      CountsAll(st, t, k - 1);
      PlusMore(st.socks, c, k - 1);
      var st1 := Again(st, Count(t), k - 1);
      SameWatches(c, Counting(k - 1));
      assert |st1.socks| == |st.socks| by {
        PlusLength(st.socks, c, 0, k - 1);
      }
      CountOne(st1, t);
      MoveTwice(st.(socks := Plus(st.socks, c, 0, k)), t, Counting(k - 1), Counting(k));
    }
  }

  lemma PlusLength(socks: seq<Sock>, c: Caller, lo: nat, hi: nat)
    ensures |Plus(socks, c, lo, hi)| == |socks|
  {
  }

  lemma PlusNone(socks: seq<Sock>, c: Caller, k: nat)
    ensures Plus(socks, c, k, k) == socks
  {
  }

  lemma SameWatches(c: Caller, pc: Pc)
    ensures forall s: nat :: c.(pc := pc).Watches(s) <==> c.Watches(s)
    ensures forall s: nat, d :: c.(pc := pc).In(s, d) <==> c.In(s, d)
  {
  }

  lemma UncountOne(st: State, t: nat)
    requires Enabled(st, Uncount(t)) && st.callers[t].pc.i < |st.socks|
    ensures var i := st.callers[t].pc.i;
            Next(st, Uncount(t)) ==
            Move(if st.callers[t].Watches(i) && st.socks[i].waiting > 0 then Waiters(st, i, st.socks[i].waiting - 1) else st, t,
                 Uncounting(i + 1, st.callers[t].pc.upto))
  {
  }

  lemma PlusLess(socks: seq<Sock>, c: Caller, n: nat, hi: nat)
    requires n < hi <= |socks|
    ensures Plus(socks, c, n, hi)[n] == if c.Watches(n) then socks[n].(waiting := socks[n].waiting + 1) else socks[n]
    ensures Plus(socks, c, n + 1, hi) == Plus(socks, c, n, hi)[n := socks[n]]
  {
  }

  lemma {:induction false} UncountsAll(st: State, t: nat, socks: seq<Sock>, k: nat)
    requires t in st.callers && st.callers[t].pc == Uncounting(0, |socks|) && k <= |socks|
    requires st.socks == Plus(socks, st.callers[t], 0, |socks|)
    ensures Again(st, Uncount(t), k) == Move(st.(socks := Plus(socks, st.callers[t], k, |socks|)), t, Uncounting(k, |socks|))
    decreases k
  {
    hide Plus, Next, Caller.Watches;
    var c, n := st.callers[t], |socks|;
    PlusLength(socks, c, 0, n);
    if k == 0 {
      assert st.callers[t := c] == st.callers;
    } else {
      UncountsAll(st, t, socks, k - 1);
      PlusLess(socks, c, k - 1, n);
      var st1 := Again(st, Uncount(t), k - 1);
      SameWatches(c, Uncounting(k - 1, n));
      PlusLength(socks, c, k - 1, n);
      UncountOne(st1, t);
      PlusLess(socks, c, k - 1, n);
      MoveTwice(st.(socks := Plus(socks, c, k, n)), t, Uncounting(k - 1, n), Uncounting(k, n));
    }
  }

  /** Waking, a timeout and a failing scan lead to the same end of the call. */
  lemma WaitEnds(st: State, t: nat)
    ensures Enabled(st, Timeout(t)) ==> Next(st, Timeout(t)) == Move(st, t, Uncounting(0, |st.socks|))
    ensures Enabled(st, ScanFails(t)) ==> Next(st, ScanFails(t)) == Move(st, t, Uncounting(0, |st.socks|))
    ensures Enabled(st, Wake(t)) ==>
              Next(st, Wake(t)).(callers := st.callers) == st && Next(st, Wake(t)).callers[t].pc == Uncounting(0, |st.socks|)
  {
  }

  lemma LinkUnlink(st: State, s: State, t: nat)
    requires t in st.callers && st.callers[t].pc.Ready? && t !in st.list && t in s.callers
    requires s.list == [t] + st.list && s.callers[t].pc.Uncounting? && s.callers[t].pc.i >= s.callers[t].pc.upto
    ensures Enabled(st, Link(t)) && Next(st, Link(t)) == Move(st, t, Counting(0)).(list := [t] + st.list, ctr := st.ctr + 1)
    ensures Enabled(s, Unlink(t)) && Next(s, Unlink(t)) == Move(s, t, Returned).(list := st.list, ctr := s.ctr + 1)
  {
    WithoutAbsent(st.list, t);
    assert ([t] + st.list)[1..] == st.list;
  }

  /** The steps of a call that nothing else disturbs, up to the end of its second scan. */
  function ToScan(st: State, t: nat): State
    requires Enabled(st, Link(t))
  {
    Again(Again(Next(st, Link(t)), Count(t), |st.socks| + 1), Scan(t), |st.socks| + 1)
  }

  /** And from there to its return. */
  function ToReturn(st: State, t: nat): State {
    var s := Again(st, Uncount(t), |st.socks|);
    if Enabled(s, Unlink(t)) then Next(s, Unlink(t)) else s
  }

  lemma CountsEnd(st: State, t: nat)
    requires t in st.callers && st.callers[t].pc == Counting(0)
    requires forall s :: 0 <= s < |st.socks| ==> st.socks[s].waiting < SELWAIT_MAX
    ensures Again(st, Count(t), |st.socks| + 1)
            == Move(st.(socks := Plus(st.socks, st.callers[t], 0, |st.socks|)), t, Scanning(0, false))
  {
    hide Plus, Caller.Watches;
    var c, n := st.callers[t], |st.socks|;
    CountsAll(st, t, n);
    PlusLength(st.socks, c, 0, n);
    MoveTwice(st.(socks := Plus(st.socks, c, 0, n)), t, Counting(n), Scanning(0, false));
  }

  /** A raised select_waiting changes no event. */
  lemma SeesSame(c: Caller, socks: seq<Sock>, pc: Pc, n: nat)
    ensures Sees(c.(pc := pc), Plus(socks, c, 0, |socks|), n) <==> Sees(c, socks, n)
  {
    var p := Plus(socks, c, 0, |socks|);
    forall s: nat, d | s < |socks|
      ensures HasEvent(p[s], d) <==> HasEvent(socks[s], d)
    {
    }
    assert forall s: nat, d :: c.(pc := pc).In(s, d) <==> c.In(s, d);
  }

  lemma Undisturbed(st: State, t: nat)
    requires t in st.callers && st.callers[t].pc.Ready? && t !in st.list
    requires forall s :: 0 <= s < |st.socks| ==> st.socks[s].waiting < SELWAIT_MAX
    ensures var n, c := |st.socks|, st.callers[t];
            ToScan(st, t) == Move(st, t, if Sees(c, st.socks, n) then Uncounting(0, n) else Waiting)
                               .(list := [t] + st.list, ctr := st.ctr + 1, socks := Plus(st.socks, c, 0, n))
  {
    hide Plus, Sees, Next, Caller.Watches;
    var n, c := |st.socks|, st.callers[t];
    var s1 := LinkedState(st, t);
    CountsEnd(s1, t);
    PlusPc(st.socks, c, Counting(0), n);
    var s2 := Again(s1, Count(t), n + 1);
    PlusLength(st.socks, c, 0, n);
    ScanBlocksExactly(s2, t);
    SeesSame(c, st.socks, Scanning(0, false), n);
    MoveTwice(st, t, Counting(0), Scanning(0, false));
    MoveTwice(st, t, Scanning(0, false), if Sees(c, st.socks, n) then Uncounting(0, n) else Waiting);
  }

  lemma LinkedState(st: State, t: nat) returns (s: State)
    requires t in st.callers && st.callers[t].pc.Ready?
    ensures Enabled(st, Link(t)) && s == Next(st, Link(t)) == Move(st, t, Counting(0)).(list := [t] + st.list, ctr := st.ctr + 1)
  {
    s := Next(st, Link(t));
  }

  lemma PlusPc(socks: seq<Sock>, c: Caller, pc: Pc, n: nat)
    ensures Plus(socks, c.(pc := pc), 0, n) == Plus(socks, c, 0, n)
  {
  }

  /** A whole call that nothing disturbs: it blocks exactly when no watched socket has an event; and when
      it does not, or its time is over, it returns and leaves every socket and the list as they were. */
  lemma UndisturbedCall(st: State, t: nat)
    requires Inv(st) && t in st.callers && st.callers[t].pc.Ready?
    requires forall s :: 0 <= s < |st.socks| ==> st.socks[s].waiting < SELWAIT_MAX
    ensures var s := ToScan(st, t);
            && t in s.callers
            && (Enabled(s, Timeout(t)) <==> !Sees(st.callers[t], st.socks, |st.socks|))
            && ToReturn(if Enabled(s, Timeout(t)) then Next(s, Timeout(t)) else s, t) == Move(st, t, Returned).(ctr := st.ctr + 2)
  {
    hide Plus, Sees, Next, Caller.Watches, Inv;
    NotOnList(st, t);
    Undisturbed(st, t);
    var n, c := |st.socks|, st.callers[t];
    var s := ToScan(st, t);
    WaitEnds(s, t);
    PlusLength(st.socks, c, 0, n);
    var s1 := if Enabled(s, Timeout(t)) then Next(s, Timeout(t)) else s;
    MoveTwice(st, t, Waiting, Uncounting(0, n));
    assert s1 == Move(st, t, Uncounting(0, n)).(list := [t] + st.list, ctr := st.ctr + 1, socks := Plus(st.socks, c, 0, n));
    PlusPc(st.socks, c, Uncounting(0, n), n);
    UncountsAll(s1, t, st.socks, n);
    PlusNone(st.socks, s1.callers[t], n);
    var s2 := Again(s1, Uncount(t), n);
    MoveTwice(st, t, Uncounting(0, n), Uncounting(n, n));
    LinkUnlink(st, s2, t);
    MoveTwice(st, t, Uncounting(n, n), Returned);
  }

  lemma NotOnList(st: State, t: nat)
    requires Inv(st) && t in st.callers && st.callers[t].pc.Ready?
    ensures t !in st.list
  {
    assert CallerOk(st, t, st.callers[t]);
  }

  /** A walk that nothing disturbs is over after one pass. */
  lemma {:induction false} WalkEnds(st: State, w: nat, n: nat)
    requires w in st.walks
    requires n == |st.list| - if st.walks[w].seen == st.ctr then st.walks[w].pos else 0
    ensures w !in Visits(st, w, n + 1).walks
    decreases n
  {
    var st' := Visit(st, w);
    if n > 0 {
      WalkEnds(st', w, n - 1);
    } else {
      assert w !in st'.walks;
      assert Visits(st', w, 0) == st';
    }
  }
}
