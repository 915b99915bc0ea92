/**
 The data of the handshake as sockets.c keeps it: the doubly linked list of select_cb
 structures, walked with a generation counter, and the event fields of the sockets. Link,
 Unlink, CheckSection, Event and Count are one section under protection each and are proved
 to take the data from one state of SelectProtocol to the next.
 */
module SelectList {
  import opened SelectProtocol
  import L = SocketLifetime
  import E = SelectEvents

  /** struct lwip_select_cb. A new one is zeroed. */
  class SelectCb {
    var next: SelectCb?
    var prev: SelectCb?
    const readset: set<nat>
    const writeset: set<nat>
    const exceptset: set<nat>
    var signalled: bool
    var sem: nat

    constructor (readset: set<nat>, writeset: set<nat>, exceptset: set<nat>)
      ensures this.readset == readset && this.writeset == writeset && this.exceptset == exceptset
      ensures next == null && prev == null && !signalled && sem == 0
    {
      this.readset, this.writeset, this.exceptset := readset, writeset, exceptset;
      next, prev, signalled, sem := null, null, false, 0;
    }

    /** The select caller this structure belongs to, as the protocol sees it. */
    ghost function Abs(pc: Pc): Caller
      reads this
    {
      Caller(readset, writeset, exceptset, pc, signalled, sem)
    }
  }

  /** A call of select_check_waiters between two of its sections. */
  class Walker {
    const s: nat
    const recv: bool
    const send: bool
    const err: bool
    var last: int
    var scb: SelectCb?

    constructor (k: Walk)
      ensures s == k.s && recv == k.recv && send == k.send && err == k.err && last == -1
    {
      s, recv, send, err := k.s, k.recv, k.send, k.err;
      last, scb := -1, null;
    }

    /** The walk of the protocol; `list` is select_cb_list. */
    ghost predicate Is(k: Walk, ctr: nat, list: seq<SelectCb>)
      reads this
    {
      && k.s == s && k.recv == recv && k.send == send && k.err == err && k.seen == last
      && (last == ctr ==> 0 < k.pos <= |list| && scb == list[k.pos - 1])
    }
  }

  /** select_cb_list and select_cb_ctr. */
  class Waiters {
    var head: SelectCb?
    var ctr: nat
    ghost var list: seq<SelectCb>

    ghost predicate Valid()
      reads this, list
    {
      && (forall i, j :: 0 <= i < j < |list| ==> list[i] != list[j])
      && head == (if list == [] then null else list[0])
      && (forall i {:trigger list[i].next} :: 0 <= i < |list| ==> list[i].next == if i + 1 < |list| then list[i + 1] else null)
      && (forall i {:trigger list[i].prev} :: 0 <= i < |list| ==> list[i].prev == if i > 0 then list[i - 1] else null)
    }

    constructor ()
      ensures Valid() && list == [] && ctr == 0
    {
      head, ctr, list := null, 0, [];
    }

    /** The list, the counter and the structures `cbs` of the callers are those of the state. */
    ghost predicate Represents(cbs: map<nat, SelectCb>, st: State)
      reads this, cbs.Values
    {
      ctr == st.ctr && IsList(list, cbs, st.list) && cbs.Keys == st.callers.Keys && Own(cbs) && Are(cbs, st.callers)
    }

    /** lwip_link_select_cb: the step Link of caller `t`. */
    method Link(cb: SelectCb, ghost cbs: map<nat, SelectCb>, ghost st: State, ghost t: nat)
      requires Valid() && Represents(cbs, st) && Inv(st) && Enabled(st, Step.Link(t)) && cbs[t] == cb && cb.prev == null
      modifies this, cb`next, list`prev
      ensures Valid() && list == [cb] + old(list)
      ensures Represents(cbs, Next(st, Step.Link(t)))
    {
      hide Inv, Valid, Next;
      LinkParts(st, t);
      NotListed(list, cbs, st, t);
      PutOn(cb);
    }

    /** The list operation of lwip_link_select_cb. */
    method PutOn(cb: SelectCb)
      requires Valid() && cb !in list && cb.prev == null
      modifies this, cb`next, list`prev
      ensures Valid() && list == [cb] + old(list) && ctr == old(ctr) + 1
    {
      cb.next := head;
      if head != null {
        head.prev := cb;
      }
      head := cb;
      ctr := ctr + 1;
      list := [cb] + list;
    }

    /** lwip_unlink_select_cb, with both its assertions: the step Unlink of caller `t`. */
    method Unlink(cb: SelectCb, ghost cbs: map<nat, SelectCb>, ghost st: State, ghost t: nat)
      requires Valid() && Represents(cbs, st) && Inv(st) && Enabled(st, Step.Unlink(t)) && cbs[t] == cb
      modifies this, list`next, list`prev
      ensures Valid() && Represents(cbs, Next(st, Step.Unlink(t)))
    {
      hide Inv, Valid, Next, Without;
      UnlinkParts(st, t);
      ghost var k := Place(list, cbs, st, t);
      TakeOff(cb, k);
    }

    /** The list operation of lwip_unlink_select_cb on the element at `k`. */
    method TakeOff(cb: SelectCb, ghost k: nat)
      requires Valid() && k < |list| && list[k] == cb
      modifies this, list`next, list`prev
      ensures Valid() && list == old(list)[..k] + old(list)[k + 1..] && ctr == old(ctr) + 1
    {
      ghost var all := list;
      ghost var rest := RemoveAt(all, k);
      if cb.next != null {
        assert cb.next == list[k + 1];
        cb.next.prev := cb.prev;
      }
      if head == cb {
        assert cb.prev == null;
        head := cb.next;
      } else {
        assert cb.prev != null && cb.prev == list[k - 1];
        cb.prev.next := cb.next;
      }
      ctr := ctr + 1;
      list := rest;
    }

    /** One section of select_check_waiters, between two releases of the protection: the step
        CheckNext of walk `id`. */
    method CheckSection(w: Walker, ghost cbs: map<nat, SelectCb>, ghost st: State, ghost id: nat) returns (done: bool)
      requires Valid() && Represents(cbs, st) && id in st.walks && w.Is(st.walks[id], ctr, list)
      modifies w, list`signalled, list`sem
      ensures Valid() && Represents(cbs, Next(st, CheckNext(id)))
      ensures done <==> id !in Next(st, CheckNext(id)).walks
      ensures !done ==> w.Is(Next(st, CheckNext(id)).walks[id], ctr, list)
    {
      hide Valid, Next, IsList, Own, Are, Visited;
      Elements(list, cbs, st);
      VisitParts(st, id);
      ghost var k := st.walks[id];
      ghost var st' := Next(st, CheckNext(id));
      done := VisitOne(w, cbs, st, k);
      AllAre(cbs, st'.callers);
    }

    /** What the section does to the walk and to each caller. */
    method VisitOne(w: Walker, ghost cbs: map<nat, SelectCb>, ghost st: State, ghost k: Walk) returns (done: bool)
      requires Valid() && Represents(cbs, st) && w.Is(k, ctr, list)
      modifies w, list`signalled, list`sem
      ensures Valid()
      ensures var pos := if k.seen == st.ctr then k.pos else 0;
              && (done <==> pos >= |st.list|)
              && (!done ==> w.Is(k.(seen := ctr, pos := pos + 1), ctr, list))
              && forall t :: t in cbs ==>
                   cbs[t].Abs(st.callers[t].pc) == Visited(st.callers[t], k, pos < |st.list| && t == st.list[pos])
    {
      hide Valid, IsList, Own, Are, Visited;
      Elements(list, cbs, st);
      Callers(cbs, st.callers);
      ghost var pos := if k.seen == st.ctr then k.pos else 0;
      done := GoOn(w, k);
      forall t | t in cbs
        ensures cbs[t].Abs(st.callers[t].pc) == Visited(st.callers[t], k, pos < |st.list| && t == st.list[pos])
      {
        if pos < |list| && cbs[t] == list[pos] {
          OnlyOne(cbs, t, st.list[pos]);
        }
        assert cbs[t] in list ==> cbs[t].Abs(Waiting) == Visited(old(cbs[t].Abs(Waiting)), k, !done && cbs[t] == list[pos]);
        VisitedFacts(st.callers[t], k, false, Waiting);
        VisitedFacts(old(cbs[t].Abs(Waiting)), k, !done && cbs[t] == list[pos], st.callers[t].pc);
      }
    }

    /** Start over when the list has changed, otherwise go on to the next element, and test it. */
    method GoOn(w: Walker, ghost k: Walk) returns (done: bool)
      requires Valid() && w.Is(k, ctr, list)
      modifies w, list`signalled, list`sem
      ensures Valid()
      ensures var pos := if k.seen == ctr then k.pos else 0;
              && (done <==> pos >= |list|)
              && (!done ==> w.Is(k.(seen := ctr, pos := pos + 1), ctr, list))
              && forall cb :: cb in list ==> cb.Abs(Waiting) == Visited(old(cb.Abs(Waiting)), k, !done && cb == list[pos])
    {
      var scb;
      ghost var pos := if k.seen == ctr then k.pos else 0;
      if w.last != ctr {
        // positions in the list mean nothing any more
        scb := head;
      } else {
        scb := w.scb.next;
      }
      w.last := ctr;
      w.scb := scb;
      if scb == null {
        return true;
      }
      assert scb == list[pos];
      done := false;
      if !scb.signalled {
        var doSignal := Test(w, scb);
        if doSignal {
          scb.signalled := true;
          scb.sem := scb.sem + 1;
        }
      }
    }

    /** The test of one select_cb for the socket and the events of a walk. */
    method Test(w: Walker, scb: SelectCb) returns (doSignal: bool)
      ensures doSignal <==> (w.recv && w.s in scb.readset) || (w.send && w.s in scb.writeset) || (w.err && w.s in scb.exceptset)
    {
      doSignal := false;
      if w.recv {
        if w.s in scb.readset {
          doSignal := true;
        }
      }
      if w.send {
        if !doSignal && w.s in scb.writeset {
          doSignal := true;
        }
      }
      if w.err {
        if !doSignal && w.s in scb.exceptset {
          doSignal := true;
        }
      }
    }
  }

  /** The linked structures are those of the callers on the list of the protocol. */
  ghost predicate IsList(list: seq<SelectCb>, cbs: map<nat, SelectCb>, ids: seq<nat>) {
    |list| == |ids| && forall i :: 0 <= i < |ids| ==> ids[i] in cbs && cbs[ids[i]] == list[i]
  }

  function RemoveAt(s: seq<SelectCb>, k: nat): (r: seq<SelectCb>)
    requires k < |s|
    ensures r == s[..k] + s[k + 1..]
    ensures forall i :: 0 <= i < |r| ==> r[i] == s[if i < k then i else i + 1]
  {
    s[..k] + s[k + 1..]
  }

  /** Every caller has its own structure. */
  ghost predicate Own(cbs: map<nat, SelectCb>) {
    forall t, u :: t in cbs && u in cbs && t != u ==> cbs[t] != cbs[u]
  }

  /** The structures hold what the protocol says of the callers. */
  ghost predicate Are(cbs: map<nat, SelectCb>, callers: map<nat, Caller>)
    reads cbs.Values
  {
    cbs.Keys == callers.Keys && forall t :: t in cbs ==> cbs[t].Abs(callers[t].pc) == callers[t]
  }

  lemma Elements(list: seq<SelectCb>, cbs: map<nat, SelectCb>, st: State)
    requires IsList(list, cbs, st.list) && cbs.Keys == st.callers.Keys
    ensures |list| == |st.list|
    ensures forall i :: 0 <= i < |st.list| ==> st.list[i] in st.callers && st.list[i] in cbs && cbs[st.list[i]] == list[i]
  {
  }

  lemma AllAre(cbs: map<nat, SelectCb>, callers: map<nat, Caller>)
    requires cbs.Keys == callers.Keys && forall t :: t in cbs ==> cbs[t].Abs(callers[t].pc) == callers[t]
    ensures Are(cbs, callers)
  {
  }

  lemma OnlyOne(cbs: map<nat, SelectCb>, t: nat, u: nat)
    requires Own(cbs) && t in cbs && u in cbs && cbs[t] == cbs[u]
    ensures t == u
  {
  }

  lemma Callers(cbs: map<nat, SelectCb>, callers: map<nat, Caller>)
    requires Are(cbs, callers)
    ensures forall t :: t in cbs ==> t in callers && cbs[t].Abs(callers[t].pc) == callers[t]
  {
  }

  /** Callers that differ in where they are only. */
  predicate OnlyPc(st: State, st': State) {
    st'.callers.Keys == st.callers.Keys && forall t :: t in st.callers ==> st'.callers[t] == st.callers[t].(pc := st'.callers[t].pc)
  }

  lemma LinkParts(st: State, t: nat)
    requires Enabled(st, Step.Link(t))
    ensures var st' := Next(st, Step.Link(t)); st'.list == [t] + st.list && st'.ctr == st.ctr + 1 && OnlyPc(st, st')
  {
  }

  lemma UnlinkParts(st: State, t: nat)
    requires Enabled(st, Step.Unlink(t))
    ensures var st' := Next(st, Step.Unlink(t)); st'.list == Without(st.list, t) && st'.ctr == st.ctr + 1 && OnlyPc(st, st')
  {
  }

  /** A caller after a walk has come to its structure, or to another one. */
  function Visited(c: Caller, k: Walk, here: bool): Caller {
    if here && !c.signalled && k.Matches(c) then c.(signalled := true, sem := c.sem + 1) else c
  }

  /** A walk elsewhere changes nothing, and where a caller is makes no difference to it. */
  lemma VisitedFacts(c: Caller, k: Walk, here: bool, pc: Pc)
    ensures Visited(c, k, false) == c
    ensures Visited(c.(pc := pc), k, here) == Visited(c, k, here).(pc := pc)
  {
  }

  lemma VisitParts(st: State, id: nat)
    requires id in st.walks && forall i :: 0 <= i < |st.list| ==> st.list[i] in st.callers
    ensures var st', k := Next(st, CheckNext(id)), st.walks[id];
            var pos := if k.seen == st.ctr then k.pos else 0;
            && st'.list == st.list && st'.ctr == st.ctr && st'.callers.Keys == st.callers.Keys
            && (id in st'.walks <==> pos < |st.list|)
            && (pos < |st.list| ==> st'.walks[id] == k.(seen := st.ctr, pos := pos + 1))
            && forall t :: t in st.callers ==>
                 st'.callers[t] == Visited(st.callers[t], k, pos < |st.list| && t == st.list[pos])
                 && st'.callers[t].pc == st.callers[t].pc
  {
  }

  /** A caller that is about to link its structure has not linked it yet. */
  lemma NotListed(list: seq<SelectCb>, cbs: map<nat, SelectCb>, st: State, t: nat)
    requires IsList(list, cbs, st.list) && Inv(st) && t in st.callers && st.callers[t].pc.Ready? && t in cbs
    requires forall u :: u in cbs && u != t ==> cbs[u] != cbs[t]
    ensures cbs[t] !in list
  {
    assert CallerOk(st, t, st.callers[t]);
    forall i | 0 <= i < |list|
      ensures list[i] != cbs[t]
    {
      assert st.list[i] in st.list && cbs[st.list[i]] == list[i];
    }
  }

  /** A caller that is about to unlink its structure finds it in one place of the list. */
  lemma Place(list: seq<SelectCb>, cbs: map<nat, SelectCb>, st: State, t: nat) returns (k: nat)
    requires IsList(list, cbs, st.list) && Inv(st) && t in st.callers && st.callers[t].pc.Uncounting? && t in cbs
    ensures k < |list| && st.list[k] == t && list[k] == cbs[t]
    ensures Without(st.list, t) == st.list[..k] + st.list[k + 1..]
  {
    assert CallerOk(st, t, st.callers[t]);
    k :| 0 <= k < |st.list| && st.list[k] == t;
    WithoutOne(st.list, k);
  }

  /** The event fields of the socket array. */
  class Sockets {
    const socks: array<Sock>

    constructor (n: nat)
      ensures fresh(socks) && socks.Length == n
    {
      socks := new Sock[n](_ => Sock(false, 0, false, false, 0));
    }

    /** The protected section of event_callback, the step EventCallback of a state with these
        sockets; `walk` tells what select_check_waiters is called with, if it is called. */
    method Event(s: nat, e: Event, ghost st: State, ghost w: nat) returns (check: bool, walk: Walk)
      requires s < socks.Length && st.socks == socks[..] && w !in st.walks
      modifies socks
      ensures Next(st, EventCallback(s, e, w)) == st.(socks := socks[..], walks := if check then st.walks[w := walk] else st.walks)
      ensures socks[..] == old(socks[..])[s := socks[s]]
      ensures var k := old(socks[s]);
              && socks[s].rcvevent == k.rcvevent + (if e.RcvPlus? then 1 else if e.RcvMinus? then -1 else 0)
              && socks[s].sendevent == (if e.SendPlus? then true else if e.SendMinus? then false else k.sendevent)
              && (socks[s].errevent <==> k.errevent || e.Error?)
              && socks[s].lastdata == k.lastdata && socks[s].waiting == k.waiting
              && (check <==> k.waiting > 0 && (e.Error? || (e.RcvPlus? && k.rcvevent <= 0) || (e.SendPlus? && !k.sendevent)))
    {
      var checkWaiters := true;
      match e {
        case RcvPlus =>
          socks[s] := socks[s].(rcvevent := socks[s].rcvevent + 1);
          if socks[s].rcvevent > 1 {
            checkWaiters := false;
          }
        case RcvMinus =>
          socks[s] := socks[s].(rcvevent := socks[s].rcvevent - 1);
          checkWaiters := false;
        case SendPlus =>
          if socks[s].sendevent {
            checkWaiters := false;
          }
          socks[s] := socks[s].(sendevent := true);
        case SendMinus =>
          socks[s] := socks[s].(sendevent := false);
          checkWaiters := false;
        case Error =>
          socks[s] := socks[s].(errevent := true);
      }
      check := socks[s].waiting != 0 && checkWaiters;
      walk := Walk(s, socks[s].rcvevent > 0, socks[s].sendevent, socks[s].errevent, -1, 0);
    }

    /** lwip_selscan, undisturbed: -1 if a watched descriptor is out of range or its slot has a free
        pending (which is all that tryget_socket_unconn_locked asks; whether the slot has a netconn
        it does not), and otherwise exactly the watched sockets with an event, and how many there
        are in the three sets. */
    method Selscan(maxfdp1: nat, readset: set<nat>, writeset: set<nat>, exceptset: set<nat>, slots: seq<L.Slot>)
      returns (nready: int, lreadset: set<nat>, lwriteset: set<nat>, lexceptset: set<nat>)
      requires |slots| == socks.Length
      ensures nready == -1 <==> exists s :: 0 <= s < maxfdp1 && s in readset + writeset + exceptset && !Valid(slots, s)
      ensures nready >= 0 ==> nready == |lreadset| + |lwriteset| + |lexceptset|
      ensures nready >= 0 ==>
                && lreadset == WithEvent(socks[..], readset, Read, maxfdp1)
                && lwriteset == WithEvent(socks[..], writeset, Write, maxfdp1)
                && lexceptset == WithEvent(socks[..], exceptset, Except, maxfdp1)
      ensures nready >= -1
    {
      hide WithEvent;
      nready, lreadset, lwriteset, lexceptset := 0, {}, {}, {};
      NoEvents(socks[..], readset, Read);
      NoEvents(socks[..], writeset, Write);
      NoEvents(socks[..], exceptset, Except);
      var i := 0;
      while i < maxfdp1
        invariant 0 <= i <= maxfdp1
        invariant nready == |WithEvent(socks[..], readset, Read, i)| + |WithEvent(socks[..], writeset, Write, i)|
                            + |WithEvent(socks[..], exceptset, Except, i)|
        invariant forall s :: 0 <= s < i && s in readset + writeset + exceptset ==> Valid(slots, s)
        invariant lreadset == WithEvent(socks[..], readset, Read, i)
        invariant lwriteset == WithEvent(socks[..], writeset, Write, i)
        invariant lexceptset == WithEvent(socks[..], exceptset, Except, i)
      {
        OneMore(socks[..], readset, Read, i);
        OneMore(socks[..], writeset, Write, i);
        OneMore(socks[..], exceptset, Except, i);
        if i in readset || i in writeset || i in exceptset {
          if i >= |slots| || slots[i].pending.Free? {
            assert i in readset + writeset + exceptset && !Valid(slots, i);
            nready := -1;
            return;
          }
          if i in readset && (socks[i].lastdata || socks[i].rcvevent > 0) {
            lreadset := lreadset + {i};
            nready := nready + 1;
          }
          if i in writeset && socks[i].sendevent {
            lwriteset := lwriteset + {i};
            nready := nready + 1;
          }
          if i in exceptset && socks[i].errevent {
            lexceptset := lexceptset + {i};
            nready := nready + 1;
          }
        }
        i := i + 1;
      }
    }

    /** One step of the loop that increases select_waiting, with its 8-bit overflow check: the step
        Count of caller `t`, or CountFails. */
    method Count(s: nat, ghost st: State, ghost t: nat) returns (ok: bool)
      requires s < socks.Length && socks[s].waiting <= SELWAIT_MAX && st.socks == socks[..]
      requires t in st.callers && st.callers[t].pc == Counting(s) && st.callers[t].Watches(s)
      modifies socks
      ensures ok <==> Enabled(st, Step.Count(t))
      ensures socks[..] == Next(st, if ok then Step.Count(t) else CountFails(t)).socks
    {
      socks[s] := socks[s].(waiting := (socks[s].waiting + 1) % (SELWAIT_MAX + 1));
      ok := true;
      if socks[s].waiting == 0 {
        // the increment wrapped around, so take it back
        socks[s] := socks[s].(waiting := (socks[s].waiting + SELWAIT_MAX) % (SELWAIT_MAX + 1));
        ok := false;
      }
    }
  }

  /** What tryget_socket_unconn_locked accepts. */
  predicate Valid(slots: seq<L.Slot>, s: nat) {
    s < |slots| && L.IncUsed(slots[s]).1
  }

  /** The watched sockets below `n` with an event. */
  function WithEvent(socks: seq<Sock>, watched: set<nat>, d: Direction, n: nat): set<nat> {
    set s | s in watched && s < n && s < |socks| && HasEvent(socks[s], d)
  }

  /** What a scan says of a watched socket after any run: it is readable exactly when data was
      left over or more receive than receive-minus events have come, writable as the last event
      about sending said, and in error exactly when an error event has come. */
  lemma Reported(first: State, steps: seq<Step>, st: State, watched: set<nat>, n: nat, s: nat)
    requires Runs(first, steps, st) && s < |first.socks| && s in watched && s < n
    ensures |st.socks| == |first.socks|
    ensures var k, es := first.socks[s], E.Events(steps, s);
            && (s in WithEvent(st.socks, watched, Read, n) <==>
                st.socks[s].lastdata || k.rcvevent + multiset(es)[RcvPlus] > multiset(es)[RcvMinus])
            && E.Decides(es, k.sendevent, s in WithEvent(st.socks, watched, Write, n))
            && (s in WithEvent(st.socks, watched, Except, n) <==> k.errevent || Error in es)
  {
    hide Runs, E.Decides;
    E.FieldsFollow(first, steps, st, s);
  }

  lemma NoEvents(socks: seq<Sock>, watched: set<nat>, d: Direction)
    ensures WithEvent(socks, watched, d, 0) == {}
  {
  }

  lemma OneMore(socks: seq<Sock>, watched: set<nat>, d: Direction, n: nat)
    ensures var here := n in watched && n < |socks| && HasEvent(socks[n], d);
            && WithEvent(socks, watched, d, n + 1) == WithEvent(socks, watched, d, n) + (if here then {n} else {})
            && |WithEvent(socks, watched, d, n + 1)| == |WithEvent(socks, watched, d, n)| + (if here then 1 else 0)
  {
    hide WithEvent, HasEvent;
    SetStep(socks, watched, d, n);
    Larger(WithEvent(socks, watched, d, n), n);
  }

  lemma SetStep(socks: seq<Sock>, watched: set<nat>, d: Direction, n: nat)
    ensures n !in WithEvent(socks, watched, d, n)
    ensures WithEvent(socks, watched, d, n + 1) ==
            WithEvent(socks, watched, d, n) + if n in watched && n < |socks| && HasEvent(socks[n], d) then {n} else {}
  {
    hide HasEvent;
  }

  lemma Larger(a: set<nat>, n: nat)
    requires n !in a
    ensures |a + {n}| == |a| + 1 && a + {} == a
  {
  }
}
