/**
 What the steps of the resolver do, said by their effects on requests, callbacks and entries,
 and the queries that go out with them.
 */
module DnsEffects {
  import opened Octets
  import opened Options
  import opened DnsName
  import opened DnsMessage
  import opened DnsTable

  /** Exactly the requests that wait for entry `i` have been called back, all with `addr`, and are free. */
  ghost predicate CalledBack(st: State, st': State, i: nat, addr: Option<seq<byte>>) {
    && Grows(st, st') && |st'.requests| == |st.requests|
    && (forall r :: 0 <= r < |st.requests| ==>
          st'.requests[r] == if Waits(st, r) && st.requests[r].entry == i then st.requests[r].(found := None) else st.requests[r])
    && (forall k :: |st.log| <= k < |st'.log| ==> st'.log[k].addr == addr)
    && (forall id: nat :: Tally(st', id) == Tally(st, id))
  }

  /** Nobody has been called back. */
  predicate Silent(st: State, st': State) {
    st'.requests == st.requests && st'.log == st.log
  }

  /** Entry `i` has become `e`, and nothing else of the tables has changed. */
  predicate Becomes(st: State, st': State, i: nat, e: Entry) {
    i < |st.table| && st'.table == st.table[i := e] && st'.servers == st.servers && st'.seqno == st.seqno
  }

  lemma CallFoundEffect(st: State, i: nat, addr: Option<seq<byte>>)
    ensures CalledBack(st, CallFound(st, i, addr), i, addr)
  {
    hide Tally;
    var st' := CallFound(st, i, addr);
    forall k | |st.log| <= k < |st'.log|
      ensures st'.log[k].addr == addr
    {
      NewCall(st, i, addr, st'.log, k);
    }
    forall id: nat
      ensures Tally(st', id) == Tally(st, id)
    {
      CallFoundTally(st, i, addr, id);
    }
  }

  /** The callbacks of a step do not depend on what becomes of the entry. */
  lemma SameCalls(st: State, s: State, i: nat, addr: Option<seq<byte>>, s': State, st': State)
    requires CalledBack(s, s', i, addr) && s.requests == st.requests && s.log == st.log
    requires st'.requests == s'.requests && st'.log == s'.log
    ensures CalledBack(st, st', i, addr)
  {
    hide Tally;
    forall id: nat
      ensures Tally(st', id) == Tally(st, id)
    {
      TallyParts(s, id);
      TallyParts(s', id);
    }
  }

  lemma FailEffect(st: State, s: State, i: nat)
    requires i < |s.table| && s.requests == st.requests && s.log == st.log
    ensures CalledBack(st, Fail(s, i), i, None) && Becomes(s, Fail(s, i), i, s.table[i].(phase := Unused))
    ensures Fail(s, i).txid == s.txid
  {
    hide CalledBack;
    CallFoundEffect(s, i, None);
    SameCalls(st, s, i, None, CallFound(s, i, None), Fail(s, i));
  }

  // ----- responses -----

  function Limited(ttl: nat): nat {
    if ttl > MAX_TTL then MAX_TTL else ttl
  }

  /** What a response with verdict `v` does when its id is that of entry `i`: nothing unless it comes
      from the server asked; an address serves everyone who waits; an error goes on with the next
      server, if there is one, and otherwise ends the query at once. */
  ghost predicate Handled(st: State, st': State, i: nat, from: nat, v: Verdict)
    requires Shape(st) && i < TABLE_SIZE && st.table[i].server < SERVERS
  {
    var e := st.table[i];
    if from != st.servers[e.server] || v.Ignore? then st' == st
    else if v.Address? then
      && CalledBack(st, st', i, Some(v.bytes)) && st'.txid == st.txid
      && Becomes(st, st', i, e.(addr := v.bytes, ttl := Limited(v.ttl), phase := if v.ttl == 0 then Unused else Done))
    else if v.ServerError? && e.server + 1 < SERVERS && st.servers[e.server + 1] != ANY then
      Silent(st, st') && st'.txid == st.txid && Becomes(st, st', i, e.(server := e.server + 1, retries := 0, tmr := 1))
    else CalledBack(st, st', i, None) && st'.txid == st.txid && Becomes(st, st', i, e.(phase := Unused))
  }

  lemma ReceiveEffect(st: State, i: nat, from: nat, v: Verdict)
    requires Inv(st) && i < TABLE_SIZE && st.table[i].phase.Asking? && EntryOk(st.table[i])
    ensures Handled(st, Receive(st, i, from, v), i, from, v)
  {
    hide Base, Fail, CallFound, CalledBack, FreeId, AskingIds;
    BaseParts(st);
    FailEffect(st, st, i);
    if v.Address? && from == st.servers[st.table[i].server] {
      CallFoundEffect(st, i, Some(v.bytes));
      CallFoundRest(st, i, Some(v.bytes));
      SameCalls(st, st, i, Some(v.bytes), CallFound(st, i, Some(v.bytes)), Receive(st, i, from, v));
    }
  }

  lemma CallFoundRest(st: State, i: nat, addr: Option<seq<byte>>)
    ensures var s := CallFound(st, i, addr);
            s.table == st.table && s.servers == st.servers && s.seqno == st.seqno && s.txid == st.txid
  {
  }

  // ----- checks -----

  /** The query of entry `i`, which has become `e`, is sent; or the entry is given up when the server
      to ask is not configured. */
  ghost predicate Asks(st: State, st': State, i: nat, e: Entry)
    requires Shape(st) && e.server < SERVERS
  {
    if st.servers[e.server] == ANY then CalledBack(st, st', i, None) && Becomes(st, st', i, e.(phase := Unused))
    else Silent(st, st') && Becomes(st, st', i, e)
  }

  /** What dns_check_entry does: it begins to ask for a new name with an id that no other query has;
      it counts down the timer of a query; when that runs out it asks again, up to RETRIES times, then
      goes on to the next server, and gives up after the last one; it counts down a time to live. */
  ghost predicate Checked(st: State, st': State, i: nat)
    requires Shape(st) && i < TABLE_SIZE && st.table[i].server < SERVERS
  {
    var e := st.table[i];
    match e.phase
    case Unused => st' == st
    case Done =>
      && Silent(st, st') && st'.txid == st.txid
      && Becomes(st, st', i, if e.ttl <= 1 then e.(ttl := 0, phase := Unused) else e.(ttl := e.ttl - 1))
    case New =>
      && st'.txid < U16 && (forall j :: 0 <= j < TABLE_SIZE ==> !Uses(st.table[j], st'.txid))
      && Asks(st, st', i, e.(txid := st'.txid, phase := Asking, server := 0, tmr := 1, retries := 0))
    case Asking =>
      && st'.txid == st.txid
      && if e.tmr > 1 then Silent(st, st') && Becomes(st, st', i, e.(tmr := e.tmr - 1))
         else if e.retries + 1 < RETRIES then Asks(st, st', i, e.(retries := e.retries + 1, tmr := e.retries + 1))
         else if e.server + 1 < SERVERS && st.servers[e.server + 1] != ANY then
           Silent(st, st') && Becomes(st, st', i, e.(server := e.server + 1, retries := 0, tmr := 1))
         else CalledBack(st, st', i, None) && Becomes(st, st', i, e.(retries := RETRIES, tmr := 0, phase := Unused))
  }

  lemma CheckEffect(st: State, i: nat)
    requires Base(st) && i < TABLE_SIZE
    ensures EntryOk(st.table[i]) && Checked(st, Check(st, i), i)
  {
    hide Base, Fail, CalledBack, FreeId, AskingIds;
    BaseParts(st);
    var e := st.table[i];
    match e.phase
    case Unused =>
    case Done =>
    case New =>
      FreshId(st.table, st.txid);
      var t := FreeId(AskingIds(st.table), st.txid);
      var e1 := e.(txid := t, phase := Asking, server := 0, tmr := 1, retries := 0);
      FailEffect(st, Set(st, i, e1).(txid := t), i);
    case Asking =>
      var e2 := e.(tmr := Minus1(e.tmr), retries := Plus1(e.retries));
      FailEffect(st, Set(st, i, e2), i);
      FailEffect(st, Set(st, i, e2.(tmr := e2.retries)), i);
  }

  /** A completed entry is known for exactly as many ticks as its time to live says. */
  lemma {:induction false} KnownFor(st: State, i: nat, n: nat)
    requires Inv(st) && i < TABLE_SIZE && st.table[i].phase.Done?
    ensures |Ticked(st, n).table| == TABLE_SIZE
    ensures n == 0 || n < st.table[i].ttl ==> Ticked(st, n).table[i] == st.table[i].(ttl := st.table[i].ttl - n)
    ensures n > 0 && n >= st.table[i].ttl ==> Ticked(st, n).table[i].phase.Unused?
    decreases n
  {
    hide Base, Checks, Check;
    BaseParts(st);
    if n > 0 {
      StepKeeps(st, Tick);
      ChecksEntry(st, 0, i);
      var st1 := Next(st, Tick);
      assert st1 == Checks(st, 0);
      if st1.table[i].phase.Done? {
        KnownFor(st1, i, n - 1);
      } else {
        StaysUnused(st1, i, n - 1);
      }
    }
  }

  lemma {:induction false} StaysUnused(st: State, i: nat, n: nat)
    requires Inv(st) && i < TABLE_SIZE && st.table[i].phase.Unused?
    ensures |Ticked(st, n).table| == TABLE_SIZE && Ticked(st, n).table[i].phase.Unused?
    decreases n
  {
    hide Base, Checks, Check;
    BaseParts(st);
    if n > 0 {
      StepKeeps(st, Tick);
      ChecksEntry(st, 0, i);
      StaysUnused(Next(st, Tick), i, n - 1);
    }
  }

  /** The checks of a tick come to each entry once. */
  lemma {:induction false} ChecksEntry(st: State, k: nat, i: nat)
    requires Base(st) && k <= TABLE_SIZE && i < TABLE_SIZE && !Live(st.table[i])
    ensures |Checks(st, k).table| == TABLE_SIZE
    ensures var e := st.table[i];
            Checks(st, k).table[i] == if i < k || e.phase.Unused? then e
                                      else if e.ttl <= 1 then e.(ttl := 0, phase := Unused) else e.(ttl := e.ttl - 1)
    decreases TABLE_SIZE - k
  {
    hide Base, Check;
    BaseParts(st);
    if k < TABLE_SIZE {
      CheckKeeps(st, k);
      CheckEffect(st, k);
      BaseParts(Check(st, k));
      ChecksEntry(Check(st, k), k + 1, i);
    }
  }

  // ----- calls -----

  /** What dns_enqueue does when it returns ERR_INPROGRESS: the callback waits in a request that was
      free, for a query under way for the same name if there is one, and else for an entry of its own, unused
      before or the oldest completed one, which asks the first server for the name; without a first server
      it has been called at once. */
  ghost predicate Taken(st: State, st': State, name: seq<byte>, found: Option<nat>, r: nat, i: nat)
    requires Shape(st)
  {
    && r < REQUESTS && st.requests[r].found.None? && i < TABLE_SIZE && st'.servers == st.servers
    && if st.table[i].phase.Asking? then
         SameName(st.table[i].name, Cut(name)) && st' == st.(requests := st.requests[r := Request(found, i)])
       else
         var e := st.table[i].(phase := Asking, name := Cut(name), txid := st'.txid, server := 0, tmr := 1, retries := 0, seqno := st.seqno);
         && (forall j :: 0 <= j < TABLE_SIZE ==> !Duplicate(st.table[j], Cut(name)))
         && NewSlot(st, i) && st'.seqno == (st.seqno + 1) % 256
         && st'.txid < U16 && (forall j :: 0 <= j < TABLE_SIZE ==> !Uses(st.table[j], st'.txid))
         && if st.servers[0] == ANY then
              && st'.table == st.table[i := e.(phase := Unused)] && st'.requests == st.requests[r := Request(None, i)]
              && st'.log == st.log + if found.Some? then [Call(found.value, None)] else []
            else st'.table == st.table[i := e] && st'.requests == st.requests[r := Request(found, i)] && st'.log == st.log
  }

  /** The first unused entry; if there is none, the first of the oldest completed ones. */
  predicate NewSlot(st: State, i: nat)
    requires |st.table| == TABLE_SIZE
  {
    && i < TABLE_SIZE
    && if st.table[i].phase.Unused? then forall j :: 0 <= j < i ==> !st.table[j].phase.Unused?
       else Oldest(st.table, st.seqno, i) && forall j :: 0 <= j < TABLE_SIZE ==> !st.table[j].phase.Unused?
  }

  lemma SlotIsNew(st: State)
    requires |st.table| == TABLE_SIZE && Slot(st) < TABLE_SIZE
    ensures NewSlot(st, Slot(st)) && !Live(st.table[Slot(st)])
  {
    var u := FirstUnused(st.table);
  }

  /** Only request `r` waits for entry `i`. */
  lemma {:induction false} OnlyCall(requests: seq<Request>, i: nat, r: nat, addr: Option<seq<byte>>)
    requires r < |requests| && requests[r].entry == i
    requires forall k :: 0 <= k < |requests| && k != r && requests[k].found.Some? ==> requests[k].entry != i
    ensures CallsFor(requests, i, addr) == if requests[r].found.Some? then [Call(requests[r].found.value, addr)] else []
    decreases r
  {
    if r == 0 {
      NoCalls(requests[1..], i, addr);
    } else {
      assert requests[1..][r - 1] == requests[r];
      OnlyCall(requests[1..], i, r - 1, addr);
    }
  }

  lemma {:induction false} NoCalls(requests: seq<Request>, i: nat, addr: Option<seq<byte>>)
    requires forall k :: 0 <= k < |requests| && requests[k].found.Some? ==> requests[k].entry != i
    ensures CallsFor(requests, i, addr) == []
  {
    if requests != [] {
      NoCalls(requests[1..], i, addr);
    }
  }

  lemma NobodyWaits(st: State, i: nat)
    requires Base(st) && i < TABLE_SIZE && !Live(st.table[i])
    ensures forall k :: 0 <= k < REQUESTS && st.requests[k].found.Some? ==> st.requests[k].entry != i
  {
  }

  /** The check of an entry that has just been entered. */
  lemma EnteredEffect(st: State, i: nat, r: nat, name: seq<byte>, found: Option<nat>)
    requires Base(st) && i < TABLE_SIZE && r < REQUESTS && st.requests[r].found.None? && !Live(st.table[i]) && |name| <= MAX_NAME
    ensures var st1 := Entered(st, i, r, name, found);
            && st1.table[i].server < SERVERS && Shape(st1)
            && var st' := Check(st1, i);
            && st'.txid < U16 && (forall j :: 0 <= j < TABLE_SIZE ==> !Uses(st.table[j], st'.txid))
            && st'.servers == st.servers && st'.seqno == (st.seqno + 1) % 256
            && var e := st.table[i].(phase := Asking, name := name, txid := st'.txid, server := 0, tmr := 1, retries := 0, seqno := st.seqno);
               if st.servers[0] == ANY then
                 && st'.table == st.table[i := e.(phase := Unused)] && st'.requests == st.requests[r := Request(None, i)]
                 && st'.log == st.log + if found.Some? then [Call(found.value, None)] else []
               else st'.table == st.table[i := e] && st'.requests == st.requests[r := Request(found, i)] && st'.log == st.log
  {
    hide Base, CallsFor, FreeId, AskingIds, Cleared;
    BaseParts(st);
    NobodyWaits(st, i);
    var st1 := Entered(st, i, r, name, found);
    EnteredKeeps(st, i, r, name, found);
    FreshId(st1.table, st1.txid);
    OnlyCall(st1.requests, i, r, None);
    var st' := Check(st1, i);
    assert forall j :: 0 <= j < TABLE_SIZE && j != i ==> st1.table[j] == st.table[j];
    assert !Uses(st.table[i], st'.txid);
    if st.servers[0] == ANY {
      assert st'.requests == Cleared(st1.requests, i);
      forall k | 0 <= k < REQUESTS
        ensures Cleared(st1.requests, i)[k] == st.requests[r := Request(None, i)][k]
      {
        assert Answered(st1.requests[k], i) == st.requests[r := Request(None, i)][k];
      }
    }
  }

  lemma AskEffect(st: State, name: seq<byte>, found: Option<nat>) returns (r: nat, i: nat)
    requires Inv(st) && Enqueue(st, name, found).1
    ensures Taken(st, Enqueue(st, name, found).0, name, found, r, i)
  {
    hide Base, Check, Entered, Oldest, SameName, NewSlot;
    BaseParts(st);
    r := FirstFree(st.requests);
    i := FirstDuplicate(st.table, Cut(name));
    if i == TABLE_SIZE {
      SlotIsNew(st);
      i := Slot(st);
      EnteredEffect(st, i, r, Cut(name), found);
    }
  }

  // ----- the queries that go out -----

  datatype Sent = Sent(server: nat, query: seq<byte>)

  /** The query that entry `i` sends now. */
  function QueryOf(st: State, i: nat): Sent
    requires Shape(st) && i < TABLE_SIZE && EntryOk(st.table[i]) && st.table[i].txid < U16
  {
    LabelsShort(st.table[i].name);
    Sent(st.servers[st.table[i].server], Query(st.table[i].txid, st.table[i].name))
  }

  /** The entry has begun to be asked, is asked once more, or asks another server. */
  predicate Asked(e: Entry, e': Entry) {
    e'.phase.Asking? && (!e.phase.Asking? || e'.retries != e.retries || e'.server != e.server)
  }

  /** Entry `i` is new, or its timer runs out with the next tick. */
  predicate Due(e: Entry) {
    e.phase.New? || (e.phase.Asking? && e.tmr == 1)
  }

  /** A check asks for exactly the entries that are due and not given up, and only servers that
      are configured. */
  lemma DueAsked(st: State, i: nat)
    requires Base(st) && i < TABLE_SIZE
    ensures |Check(st, i).table| == TABLE_SIZE
    ensures var e, e' := st.table[i], Check(st, i).table[i];
            && (Due(e) && e'.phase.Asking? <==> Asked(e, e'))
            && (Asked(e, e') ==> EntryOk(e') && st.servers[e'.server] != ANY)
  {
    hide Base, Check, CalledBack;
    BaseParts(st);
    CheckKeeps(st, i);
    BaseParts(Check(st, i));
    CheckEffect(st, i);
  }

  predicate Entries(st: State) {
    Shape(st) && forall i :: 0 <= i < TABLE_SIZE ==> EntryOk(st.table[i])
  }

  /** The queries of the entries below `n` that a step from `st` to `st'` has asked. */
  function Queries(st: State, st': State, n: nat): seq<Sent>
    requires Shape(st) && Entries(st') && n <= TABLE_SIZE
  {
    if n == 0 then []
    else Queries(st, st', n - 1) + if Asked(st.table[n - 1], st'.table[n - 1]) then [QueryOf(st', n - 1)] else []
  }

  lemma {:induction false} QueriesSame(st: State, s: State, s': State, n: nat)
    requires Shape(st) && Entries(s) && Entries(s') && n <= TABLE_SIZE
    requires s.servers == s'.servers && forall i :: 0 <= i < n ==> s.table[i] == s'.table[i]
    ensures Queries(st, s, n) == Queries(st, s', n)
  {
    if n > 0 {
      QueriesSame(st, s, s', n - 1);
    }
  }

  lemma {:induction false} NoQueries(st: State, st': State, n: nat)
    requires Shape(st) && Entries(st') && n <= TABLE_SIZE
    requires forall i :: 0 <= i < n ==> !Asked(st.table[i], st'.table[i])
    ensures Queries(st, st', n) == []
  {
    if n > 0 {
      NoQueries(st, st', n - 1);
    }
  }

  lemma {:induction false} OneQuery(st: State, st': State, i: nat, n: nat)
    requires Shape(st) && Entries(st') && i < n <= TABLE_SIZE
    requires forall j :: 0 <= j < n && j != i ==> !Asked(st.table[j], st'.table[j])
    ensures Queries(st, st', n) == if Asked(st.table[i], st'.table[i]) then [QueryOf(st', i)] else []
  {
    if i == n - 1 {
      NoQueries(st, st', n - 1);
    } else {
      OneQuery(st, st', i, n - 1);
    }
  }

  lemma QueriesNone(st: State)
    requires Entries(st)
    ensures Queries(st, st, 0) == []
  {
  }

  lemma QueriesMore(st: State, st': State, n: nat)
    requires Shape(st) && Entries(st') && n < TABLE_SIZE
    ensures Queries(st, st', n + 1) == Queries(st, st', n) + if Asked(st.table[n], st'.table[n]) then [QueryOf(st', n)] else []
  {
  }

  /** A step that leaves the entries alone asks nothing. */
  lemma NothingAsked(st: State)
    requires Entries(st)
    ensures Queries(st, st, TABLE_SIZE) == []
  {
    NoQueries(st, st, TABLE_SIZE);
  }

  lemma QueriesFrom(st: State, s: State, s': State)
    requires Shape(st) && Entries(s) && s'.table == s.table && s'.servers == s.servers && Shape(s')
    ensures Entries(s') && Queries(st, s', TABLE_SIZE) == Queries(st, s, TABLE_SIZE)
  {
    QueriesSame(st, s, s', TABLE_SIZE);
  }

  /** A step that changes entry `i` only can ask for that one only. */
  lemma OneAsked(st: State, st': State, i: nat)
    requires Shape(st) && Entries(st') && i < TABLE_SIZE
    requires forall j :: 0 <= j < TABLE_SIZE && j != i ==> st'.table[j] == st.table[j]
    ensures Queries(st, st', TABLE_SIZE) == if Asked(st.table[i], st'.table[i]) then [QueryOf(st', i)] else []
  {
    OneQuery(st, st', i, TABLE_SIZE);
  }
}
