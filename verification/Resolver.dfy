/** The resolver of dns.c, its tables updated in place. */
module Resolver {
  import opened Octets
  import opened Options
  import opened DnsName
  import opened DnsMessage
  import opened DnsTable
  import opened DnsEffects

  /** The buffer of an entry's name: its text, the zero behind it, and what an earlier name left. */
  function NameMemory(name: seq<byte>, rest: Memory): Memory {
    (i: nat) => if i < |name| then name[i] else if i == |name| then 0 else rest(i)
  }

  lemma {:induction false} CallsOneMore(requests: seq<Request>, n: nat, i: nat, addr: Option<seq<byte>>)
    requires n < |requests|
    ensures CallsFor(requests[..n + 1], i, addr)
            == CallsFor(requests[..n], i, addr)
               + if requests[n].found.Some? && requests[n].entry == i then [Call(requests[n].found.value, addr)] else []
    decreases n
  {
    if n == 0 {
      assert requests[..1] == [requests[0]] && requests[..1][1..] == [] && requests[..0] == [];
    } else {
      assert requests[..n + 1][1..] == requests[1..][..n] && requests[..n][1..] == requests[1..][..n - 1];
      CallsOneMore(requests[1..], n - 1, i, addr);
    }
  }

  lemma IdsOf(table: seq<Entry>, t: nat)
    ensures t in AskingIds(table) <==> exists i :: 0 <= i < |table| && Uses(table[i], t)
  {
  }

  class Resolver {
    const table: array<Entry>
    const requests: array<Request>
    const servers: array<nat>
    var seqno: nat
    var txid: nat
    var log: seq<Call>
    /** The query packets handed to UDP, each with the address it is for. */
    var sent: seq<Sent>

    ghost function Abs(): State
      reads this, table, requests, servers
    {
      State(table[..], requests[..], servers[..], seqno, txid, log)
    }

    ghost predicate Sized()
      reads this
    {
      table.Length == TABLE_SIZE && requests.Length == REQUESTS && servers.Length == SERVERS
    }

    /** The zeroed tables. */
    constructor ()
      ensures Sized() && Inv(Abs()) && log == [] && sent == []
      ensures forall n :: 0 <= n < SERVERS ==> servers[n] == ANY
    {
      table := new Entry[TABLE_SIZE](_ => Entry(Unused, 0, 0, 0, 0, 0, 0, [], []));
      requests := new Request[REQUESTS](_ => Request(None, 0));
      servers := new nat[SERVERS](_ => ANY);
      seqno, txid, log, sent := 0, 0, [], [];
    }

    /** dns_setserver */
    method SetServer(n: nat, addr: nat)
      requires Sized() && Inv(Abs())
      modifies servers
      ensures Inv(Abs()) && Abs() == Next(old(Abs()), Step.SetServer(n, addr))
      ensures servers[..] == if n < SERVERS then old(servers[..])[n := addr] else old(servers[..])
    {
      StepKeeps(Abs(), Step.SetServer(n, addr));
      if n < SERVERS {
        servers[n] := addr;
      }
    }

    /** dns_call_found */
    method CallFound(i: nat, addr: Option<seq<byte>>)
      requires Sized()
      modifies this`log, requests
      ensures Abs() == DnsTable.CallFound(old(Abs()), i, addr)
    {
      ghost var was := requests[..];
      var r := 0;
      while r < REQUESTS
        invariant 0 <= r <= REQUESTS
        invariant forall k :: 0 <= k < r ==> requests[k] == Answered(was[k], i)
        invariant forall k :: r <= k < REQUESTS ==> requests[k] == was[k]
        invariant log == old(log) + CallsFor(was[..r], i, addr)
      {
        CallsOneMore(was, r, i, addr);
        if requests[r].found.Some? && requests[r].entry == i {
          log := log + [Call(requests[r].found.value, addr)];
          requests[r] := requests[r].(found := None);
        }
        r := r + 1;
      }
      assert was[..REQUESTS] == was;
      assert requests[..] == Cleared(was, i);
    }

    /** dns_create_txid */
    method CreateTxid() returns (t: nat)
      requires Sized()
      modifies this`txid
      ensures t == txid == FreeId(AskingIds(table[..]), old(txid))
      ensures Abs() == old(Abs()).(txid := t)
    {
      ghost var ids := AskingIds(table[..]);
      ghost var k := DrawsBounded(ids, txid);
      ghost var c := txid;
      FewIds(table[..]);
      ghost var drawn := 0;
      while true
        invariant 0 <= drawn < k && (drawn == 0 ==> txid == c) && (drawn > 0 ==> txid == Draw(c, drawn))
        decreases k - drawn
      {
        NextDraw(c, drawn, txid);
        txid := (txid + 1) % U16;
        drawn := drawn + 1;
        t := txid;
        IdsOf(table[..], t);
        var i := 0;
        while i < TABLE_SIZE && !(table[i].phase.Asking? && table[i].txid == t)
          invariant 0 <= i <= TABLE_SIZE && forall j :: 0 <= j < i ==> !Uses(table[j], t)
        {
          i := i + 1;
        }
        if i == TABLE_SIZE {
          assert t !in ids;
          return;
        }
        assert Uses(table[..][i], t);
      }
    }

    /** dns_backupserver_available */
    method BackupAvailable(i: nat) returns (b: bool)
      requires Sized() && i < TABLE_SIZE
      ensures b == Backup(Abs(), table[i])
    {
      b := table[i].server + 1 < SERVERS && servers[table[i].server + 1] != ANY;
    }

    /** Call back with an error and flush the entry. */
    method GiveUp(i: nat)
      requires Sized() && i < TABLE_SIZE
      modifies this`log, requests, table
      ensures Abs() == Fail(old(Abs()), i) && table[i] == old(table[i]).(phase := Unused)
    {
      CallFound(i, None);
      table[i] := table[i].(phase := Unused);
    }

    /** dns_send */
    method SendQuery(i: nat)
      requires Sized() && i < TABLE_SIZE && EntryOk(table[i]) && table[i].phase.Asking?
      modifies this`log, this`sent, requests, table
      ensures Abs() == Send(old(Abs()), i) && EntryOk(table[i]) && (table[i].phase.Asking? ==> Abs() == old(Abs()))
      ensures sent == old(sent) + if table[i].phase.Asking? then [QueryOf(old(Abs()), i)] else []
    {
      hide Query, Fail;
      ghost var q := QueryOf(Abs(), i);
      if servers[table[i].server] == ANY {
        GiveUp(i);
        return;
      }
      LabelsShort(table[i].name);
      var p := BuildQuery(table[i].txid, table[i].name);
      sent := sent + [Sent(servers[table[i].server], p[..])];
    }

    /** dns_check_entry. A query goes out exactly when the entry was due and is still asking: to its
        present server, with its id and name. */
    method CheckEntry(i: nat)
      requires Sized() && i < TABLE_SIZE && Base(Abs())
      modifies this`log, this`sent, this`txid, requests, table
      ensures Abs() == Check(old(Abs()), i)
      ensures Base(Abs()) && EntryOk(table[i])
      ensures sent == old(sent) + if Due(old(table[i])) && table[i].phase.Asking? then [QueryOf(Abs(), i)] else []
    {
      hide Base, Send, Fail, FreeId, AskingIds, QueryOf;
      ghost var was := Abs();
      BaseParts(was);
      CheckKeeps(was, i);
      BaseParts(Check(was, i));
      var e := table[i];
      match e.phase {
        case New =>
          FreshId(table[..], txid);
          var t := CreateTxid();
          table[i] := e.(txid := t, phase := Asking, server := 0, tmr := 1, retries := 0);
          assert table[..] == was.table[i := e.(txid := t, phase := Asking, server := 0, tmr := 1, retries := 0)];
          SendQuery(i);
        case Asking => CheckAsking(i);
        case Done =>
          if e.ttl == 0 {
            table[i] := e.(phase := Unused);
          } else {
            table[i] := e.(ttl := e.ttl - 1);
            if table[i].ttl == 0 {
              table[i] := table[i].(phase := Unused);
            }
          }
          assert table[..] == was.table[i := table[i]];
        case Unused =>
      }
    }

    /** The case of a query under way. */
    method CheckAsking(i: nat)
      requires Sized() && i < TABLE_SIZE && EntryOk(table[i]) && table[i].phase.Asking?
      modifies this`log, this`sent, this`txid, requests, table
      ensures Abs() == Check(old(Abs()), i) && EntryOk(table[i])
      ensures sent == old(sent) + if Due(old(table[i])) && table[i].phase.Asking? then [QueryOf(Abs(), i)] else []
    {
      hide Send, Fail, QueryOf;
      ghost var was := Abs();
      table[i] := table[i].(tmr := Minus1(table[i].tmr));
      if table[i].tmr == 0 {
        table[i] := table[i].(retries := Plus1(table[i].retries));
        assert table[..] == was.table[i := table[i]];
        if table[i].retries == RETRIES {
          var backup := BackupAvailable(i);
          if !backup {
            GiveUp(i);
            return;
          }
          table[i] := table[i].(server := table[i].server + 1, tmr := 1, retries := 0);
        } else {
          table[i] := table[i].(tmr := table[i].retries);
        }
        assert table[..] == was.table[i := table[i]];
        SendQuery(i);
      } else {
        assert table[..] == was.table[i := table[i]];
      }
    }

    /** dns_tmr */
    method Tmr()
      requires Sized() && Inv(Abs())
      modifies this`log, this`sent, this`txid, requests, table
      ensures Inv(Abs()) && Abs() == Next(old(Abs()), Tick)
      ensures Entries(Abs()) && sent == old(sent) + Queries(old(Abs()), Abs(), TABLE_SIZE)
    {
      hide Base, Check, Queries, Due, Asked, EntryOk;
      ghost var was := Abs();
      BaseParts(was);
      StepKeeps(was, Tick);
      QueriesNone(was);
      var i := 0;
      while i < TABLE_SIZE
        invariant 0 <= i <= TABLE_SIZE && Base(Abs()) && Checks(was, 0) == Checks(Abs(), i)
        invariant Entries(Abs()) && servers[..] == was.servers
        invariant forall j :: i <= j < TABLE_SIZE ==> table[j] == was.table[j]
        invariant sent == old(sent) + Queries(was, Abs(), i)
      {
        ghost var st := Abs();
        BaseParts(st);
        CheckKeeps(st, i);
        DueAsked(st, i);
        CheckEntry(i);
        BaseParts(Abs());
        QueriesSame(was, st, Abs(), i);
        QueriesMore(was, Abs(), i);
        i := i + 1;
      }
    }

    /** dns_correct_response */
    method CorrectResponse(i: nat, bytes: seq<byte>, ttl: nat)
      requires Sized() && i < TABLE_SIZE
      modifies this`log, requests, table
      ensures var t, e := if ttl > MAX_TTL then MAX_TTL else ttl, old(table[i]);
              Abs() == Set(DnsTable.CallFound(old(Abs()), i, Some(bytes)), i,
                           e.(addr := bytes, phase := if t == 0 then Unused else Done, ttl := t))
    {
      ghost var was := table[..];
      table[i] := table[i].(addr := bytes, phase := Done);
      table[i] := table[i].(ttl := ttl);
      if table[i].ttl > MAX_TTL {
        table[i] := table[i].(ttl := MAX_TTL);
      }
      CallFound(i, Some(bytes));
      if table[i].ttl == 0 {
        if table[i].phase == Done {
          table[i] := table[i].(phase := Unused);
        }
      }
      assert table[..] == was[i := table[i]];
    }

    /** dns_recv on a packet from the address `from`; `rest` is what lies behind the names in their
        buffers. The response is judged for the one entry that asked with its id. */
    method Recv(p: Packet, from: nat, rest: Memory)
      requires Sized() && Inv(Abs())
      modifies this`log, this`sent, this`txid, requests, table
      ensures Inv(Abs())
      ensures |p| < HDR + QUERY ==> Abs() == old(Abs())
      ensures |p| >= HDR + QUERY ==>
                Abs() == Next(old(Abs()), Step.Response(Word(p, 0), from, Verdicts(old(table[..]), rest, p)))
      ensures |p| >= HDR + QUERY ==>
                && (forall i :: 0 <= i < TABLE_SIZE && Uses(old(table[i]), Word(p, 0)) ==>
                      EntryOk(old(table[i])) && Handled(old(Abs()), Abs(), i, from, Judge(NameMemory(old(table[i]).name, rest), p)))
                && ((forall i :: 0 <= i < TABLE_SIZE ==> !Uses(old(table[i]), Word(p, 0))) ==> Abs() == old(Abs()))
      ensures Entries(Abs()) && sent == old(sent) + Queries(old(Abs()), Abs(), TABLE_SIZE)
    {
      hide Base, Judge, Receive, Handled, Queries, Asked, EntryOk;
      ghost var was := Abs();
      BaseParts(was);
      NothingAsked(was);
      if |p| < HDR + QUERY {
        return;
      }
      StepKeeps(was, Step.Response(Word(p, 0), from, Verdicts(was.table, rest, p)));
      var id := Word(p, 0);
      var i := 0;
      while i < TABLE_SIZE && !(table[i].phase.Asking? && table[i].txid == id)
        invariant 0 <= i <= TABLE_SIZE && forall j :: 0 <= j < i ==> !Uses(was.table[j], id)
      {
        i := i + 1;
      }
      if i < TABLE_SIZE {
        assert Uses(was.table[i], id) && Match(was.table, id) == i;
        var v := ReadResponse(NameMemory(table[i].name, rest), p);
        assert v == Verdicts(was.table, rest, p)[i];
        OneMatch(was, id, i);
        ReceiveKeeps(was, i, from, v);
        Handle(i, from, v);
        BaseParts(Abs());
        OneAsked(was, Abs(), i);
      } else {
        assert Match(was.table, id) == TABLE_SIZE;
      }
    }

    /** The end of dns_recv for the entry `i`. */
    method Handle(i: nat, from: nat, v: Verdict)
      requires Sized() && Inv(Abs()) && i < TABLE_SIZE && table[i].phase.Asking? && EntryOk(table[i])
      modifies this`log, this`sent, this`txid, requests, table
      ensures Abs() == Receive(old(Abs()), i, from, v) && Handled(old(Abs()), Abs(), i, from, v)
      ensures EntryOk(table[i])
      ensures sent == old(sent) + if Asked(old(table[i]), table[i]) then [QueryOf(Abs(), i)] else []
    {
      hide Base, Check, Fail, Handled, Due, QueryOf;
      ghost var was := Abs();
      ReceiveEffect(was, i, from, v);
      if from != servers[table[i].server] {
        return;
      }
      match v {
        case Ignore =>
        case ServerError =>
          var backup := BackupAvailable(i);
          if backup {
            NoneElse(was, i);
            SetKeeps(was, i, table[i].(retries := RETRIES - 1, tmr := 1));
            table[i] := table[i].(retries := RETRIES - 1, tmr := 1);
            assert table[..] == was.table[i := table[i]];
            NextServer(was, i, from);
            CheckEntry(i);
          } else {
            GiveUp(i);
          }
        case NoAddress => GiveUp(i);
        case Address(bytes, ttl) => CorrectResponse(i, bytes, ttl);
      }
    }

    /** The first request without a callback. */
    method FreeRequest() returns (r: nat)
      requires Sized()
      ensures r == FirstFree(requests[..])
    {
      r := 0;
      while r < REQUESTS && requests[r].found.Some?
        invariant 0 <= r <= REQUESTS && forall j :: 0 <= j < r ==> requests[..][j].found.Some?
      {
        r := r + 1;
      }
      assert r < REQUESTS ==> requests[..][r].found.None?;
    }

    /** The first query under way for the same name. */
    method FindDuplicate(name: seq<byte>) returns (i: nat)
      requires Sized()
      ensures i == FirstDuplicate(table[..], name)
    {
      i := 0;
      while i < TABLE_SIZE && !Duplicate(table[i], name)
        invariant 0 <= i <= TABLE_SIZE && forall j :: 0 <= j < i ==> !Duplicate(table[..][j], name)
      {
        i := i + 1;
      }
      assert i < TABLE_SIZE ==> Duplicate(table[..][i], name);
    }

    /** The search of dns_enqueue for an unused entry or the oldest completed one. */
    method FindSlot() returns (i: nat)
      requires Sized()
      ensures i == Slot(Abs())
    {
      hide Oldest;
      ghost var t := table[..];
      var lseq: nat, lseqi: nat := 0, TABLE_SIZE;
      i := 0;
      while i < TABLE_SIZE
        invariant 0 <= i <= TABLE_SIZE && forall j :: 0 <= j < i ==> !t[j].phase.Unused?
        invariant OldestOf(t[..i], seqno) == if lseqi == TABLE_SIZE then i else lseqi
        invariant if lseqi == TABLE_SIZE then lseq == 0 else lseqi < i && lseq == Age(t[lseqi], seqno) > 0
      {
        if table[i].phase == Unused {
          assert FirstUnused(t) == i;
          return;
        }
        assert t[..i + 1][..i] == t[..i];
        if table[i].phase == Done {
          var age := Age(table[i], seqno);
          if age > lseq {
            lseq, lseqi := age, i;
          }
        }
        i := i + 1;
      }
      assert t[..TABLE_SIZE] == t;
      assert FirstUnused(t) == TABLE_SIZE;
      i := lseqi;
    }

    /** dns_enqueue; `ok` stands for ERR_INPROGRESS and its opposite for ERR_MEM. */
    method Enqueue(fullName: seq<byte>, found: Option<nat>) returns (ok: bool)
      requires Sized() && Inv(Abs())
      modifies this, requests, table
      ensures Inv(Abs()) && Sized()
      ensures (Abs(), ok) == DnsTable.Enqueue(old(Abs()), fullName, found)
      ensures Entries(Abs()) && sent == old(sent) + Queries(old(Abs()), Abs(), TABLE_SIZE)
    {
      hide Base, Check, Slot, FirstFree, FirstDuplicate, SameName, Queries, Due, Asked, EntryOk, QueryOf;
      ghost var was := Abs();
      BaseParts(was);
      NothingAsked(was);
      EnqueueKeeps(was, fullName, found);
      var name := if |fullName| > MAX_NAME then fullName[..MAX_NAME] else fullName;
      var d := FindDuplicate(name);
      if d < TABLE_SIZE {
        var r := FreeRequest();
        if r < REQUESTS {
          requests[r] := Request(found, d);
          assert requests[..] == was.requests[r := Request(found, d)];
          QueriesFrom(was, was, Abs());
          return true;
        }
      }
      var i := FindSlot();
      if i == TABLE_SIZE {
        return false;
      }
      var r := FreeRequest();
      if r == REQUESTS {
        return false;
      }
      SlotIsFree(was);
      EnteredKeeps(was, i, r, name, found);
      requests[r] := Request(found, i);
      table[i] := table[i].(phase := New, seqno := seqno, name := name);
      seqno := Plus1(seqno);
      assert requests[..] == was.requests[r := Request(found, i)] && table[..] == was.table[i := table[i]];
      assert Abs() == Entered(was, i, r, name, found);
      ghost var st := Abs();
      CheckKeeps(st, i);
      DueAsked(st, i);
      CheckEntry(i);
      BaseParts(Abs());
      NewAsked(was.table[i], table[i], st.table[i]);
      OneAsked(was, Abs(), i);
      return true;
    }
  }

  /** With a backup server, an error response makes the entry ask it. */
  lemma NextServer(st: State, i: nat, from: nat)
    requires Inv(st) && i < TABLE_SIZE && st.table[i].phase.Asking? && EntryOk(st.table[i])
    requires from == st.servers[st.table[i].server] && Backup(st, st.table[i])
    ensures var e1 := st.table[i].(retries := RETRIES - 1, tmr := 1);
            && Due(e1) && Shape(Set(st, i, e1))
            && var e' := Check(Set(st, i, e1), i).table[i];
               e'.phase.Asking? && Asked(st.table[i], e')
  {
    hide Base, CalledBack;
    BaseParts(st);
    ReceiveEffect(st, i, from, ServerError);
  }

  /** An entry that did not ask before is asked for the first time. */
  lemma NewAsked(e: Entry, e': Entry, e1: Entry)
    requires !Live(e) && e1.phase.New?
    ensures Asked(e, e') <==> Due(e1) && e'.phase.Asking?
  {
  }

  /** A verdict on the packet for each entry's name. */
  function Verdicts(table: seq<Entry>, rest: Memory, p: Packet): (vs: seq<Verdict>)
    requires |p| >= HDR + QUERY
    ensures |vs| == |table|
  {
    seq(|table|, i requires 0 <= i < |table| => Judge(NameMemory(table[i].name, rest), p))
  }

  /** Request `r` has been served and is free; everyone told has been told the address of `v`, or of
      an error when it has none; and the entry knows the address for its time to live. */
  ghost predicate Resolved(st: State, st': State, i: nat, r: nat, v: Verdict)
    requires Shape(st) && i < TABLE_SIZE && Waits(st, r)
  {
    && Served(st, st', r) && |st'.requests| == REQUESTS && st'.requests[r].found.None?
    && (forall k :: |st.log| <= k < |st'.log| ==> st'.log[k].addr == if v.Address? then Some(v.bytes) else None)
    && |st'.table| == TABLE_SIZE
    && if v.Address? && v.ttl > 0 then st'.table[i] == st.table[i].(phase := Done, addr := v.bytes, ttl := Limited(v.ttl))
       else st'.table[i].phase.Unused?
  }

  /** From query to callback: a well-formed response to the query of entry `i`, from the server
      that was asked and with the name in any case, serves every request that waits for it, and
      with the first IPv4 address among its records, if it has one and reports no error. */
  lemma Resolves(st: State, i: nat, r: nat, rest: Memory, p: Packet, from: nat, flags1: byte, flags2: byte,
                 tail: seq<byte>, name: seq<byte>, rs: seq<Record>, more: seq<byte>)
    requires Inv(st) && i < TABLE_SIZE && st.table[i].phase.Asking? && Waits(st, r) && st.requests[r].entry == i
    requires EntryOk(st.table[i]) && from == st.servers[st.table[i].server]
    requires SameName(st.table[i].name, name) && |name| <= MAX_NAME && Plain(Labels(name))
    requires |rs| < 0x10000 && |tail| == 4 && AllOk(rs) && flags1 >= 0x80 && flags2 % 16 == 0 && |p| < NONE
    requires p == DnsMessage.Response(st.table[i].txid, flags1, flags2, tail, name, rs, more)
    ensures |p| >= HDR + QUERY
    ensures var st' := Next(st, Step.Response(Word(p, 0), from, Verdicts(st.table, rest, p)));
            Resolved(st, st', i, r, FirstAddress(rs))
  {
    hide Base, DnsMessage.Response, Judge, Labels, AllOk, Called, CallsFor, WaitsFor, Tally;
    BaseParts(st);
    var e, v := st.table[i], FirstAddress(rs);
    var addr := if v.Address? then Some(v.bytes) else None;
    ResponseUnderstood(NameMemory(e.name, rest), name, p, e.txid, flags1, flags2, tail, rs, more);
    OneMatch(st, e.txid, i);
    assert Verdicts(st.table, rest, p)[i] == v;
    FirstAddressKinds(rs);
    ReceiveEffect(st, i, from, v);
    CallFoundServes(st, i, addr, r);
    var st' := Receive(st, i, from, v);
    forall k | |st.log| <= k < |st'.log|
      ensures st'.log[k].addr == addr
    {
      NewCall(st, i, addr, st'.log, k);
    }
  }

  /** A response to the query of entry `i` that reports an error. Without a further server, everyone
      who waits is told at once, the requests are free and so is the entry. With one, everyone waits
      on, and the entry has begun to ask that server. */
  lemma ErrorResponse(st: State, i: nat, r: nat, rest: Memory, p: Packet, from: nat, flags1: byte, flags2: byte,
                      tail: seq<byte>, name: seq<byte>, rs: seq<Record>, more: seq<byte>)
    requires Inv(st) && i < TABLE_SIZE && st.table[i].phase.Asking? && Waits(st, r) && st.requests[r].entry == i
    requires EntryOk(st.table[i]) && from == st.servers[st.table[i].server]
    requires SameName(st.table[i].name, name) && |name| <= MAX_NAME && Plain(Labels(name))
    requires |rs| < 0x10000 && |tail| == 4 && AllOk(rs) && flags1 >= 0x80 && flags2 % 16 != 0 && |p| < NONE
    requires p == DnsMessage.Response(st.table[i].txid, flags1, flags2, tail, name, rs, more)
    ensures |p| >= HDR + QUERY
    ensures var st' := Next(st, Step.Response(Word(p, 0), from, Verdicts(st.table, rest, p)));
            var e := st.table[i];
            && Entries(st') && |st'.requests| == REQUESTS
            && if e.server + 1 < SERVERS && st.servers[e.server + 1] != ANY then
                 && st'.requests[r] == st.requests[r] && st'.log == st.log
                 && st'.table[i] == e.(server := e.server + 1, retries := 0, tmr := 1)
                 && Queries(st, st', TABLE_SIZE) == [Sent(st.servers[e.server + 1], (LabelsShort(e.name); Query(e.txid, e.name)))]
               else
                 && Served(st, st', r) && st'.requests[r].found.None? && st'.table[i].phase.Unused?
                 && (forall k :: |st.log| <= k < |st'.log| ==> st'.log[k].addr.None?)
                 && Queries(st, st', TABLE_SIZE) == []
  {
    hide Base, DnsMessage.Response, Judge, Labels, AllOk, Called, CallsFor, Tally, Query;
    BaseParts(st);
    var e := st.table[i];
    ResponseUnderstood(NameMemory(e.name, rest), name, p, e.txid, flags1, flags2, tail, rs, more);
    OneMatch(st, e.txid, i);
    assert Verdicts(st.table, rest, p)[i] == ServerError;
    ReceiveEffect(st, i, from, ServerError);
    ReceiveKeeps(st, i, from, ServerError);
    var st' := Receive(st, i, from, ServerError);
    BaseParts(st');
    OneAsked(st, st', i);
    if !Backup(st, e) {
      CallFoundServes(st, i, None, r);
    }
  }

  lemma {:induction false} FirstAddressKinds(rs: seq<Record>)
    ensures FirstAddress(rs).NoAddress? || FirstAddress(rs).Address?
  {
    if rs != [] {
      FirstAddressKinds(rs[1..]);
    }
  }

  lemma SlotIsFree(st: State)
    requires Shape(st)
    ensures Slot(st) < TABLE_SIZE ==> !Live(st.table[Slot(st)])
  {
  }

  lemma NextDraw(c: nat, drawn: nat, txid: nat)
    requires if drawn == 0 then txid == c else txid == Draw(c, drawn)
    ensures (txid + 1) % U16 == Draw(c, drawn + 1)
  {
    if drawn > 0 {
      DrawNext(c, drawn);
      var n := c + drawn;
      assert n == U16 * (n / U16) + txid;
      ModShift(txid + 1, n / U16);
    }
  }
}
