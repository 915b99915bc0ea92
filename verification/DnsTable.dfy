/**
 The resolver's tables (dns.c; IPv4 only, LWIP_DNS_SECURE_NO_MULTIPLE_OUTSTANDING, transaction
 ids from a counter): entries for names being asked or known, requests that wait for an entry,
 and the log of the callbacks made. Callbacks do not call the resolver again.
 */
module DnsTable {
  import opened Octets
  import opened Options
  import opened DnsName
  import opened DnsMessage

  const TABLE_SIZE: nat := 4
  const REQUESTS: nat := TABLE_SIZE
  const SERVERS: nat := 2
  const RETRIES: nat := 4
  const MAX_TTL: nat := 604800
  const U16: nat := 0x10000
  /** The address of a server that is not configured. */
  const ANY: nat := 0

  datatype Phase = Unused | New | Asking | Done

  datatype Entry = Entry(phase: Phase, txid: nat, server: nat, tmr: nat, retries: nat, seqno: nat,
                         ttl: nat, addr: seq<byte>, name: seq<byte>)

  /** `found` stands for a callback and its argument. */
  datatype Request = Request(found: Option<nat>, entry: nat)

  datatype Call = Call(found: nat, addr: Option<seq<byte>>)

  datatype State = State(table: seq<Entry>, requests: seq<Request>, servers: seq<nat>,
                         seqno: nat, txid: nat, log: seq<Call>)

  predicate Shape(st: State) {
    |st.table| == TABLE_SIZE && |st.requests| == REQUESTS && |st.servers| == SERVERS
  }

  // ----- transaction ids -----

  predicate Uses(e: Entry, t: nat) {
    e.phase.Asking? && e.txid == t
  }

  /** The ids of the queries under way. */
  function AskingIds(table: seq<Entry>): set<nat> {
    set i | 0 <= i < |table| && table[i].phase.Asking? :: table[i].txid
  }

  /** dns_create_txid: draw from the 16-bit counter until the id is not in use. */
  function FreeId(ids: set<nat>, counter: nat): nat {
    var t := (counter + 1) % U16;
    if t in ids then FreeId(ids - {t}, t) else t
  }

  /** The `k`-th draw from the counter. */
  function Draw(counter: nat, k: nat): nat {
    (counter + k) % U16
  }

  lemma DrawNext(counter: nat, k: nat)
    ensures Draw(Draw(counter, 1), k) == Draw(counter, k + 1)
    ensures 0 < k < U16 ==> Draw(counter, k + 1) != Draw(counter, 1)
  {
    var t := (counter + 1) % U16;
    assert counter + 1 == U16 * ((counter + 1) / U16) + t;
    ModShift(t + k, (counter + 1) / U16);
    assert k < U16 ==> (t + k) % U16 == if t + k >= U16 then t + k - U16 else t + k;
  }

  lemma ModShift(x: nat, q: nat)
    ensures (x + U16 * q) % U16 == x % U16
  {
  }

  /** It takes at most one draw more than there are ids in use, and gives the first free one. */
  lemma {:induction false} DrawsBounded(ids: set<nat>, counter: nat) returns (k: nat)
    ensures 1 <= k <= |ids| + 1 && FreeId(ids, counter) == Draw(counter, k)
    ensures forall j :: 1 <= j < k ==> Draw(counter, j) in ids
    ensures |ids| < U16 ==> FreeId(ids, counter) !in ids
    decreases |ids|
  {
    hide Draw;
    var t := FirstDraw(counter);
    if t in ids {
      var k' := DrawsBounded(ids - {t}, t);
      k := k' + 1;
      DrawNext(counter, k');
      forall j | 1 <= j < k
        ensures Draw(counter, j) in ids
      {
        if j > 1 {
          DrawNext(counter, j - 1);
        }
      }
    } else {
      k := 1;
    }
  }

  lemma FirstDraw(counter: nat) returns (t: nat)
    ensures t == (counter + 1) % U16 == Draw(counter, 1)
  {
    t := (counter + 1) % U16;
  }

  lemma FewIds(table: seq<Entry>)
    ensures |AskingIds(table)| <= |table|
  {
    if table != [] {
      var n := |table| - 1;
      FewIds(table[..n]);
      assert AskingIds(table) <= AskingIds(table[..n]) + {table[n].txid};
      Subset(AskingIds(table), AskingIds(table[..n]) + {table[n].txid});
    }
  }

  lemma {:induction false} Subset(a: set<nat>, b: set<nat>)
    requires a <= b
    ensures |a| <= |b|
    decreases |a|
  {
    if x :| x in a {
      Subset(a - {x}, b - {x});
    }
  }

  lemma FreshId(table: seq<Entry>, counter: nat)
    requires |table| == TABLE_SIZE
    ensures FreeId(AskingIds(table), counter) < U16
    ensures forall i :: 0 <= i < |table| ==> !Uses(table[i], FreeId(AskingIds(table), counter))
  {
    FewIds(table);
    var k := DrawsBounded(AskingIds(table), counter);
  }

  // ----- the operations -----

  /** The calls that dns_call_found makes for entry `i`, in order. */
  function CallsFor(requests: seq<Request>, i: nat, addr: Option<seq<byte>>): seq<Call> {
    if requests == [] then []
    else
      (if requests[0].found.Some? && requests[0].entry == i then [Call(requests[0].found.value, addr)] else [])
      + CallsFor(requests[1..], i, addr)
  }

  function Answered(r: Request, i: nat): Request {
    if r.entry == i then r.(found := None) else r
  }

  function Cleared(requests: seq<Request>, i: nat): (rs: seq<Request>)
    ensures |rs| == |requests|
    ensures forall k :: 0 <= k < |rs| ==> rs[k] == Answered(requests[k], i)
  {
    if requests == [] then [] else [Answered(requests[0], i)] + Cleared(requests[1..], i)
  }

  /** dns_call_found */
  function CallFound(st: State, i: nat, addr: Option<seq<byte>>): State {
    st.(log := st.log + CallsFor(st.requests, i, addr), requests := Cleared(st.requests, i))
  }

  /** The entry `i` set to `e`. */
  function Set(st: State, i: nat, e: Entry): State
    requires i < |st.table|
  {
    st.(table := st.table[i := e])
  }

  /** Call back with an error and drop the entry. */
  function Fail(st: State, i: nat): State
    requires i < |st.table|
  {
    Set(CallFound(st, i, None), i, st.table[i].(phase := Unused))
  }

  /** dns_send, as far as the tables are concerned: a server that is gone ends the query. */
  function Send(st: State, i: nat): State
    requires Shape(st) && i < TABLE_SIZE && st.table[i].server < SERVERS
  {
    if st.servers[st.table[i].server] == ANY then Fail(st, i) else st
  }

  predicate Backup(st: State, e: Entry)
    requires Shape(st)
  {
    e.server + 1 < SERVERS && st.servers[e.server + 1] != ANY
  }

  /** Subtraction and addition on u8_t. */
  function Minus1(n: nat): nat { (n + 255) % 256 }
  function Plus1(n: nat): nat { (n + 1) % 256 }

  /** dns_check_entry */
  function Check(st: State, i: nat): State
    requires Shape(st) && i < TABLE_SIZE && st.table[i].server < SERVERS
  {
    var e := st.table[i];
    match e.phase
    case New =>
      var t := FreeId(AskingIds(st.table), st.txid);
      Send(Set(st, i, e.(txid := t, phase := Asking, server := 0, tmr := 1, retries := 0)).(txid := t), i)
    case Asking =>
      var e1 := e.(tmr := Minus1(e.tmr));
      if e1.tmr != 0 then Set(st, i, e1)
      else
        var e2 := e1.(retries := Plus1(e1.retries));
        if e2.retries == RETRIES then
          if Backup(st, e2) then Send(Set(st, i, e2.(server := e2.server + 1, tmr := 1, retries := 0)), i)
          else Fail(Set(st, i, e2), i)
        else Send(Set(st, i, e2.(tmr := e2.retries)), i)
    case Done =>
      if e.ttl == 0 then Set(st, i, e.(phase := Unused))
      else if e.ttl == 1 then Set(st, i, e.(ttl := 0, phase := Unused))
      else Set(st, i, e.(ttl := e.ttl - 1))
    case Unused => st
  }

  /** dns_recv once the response has been judged for the entry `i` that asked with its id. */
  function Receive(st: State, i: nat, from: nat, v: Verdict): State
    requires Shape(st) && i < TABLE_SIZE && st.table[i].server < SERVERS
  {
    var e := st.table[i];
    if from != st.servers[e.server] then st
    else
      match v
      case Ignore => st
      case NoAddress => Fail(st, i)
      case ServerError =>
        if Backup(st, e) then Check(Set(st, i, e.(retries := RETRIES - 1, tmr := 1)), i) else Fail(st, i)
      case Address(bytes, ttl) =>
        var t := if ttl > MAX_TTL then MAX_TTL else ttl;
        var e' := e.(addr := bytes, phase := Done, ttl := t);
        Set(CallFound(st, i, Some(bytes)), i, if t == 0 then e'.(phase := Unused) else e')
  }

  /** The first entry that asked with id `t`, or TABLE_SIZE. */
  function Match(table: seq<Entry>, t: nat): (i: nat)
    ensures i <= |table| && (i < |table| ==> Uses(table[i], t)) && forall j :: 0 <= j < i ==> !Uses(table[j], t)
  {
    if table == [] || Uses(table[0], t) then 0 else 1 + Match(table[1..], t)
  }

  /** lwip_strnicmp over the name and its end. */
  predicate SameName(a: seq<byte>, b: seq<byte>) {
    |a| == |b| > 0 && forall k :: 0 <= k < |a| ==> Lower(a[k]) == Lower(b[k])
  }

  predicate Duplicate(e: Entry, name: seq<byte>) {
    e.phase.Asking? && SameName(e.name, name)
  }

  function FirstDuplicate(table: seq<Entry>, name: seq<byte>): (i: nat)
    ensures i <= |table| && (i < |table| ==> Duplicate(table[i], name))
    ensures forall j :: 0 <= j < i ==> !Duplicate(table[j], name)
  {
    if table == [] || Duplicate(table[0], name) then 0 else 1 + FirstDuplicate(table[1..], name)
  }

  function FirstFree(requests: seq<Request>): (r: nat)
    ensures r <= |requests| && (r < |requests| ==> requests[r].found.None?)
    ensures forall j :: 0 <= j < r ==> requests[j].found.Some?
  {
    if requests == [] || requests[0].found.None? then 0 else 1 + FirstFree(requests[1..])
  }

  function FirstUnused(table: seq<Entry>): (i: nat)
    ensures i <= |table| && (i < |table| ==> table[i].phase.Unused?)
    ensures forall j :: 0 <= j < i ==> !table[j].phase.Unused?
  {
    if table == [] || table[0].phase.Unused? then 0 else 1 + FirstUnused(table[1..])
  }

  /** The age of an entry in an 8-bit sequence number. */
  function Age(e: Entry, seqno: nat): nat {
    (seqno + 256 - e.seqno % 256) % 256
  }

  /** A completed entry can be replaced unless its age has come round to zero. */
  predicate Replaceable(e: Entry, seqno: nat) {
    e.phase.Done? && Age(e, seqno) > 0
  }

  /** Entry `i` is the first of the oldest completed ones, or there is none and it is TABLE_SIZE. */
  predicate Oldest(table: seq<Entry>, seqno: nat, i: nat) {
    if i < |table| then
      && Replaceable(table[i], seqno)
      && (forall j :: 0 <= j < i && Replaceable(table[j], seqno) ==> Age(table[j], seqno) < Age(table[i], seqno))
      && (forall j :: i < j < |table| && Replaceable(table[j], seqno) ==> Age(table[j], seqno) <= Age(table[i], seqno))
    else i == |table| && forall j :: 0 <= j < |table| ==> !Replaceable(table[j], seqno)
  }

  /** The search of dns_enqueue: the first of the oldest entries so far. */
  function OldestOf(table: seq<Entry>, seqno: nat): (i: nat)
    ensures Oldest(table, seqno, i)
  {
    if table == [] then 0
    else
      var n := |table| - 1;
      var i := OldestOf(table[..n], seqno);
      if !Replaceable(table[n], seqno) then if i == n then n + 1 else i
      else if i < n && Age(table[n], seqno) <= Age(table[i], seqno) then i
      else n
  }

  /** The entry for a new name, or TABLE_SIZE. */
  function Slot(st: State): (i: nat)
    ensures i <= |st.table|
  {
    var i := FirstUnused(st.table);
    if i < |st.table| then i else OldestOf(st.table, st.seqno)
  }

  function Cut(name: seq<byte>): seq<byte> {
    if |name| > MAX_NAME then name[..MAX_NAME] else name
  }

  /** A new entry and its request, before the query is sent. */
  function Entered(st: State, i: nat, r: nat, name: seq<byte>, found: Option<nat>): State
    requires i < |st.table| && r < |st.requests|
  {
    Set(st, i, st.table[i].(phase := New, seqno := st.seqno, name := name))
      .(requests := st.requests[r := Request(found, i)], seqno := Plus1(st.seqno))
  }

  /** dns_enqueue; the result tells whether it returns ERR_INPROGRESS (or else ERR_MEM). */
  function Enqueue(st: State, fullName: seq<byte>, found: Option<nat>): (State, bool)
    requires Shape(st) && forall i :: 0 <= i < TABLE_SIZE ==> st.table[i].server < SERVERS
  {
    var name := Cut(fullName);
    var d, r := FirstDuplicate(st.table, name), FirstFree(st.requests);
    if r == REQUESTS then (st, false)
    else if d < TABLE_SIZE then (st.(requests := st.requests[r := Request(found, d)]), true)
    else
      var i := Slot(st);
      if i == TABLE_SIZE then (st, false)
      else (Check(Entered(st, i, r, name, found), i), true)
  }

  // ----- what every step keeps -----

  /** A query under way counts its timer and its retries within bounds. */
  predicate EntryOk(e: Entry) {
    && e.server < SERVERS && |e.name| <= MAX_NAME
    && (e.phase.Asking? ==> e.retries < RETRIES && 1 <= e.tmr && (e.tmr == 1 || e.tmr <= e.retries) && e.txid < U16)
  }

  /** An entry that requests may wait for. */
  predicate Live(e: Entry) {
    e.phase.New? || e.phase.Asking?
  }

  /** A request that waits. */
  predicate Waits(st: State, r: nat) {
    r < |st.requests| && st.requests[r].found.Some?
  }

  predicate DistinctIds(table: seq<Entry>) {
    forall i, j :: 0 <= i < j < |table| && table[i].phase.Asking? && table[j].phase.Asking? ==> table[i].txid != table[j].txid
  }

  predicate Base(st: State) {
    && Shape(st)
    && (forall i :: 0 <= i < TABLE_SIZE ==> EntryOk(st.table[i]))
    && (forall r :: 0 <= r < REQUESTS && Waits(st, r) ==> st.requests[r].entry < TABLE_SIZE && Live(st.table[st.requests[r].entry]))
    && DistinctIds(st.table)
  }

  /** Between two steps no entry is new: its query has been sent. */
  predicate Inv(st: State) {
    Base(st) && forall i :: 0 <= i < TABLE_SIZE ==> !st.table[i].phase.New?
  }

  /** Only entry `i` has changed, and it is not new. */
  predicate OnlyEntry(st: State, st': State, i: nat) {
    |st'.table| == |st.table| && i < |st.table| && st'.servers == st.servers && !st'.table[i].phase.New?
    && forall j :: 0 <= j < |st.table| && j != i ==> st'.table[j] == st.table[j]
  }

  lemma SetKeeps(st: State, i: nat, e: Entry)
    requires Base(st) && i < TABLE_SIZE && EntryOk(e) && (Live(st.table[i]) ==> Live(e))
    requires e.phase.Asking? ==> forall j :: 0 <= j < TABLE_SIZE && j != i ==> !Uses(st.table[j], e.txid)
    ensures Base(Set(st, i, e))
  {
  }

  lemma FailKeeps(st: State, i: nat)
    requires Base(st) && i < TABLE_SIZE
    ensures Base(Fail(st, i)) && OnlyEntry(st, Fail(st, i), i)
  {
  }

  lemma SendKeeps(st: State, i: nat)
    requires Base(st) && i < TABLE_SIZE && st.table[i].phase.Asking?
    ensures Base(Send(st, i)) && OnlyEntry(st, Send(st, i), i)
  {
    FailKeeps(st, i);
  }

  lemma NoneElse(st: State, i: nat)
    requires Base(st) && i < TABLE_SIZE && st.table[i].phase.Asking?
    ensures forall j :: 0 <= j < TABLE_SIZE && j != i ==> !Uses(st.table[j], st.table[i].txid)
  {
  }

  lemma CheckKeeps(st: State, i: nat)
    requires Base(st) && i < TABLE_SIZE
    ensures Base(Check(st, i)) && OnlyEntry(st, Check(st, i), i)
  {
    hide Base, Send, Fail, FreeId;
    BaseParts(st);
    var e := st.table[i];
    match e.phase
    case New =>
      FreshId(st.table, st.txid);
      var t := FreeId(AskingIds(st.table), st.txid);
      var e1 := e.(txid := t, phase := Asking, server := 0, tmr := 1, retries := 0);
      SetKeeps(st, i, e1);
      var st1 := Set(st, i, e1);
      CounterIrrelevant(st1, t);
      SendKeeps(st1.(txid := t), i);
    case Asking =>
      NoneElse(st, i);
      var e1 := e.(tmr := Minus1(e.tmr));
      var e2 := e1.(retries := Plus1(e1.retries));
      if e1.tmr != 0 {
        SetKeeps(st, i, e1);
      } else if e2.retries == RETRIES {
        if Backup(st, e2) {
          var e3 := e2.(server := e2.server + 1, tmr := 1, retries := 0);
          SetKeeps(st, i, e3);
          SendKeeps(Set(st, i, e3), i);
        } else {
          SetThenFail(st, i, e2);
        }
      } else {
        var e3 := e2.(tmr := e2.retries);
        SetKeeps(st, i, e3);
        SendKeeps(Set(st, i, e3), i);
      }
    case Done =>
      SetKeeps(st, i, e.(phase := Unused));
      SetKeeps(st, i, e.(ttl := 0, phase := Unused));
      if e.ttl > 1 {
        SetKeeps(st, i, e.(ttl := e.ttl - 1));
      }
    case Unused =>
  }

  lemma BaseParts(st: State)
    requires Base(st)
    ensures Shape(st) && forall i :: 0 <= i < TABLE_SIZE ==> EntryOk(st.table[i])
  {
  }

  lemma CounterIrrelevant(st: State, t: nat)
    ensures Base(st.(txid := t)) <==> Base(st)
  {
  }

  /** What an entry was before it fails does not matter. */
  lemma SetThenFail(st: State, i: nat, e: Entry)
    requires Base(st) && i < TABLE_SIZE && e.server < SERVERS && |e.name| <= MAX_NAME
    ensures Base(Fail(Set(st, i, e), i)) && OnlyEntry(st, Fail(Set(st, i, e), i), i)
  {
    var st1 := Set(st, i, e);
    assert Fail(st1, i) == Set(Fail(st, i), i, e.(phase := Unused)) by {
      assert Fail(st1, i).table == Set(Fail(st, i), i, e.(phase := Unused)).table;
    }
    FailKeeps(st, i);
    SetKeeps(Fail(st, i), i, e.(phase := Unused));
  }

  // ----- runs -----

  datatype Step =
    | Tick
    | Ask(name: seq<byte>, found: Option<nat>)
    | Response(txid: nat, from: nat, verdicts: seq<Verdict>)
    | SetServer(n: nat, addr: nat)

  /** dns_check_entries from entry `i` on. */
  function Checks(st: State, i: nat): State
    requires Base(st) && i <= TABLE_SIZE
    decreases TABLE_SIZE - i
  {
    if i == TABLE_SIZE then st
    else
      CheckKeeps(st, i);
      Checks(Check(st, i), i + 1)
  }

  /** A response is judged for the entry whose id it bears: `verdicts` says how for each entry. */
  predicate StepOk(a: Step) {
    a.Response? ==> |a.verdicts| == TABLE_SIZE
  }

  function Next(st: State, a: Step): State
    requires Base(st) && StepOk(a)
  {
    match a
    case Tick => Checks(st, 0)
    case Ask(name, found) => Enqueue(st, name, found).0
    case Response(txid, from, verdicts) =>
      var i := Match(st.table, txid);
      if i < TABLE_SIZE then Receive(st, i, from, verdicts[i]) else st
    case SetServer(n, addr) => if n < SERVERS then st.(servers := st.servers[n := addr]) else st
  }

  lemma {:induction false} ChecksKeep(st: State, i: nat)
    requires Base(st) && i <= TABLE_SIZE && forall j :: 0 <= j < TABLE_SIZE ==> !st.table[j].phase.New?
    ensures Inv(Checks(st, i)) && Checks(st, i).servers == st.servers
    decreases TABLE_SIZE - i
  {
    hide Check;
    if i < TABLE_SIZE {
      CheckKeeps(st, i);
      ChecksKeep(Check(st, i), i + 1);
    }
  }

  lemma ReceiveKeeps(st: State, i: nat, from: nat, v: Verdict)
    requires Inv(st) && i < TABLE_SIZE && st.table[i].phase.Asking?
    ensures Inv(Receive(st, i, from, v)) && OnlyEntry(st, Receive(st, i, from, v), i)
  {
    hide Base, Check, Fail;
    BaseParts(st);
    var e := st.table[i];
    match v
    case ServerError =>
      var e' := e.(retries := RETRIES - 1, tmr := 1);
      if Backup(st, e) {
        NoneElse(st, i);
        SetKeeps(st, i, e');
        CheckKeeps(Set(st, i, e'), i);
      } else {
        FailKeeps(st, i);
      }
    case NoAddress => FailKeeps(st, i);
    case Ignore =>
    case Address(bytes, ttl) =>
      var t := if ttl > MAX_TTL then MAX_TTL else ttl;
      AnswerKeeps(st, i, Some(bytes), e.(addr := bytes, phase := if t == 0 then Unused else Done, ttl := t));
  }

  lemma AnswerKeeps(st: State, i: nat, addr: Option<seq<byte>>, e: Entry)
    requires Base(st) && i < TABLE_SIZE && e.server < SERVERS && |e.name| <= MAX_NAME && !Live(e)
    ensures Base(Set(CallFound(st, i, addr), i, e))
  {
  }

  lemma EnteredKeeps(st: State, i: nat, r: nat, name: seq<byte>, found: Option<nat>)
    requires Base(st) && i < TABLE_SIZE && r < REQUESTS && !Live(st.table[i]) && |name| <= MAX_NAME
    ensures Base(Entered(st, i, r, name, found))
  {
  }

  lemma EnqueueKeeps(st: State, name: seq<byte>, found: Option<nat>)
    requires Inv(st)
    ensures Inv(Enqueue(st, name, found).0) && Enqueue(st, name, found).0.servers == st.servers
  {
    hide Check, Entered;
    var d, r, i := FirstDuplicate(st.table, Cut(name)), FirstFree(st.requests), Slot(st);
    if r < REQUESTS && d == TABLE_SIZE && i < TABLE_SIZE {
      EnteredKeeps(st, i, r, Cut(name), found);
      EnteredOnly(st, i, r, Cut(name), found);
      CheckKeeps(Entered(st, i, r, Cut(name), found), i);
    }
  }

  lemma EnteredOnly(st: State, i: nat, r: nat, name: seq<byte>, found: Option<nat>)
    requires Shape(st) && i < TABLE_SIZE && r < REQUESTS
    ensures var st' := Entered(st, i, r, name, found);
            && st'.servers == st.servers && st'.log == st.log && Shape(st')
            && st'.requests == st.requests[r := Request(found, i)] && st'.table[i].phase.New?
            && forall j :: 0 <= j < TABLE_SIZE && j != i ==> st'.table[j] == st.table[j]
  {
  }

  /** Every step keeps the tables consistent: requests wait for live entries only, ids of queries
      under way differ, timers stay within their bounds, and every new query has been sent. */
  lemma StepKeeps(st: State, a: Step)
    requires Inv(st) && StepOk(a)
    ensures Inv(Next(st, a))
  {
    hide Base, Checks, Receive, Enqueue;
    match a
    case Tick => ChecksKeep(st, 0);
    case Ask(name, found) => EnqueueKeeps(st, name, found);
    case Response(txid, from, verdicts) =>
      var i := Match(st.table, txid);
      if i < TABLE_SIZE {
        BaseParts(st);
        ReceiveKeeps(st, i, from, verdicts[i]);
      }
    case SetServer(n, addr) =>
      if n < SERVERS {
        ServerKeeps(st, n, addr);
      }
  }

  lemma ServerKeeps(st: State, n: nat, addr: nat)
    requires Base(st) && n < SERVERS
    ensures Base(st.(servers := st.servers[n := addr]))
  {
  }

  /** A response bears the id of at most one query under way, and that is the one it is matched to. */
  lemma OneMatch(st: State, t: nat, i: nat)
    requires Inv(st) && i < TABLE_SIZE && Uses(st.table[i], t)
    ensures Match(st.table, t) == i
    ensures forall j :: 0 <= j < TABLE_SIZE && Uses(st.table[j], t) ==> j == i
  {
    var j := Match(st.table, t);
  }

  // ----- callbacks: conservation -----

  function Pending(requests: seq<Request>, id: nat): nat {
    if requests == [] then 0 else (if requests[0].found == Some(id) then 1 else 0) + Pending(requests[1..], id)
  }

  function Called(log: seq<Call>, id: nat): nat {
    if log == [] then 0 else (if log[0].found == id then 1 else 0) + Called(log[1..], id)
  }

  /** How often the callback `id` has been made or is still to be made. */
  function Tally(st: State, id: nat): nat {
    Pending(st.requests, id) + Called(st.log, id)
  }

  lemma {:induction false} CalledAppend(a: seq<Call>, b: seq<Call>, id: nat)
    ensures Called(a + b, id) == Called(a, id) + Called(b, id)
  {
    if a == [] {
      assert a + b == b;
    } else {
      assert (a + b)[0] == a[0] && (a + b)[1..] == a[1..] + b;
      CalledAppend(a[1..], b, id);
    }
  }

  lemma {:induction false} ClearedTally(requests: seq<Request>, i: nat, addr: Option<seq<byte>>, id: nat)
    ensures Pending(Cleared(requests, i), id) + Called(CallsFor(requests, i, addr), id) == Pending(requests, id)
  {
    if requests != [] {
      var r := requests[0];
      ClearedTally(requests[1..], i, addr, id);
      var head := if r.found.Some? && r.entry == i then [Call(r.found.value, addr)] else [];
      CalledAppend(head, CallsFor(requests[1..], i, addr), id);
      assert Cleared(requests, i)[1..] == Cleared(requests[1..], i);
      assert head != [] ==> head[1..] == [];
    }
  }

  lemma {:induction false} PendingUpdate(requests: seq<Request>, r: nat, q: Request, id: nat)
    requires r < |requests|
    ensures Pending(requests[r := q], id)
            == Pending(requests, id) - (if requests[r].found == Some(id) then 1 else 0) + (if q.found == Some(id) then 1 else 0)
    decreases r
  {
    var next := requests[r := q];
    if r == 0 {
      assert next[1..] == requests[1..];
    } else {
      assert next[0] == requests[0] && next[1..] == requests[1..][r - 1 := q];
      PendingUpdate(requests[1..], r - 1, q, id);
    }
  }

  lemma CallFoundTally(st: State, i: nat, addr: Option<seq<byte>>, id: nat)
    ensures Tally(CallFound(st, i, addr), id) == Tally(st, id)
  {
    ClearedTally(st.requests, i, addr, id);
    CalledAppend(st.log, CallsFor(st.requests, i, addr), id);
  }

  lemma CheckTally(st: State, i: nat, id: nat)
    requires Shape(st) && i < TABLE_SIZE && st.table[i].server < SERVERS
    ensures Tally(Check(st, i), id) == Tally(st, id)
  {
    hide Tally, CallFound, FreeId;
    var e := st.table[i];
    var t := FreeId(AskingIds(st.table), st.txid);
    SameTally(st, i, id);
    SameTally(Set(st, i, e.(txid := t, phase := Asking, server := 0, tmr := 1, retries := 0)).(txid := t), i, id);
    var e2 := e.(tmr := Minus1(e.tmr), retries := Plus1(e.retries));
    SameTally(Set(st, i, e2), i, id);
    SameTally(Set(st, i, e2.(tmr := e2.retries)), i, id);
    SameTally(Set(st, i, e2.(server := e2.server + 1, tmr := 1, retries := 0)), i, id);
    TallyParts(st, id);
  }

  /** The tally does not depend on the table. */
  lemma TallyParts(st: State, id: nat)
    ensures forall s: State :: s.requests == st.requests && s.log == st.log ==> Tally(s, id) == Tally(st, id)
  {
  }

  lemma SameTally(st: State, i: nat, id: nat)
    requires i < |st.table|
    ensures Tally(Fail(st, i), id) == Tally(st, id)
  {
    CallFoundTally(st, i, None, id);
  }

  lemma ReceiveTally(st: State, i: nat, from: nat, v: Verdict, id: nat)
    requires Shape(st) && i < TABLE_SIZE && st.table[i].server < SERVERS
    ensures Tally(Receive(st, i, from, v), id) == Tally(st, id)
  {
    hide Check, Tally, CallFound;
    var e := st.table[i];
    TallyParts(st, id);
    match v
    case ServerError =>
      CheckTally(Set(st, i, e.(retries := RETRIES - 1, tmr := 1)), i, id);
      SameTally(st, i, id);
    case NoAddress => SameTally(st, i, id);
    case Ignore =>
    case Address(bytes, _) =>
      CallFoundTally(st, i, Some(bytes), id);
      TallyParts(CallFound(st, i, Some(bytes)), id);
  }

  lemma EnqueueTally(st: State, name: seq<byte>, found: Option<nat>, id: nat)
    requires Base(st)
    ensures var (st', ok) := Enqueue(st, name, found);
            Tally(st', id) == Tally(st, id) + if ok && found == Some(id) then 1 else 0
  {
    hide Base, Check, Entered;
    BaseParts(st);
    var d, r, i := FirstDuplicate(st.table, Cut(name)), FirstFree(st.requests), Slot(st);
    if r < REQUESTS {
      PendingUpdate(st.requests, r, Request(found, d), id);
      PendingUpdate(st.requests, r, Request(found, i), id);
      if d == TABLE_SIZE && i < TABLE_SIZE {
        EnteredOnly(st, i, r, Cut(name), found);
        EnteredServer(st, i, r, Cut(name), found);
        CheckTally(Entered(st, i, r, Cut(name), found), i, id);
      }
    }
  }

  lemma EnteredServer(st: State, i: nat, r: nat, name: seq<byte>, found: Option<nat>)
    requires i < |st.table| && r < |st.requests|
    ensures Entered(st, i, r, name, found).table[i].server == st.table[i].server
  {
  }

  /** Whether the step is a call with callback `id` that returns ERR_INPROGRESS. */
  predicate Accepts(st: State, a: Step, id: nat)
    requires Base(st)
  {
    a.Ask? && a.found == Some(id) && Enqueue(st, a.name, a.found).1
  }

  /** Conservation of callbacks: made and outstanding ones together are those accepted. */
  lemma StepTally(st: State, a: Step, id: nat)
    requires Inv(st) && StepOk(a)
    ensures Tally(Next(st, a), id) == Tally(st, id) + if Accepts(st, a, id) then 1 else 0
  {
    hide Base, Checks, Receive, Enqueue;
    BaseParts(st);
    match a
    case Tick => ChecksReport(st, 0, id);
    case Ask(name, found) => EnqueueTally(st, name, found, id);
    case Response(txid, from, verdicts) =>
      var i := Match(st.table, txid);
      if i < TABLE_SIZE {
        ReceiveTally(st, i, from, verdicts[i], id);
      }
    case SetServer(_, _) => TallyParts(st, id);
  }

  // ----- callbacks: the deadline -----

  /** Ticks that one server is given: 1 and then 1, 2, up to RETRIES - 1. */
  const PER_SERVER: nat := 1 + RETRIES * (RETRIES - 1) / 2
  /** 14 with two servers and four retries. */
  const DEADLINE: nat := SERVERS * PER_SERVER

  /** The waiting times of the retries after the first `k`. */
  function Retrying(k: nat): nat
    decreases RETRIES - k
  {
    if k + 1 >= RETRIES then 0 else k + 1 + Retrying(k + 1)
  }

  /** The ticks that a live entry has left, if every server is there and none answers. */
  function Left(e: Entry): nat {
    if e.phase.New? then 1 + DEADLINE
    else if e.server >= SERVERS then 0
    else e.tmr + Retrying(e.retries) + PER_SERVER * (SERVERS - 1 - e.server)
  }

  lemma RetryingSum()
    ensures 1 + Retrying(0) == PER_SERVER
    ensures forall k :: 0 <= k < RETRIES - 1 ==> Retrying(k) == k + 1 + Retrying(k + 1)
    ensures Retrying(RETRIES - 1) == 0
  {
    assert Retrying(0) == 1 + Retrying(1);
    assert Retrying(1) == 2 + Retrying(2);
    assert Retrying(2) == 3 + Retrying(3);
  }

  lemma LeftBounds(e: Entry)
    requires EntryOk(e) && e.phase.Asking?
    ensures 1 <= Left(e) <= DEADLINE
  {
    RetryingSum();
    assert e.retries > 0 ==> Retrying(e.retries) + e.retries <= Retrying(0) by {
      assert Retrying(0) == 1 + Retrying(1);
      assert Retrying(1) == 2 + Retrying(2);
      assert Retrying(2) == 3 + Retrying(3);
    }
    assert PER_SERVER * (SERVERS - 1 - e.server) <= PER_SERVER * (SERVERS - 1);
  }

  /** Request `r` waits on for the same entry and name, which has at most `left` ticks left. */
  predicate StillWaits(st: State, st': State, r: nat, left: int)
    requires Waits(st, r)
  {
    && r < |st'.requests| && st'.requests[r] == st.requests[r] && st.requests[r].entry < |st'.table|
    && Live(st'.table[st.requests[r].entry]) && Left(st'.table[st.requests[r].entry]) <= left
    && st.requests[r].entry < |st.table| && st'.table[st.requests[r].entry].name == st.table[st.requests[r].entry].name
  }

  /** The callback of request `r` has been made. */
  predicate Served(st: State, st': State, r: nat)
    requires Waits(st, r)
  {
    Called(st'.log, st.requests[r].found.value) > Called(st.log, st.requests[r].found.value)
  }

  function LeftOf(st: State, r: nat): nat
    requires Base(st) && Waits(st, r)
  {
    Left(st.table[st.requests[r].entry])
  }

  lemma {:induction false} CallsServe(requests: seq<Request>, i: nat, addr: Option<seq<byte>>, r: nat)
    requires r < |requests| && requests[r].found.Some? && requests[r].entry == i
    ensures Called(CallsFor(requests, i, addr), requests[r].found.value) > 0
    decreases r
  {
    var q := requests[0];
    var head := if q.found.Some? && q.entry == i then [Call(q.found.value, addr)] else [];
    CalledAppend(head, CallsFor(requests[1..], i, addr), requests[r].found.value);
    if r > 0 {
      CallsServe(requests[1..], i, addr, r - 1);
    }
  }

  lemma CallFoundServes(st: State, i: nat, addr: Option<seq<byte>>, r: nat)
    requires Waits(st, r) && st.requests[r].entry == i
    ensures Served(st, CallFound(st, i, addr), r)
  {
    CallsServe(st.requests, i, addr, r);
    CalledAppend(st.log, CallsFor(st.requests, i, addr), st.requests[r].found.value);
  }

  /** Calls of dns_call_found leave the requests for other entries alone. */
  lemma OthersWait(st: State, i: nat, r: nat)
    requires Base(st) && Waits(st, r) && st.requests[r].entry != i && i < TABLE_SIZE
    ensures r < |Check(st, i).requests| && Check(st, i).requests[r] == st.requests[r]
  {
    hide FreeId, AskingIds;
  }

  /** A check of its entry brings a request one tick nearer to its callback. */
  lemma CheckServes(st: State, i: nat, r: nat)
    requires Base(st) && Waits(st, r) && st.requests[r].entry == i
    ensures var st' := Check(st, i); Served(st, st', r) || StillWaits(st, st', r, LeftOf(st, r) - 1)
  {
    hide CallFound, FreeId, AskingIds, Retrying, Called, Base;
    BaseParts(st);
    WaitsForLive(st, r);
    var e := st.table[i];
    CallFoundServes(st, i, None, r);
    CallFoundTable(st, i, None);
    RetryingSum();
  }

  lemma WaitsForLive(st: State, r: nat)
    requires Base(st) && Waits(st, r)
    ensures st.requests[r].entry < TABLE_SIZE && Live(st.table[st.requests[r].entry])
  {
  }

  lemma CallFoundTable(st: State, i: nat, addr: Option<seq<byte>>)
    ensures forall s: State :: s.requests == st.requests && s.log == st.log ==>
              CallFound(s, i, addr).log == CallFound(st, i, addr).log
  {
  }

  /** `st'` has made the callbacks of `st` and perhaps more. */
  predicate Grows(st: State, st': State) {
    |st.log| <= |st'.log| && st'.log[..|st.log|] == st.log
  }

  lemma GrowsCalled(st: State, st': State, id: nat)
    requires Grows(st, st')
    ensures Called(st.log, id) <= Called(st'.log, id)
  {
    assert st'.log == st.log + st'.log[|st.log|..];
    CalledAppend(st.log, st'.log[|st.log|..], id);
  }

  lemma CheckGrows(st: State, i: nat)
    requires Shape(st) && i < TABLE_SIZE && st.table[i].server < SERVERS
    ensures Grows(st, Check(st, i))
  {
    hide FreeId, AskingIds, CallsFor, Cleared;
  }

  lemma {:induction false} ChecksServe(st: State, i: nat, r: nat)
    requires Base(st) && i <= TABLE_SIZE && Waits(st, r)
    ensures var st' := Checks(st, i);
            && Grows(st, st')
            && (Served(st, st', r) || StillWaits(st, st', r, LeftOf(st, r) - if st.requests[r].entry >= i then 1 else 0))
    decreases TABLE_SIZE - i
  {
    hide Check, Left, Called, Base;
    WaitsForLive(st, r);
    BaseParts(st);
    if i < TABLE_SIZE {
      var st1 := Check(st, i);
      CheckKeeps(st, i);
      CheckGrows(st, i);
      if st.requests[r].entry == i {
        CheckServes(st, i, r);
      } else {
        OthersWait(st, i, r);
      }
      if StillWaits(st, st1, r, LeftOf(st, r)) {
        ChecksServe(st1, i + 1, r);
      } else {
        ChecksReport(st1, i + 1, st.requests[r].found.value);
      }
      GrowsCalled(st1, Checks(st1, i + 1), st.requests[r].found.value);
      GrowsCalled(st, st1, st.requests[r].found.value);
    }
  }

  /** A response serves the requests of its entry or brings them no further from their callbacks. */
  lemma ReceiveServes(st: State, i: nat, from: nat, v: Verdict, r: nat)
    requires Inv(st) && i < TABLE_SIZE && st.table[i].phase.Asking? && Waits(st, r)
    ensures var st' := Receive(st, i, from, v);
            Grows(st, st') && (Served(st, st', r) || StillWaits(st, st', r, LeftOf(st, r)))
  {
    hide Check, Called, Retrying, Base, CallsFor;
    WaitsForLive(st, r);
    BaseParts(st);
    var e := st.table[i];
    var e' := e.(retries := RETRIES - 1, tmr := 1);
    var own := st.requests[r].entry == i;
    match v
    case Ignore =>
    case NoAddress =>
      if own {
        CallFoundServes(st, i, None, r);
      }
    case Address(bytes, _) =>
      if own {
        CallFoundServes(st, i, Some(bytes), r);
      }
    case ServerError =>
      if own {
        CallFoundServes(st, i, None, r);
      }
      if Backup(st, e) {
        var st1 := Set(st, i, e');
        NoneElse(st, i);
        SetKeeps(st, i, e');
        CheckGrows(st1, i);
        CheckKeeps(st1, i);
        RetryingSum();
        if own {
          CheckServes(st1, i, r);
        } else {
          OthersWait(st1, i, r);
        }
      }
  }

  lemma EnqueueServes(st: State, name: seq<byte>, found: Option<nat>, r: nat)
    requires Inv(st) && Waits(st, r)
    ensures var st' := Enqueue(st, name, found).0; Grows(st, st') && StillWaits(st, st', r, LeftOf(st, r))
  {
    hide Check, Entered, Left, Base;
    WaitsForLive(st, r);
    BaseParts(st);
    var q, i := FirstFree(st.requests), Slot(st);
    if q < REQUESTS && FirstDuplicate(st.table, Cut(name)) == TABLE_SIZE && i < TABLE_SIZE {
      var st1 := Entered(st, i, q, Cut(name), found);
      EnteredKeeps(st, i, q, Cut(name), found);
      EnteredOnly(st, i, q, Cut(name), found);
      EnteredServer(st, i, q, Cut(name), found);
      CheckGrows(st1, i);
      CheckKeeps(st1, i);
      OthersWait(st1, i, r);
    }
  }

  /** A step serves a waiting request or leaves it in place, one tick nearer if it is a tick. */
  lemma StepServes(st: State, a: Step, r: nat)
    requires Inv(st) && StepOk(a) && Waits(st, r)
    ensures var st' := Next(st, a);
            && Grows(st, st')
            && (Served(st, st', r) || StillWaits(st, st', r, LeftOf(st, r) - if a.Tick? then 1 else 0))
  {
    hide Base, Checks, Receive, Enqueue, Left, Called;
    WaitsForLive(st, r);
    BaseParts(st);
    match a
    case Tick => ChecksServe(st, 0, r);
    case Ask(name, found) => EnqueueServes(st, name, found, r);
    case Response(txid, from, verdicts) =>
      var i := Match(st.table, txid);
      if i < TABLE_SIZE {
        ReceiveServes(st, i, from, verdicts[i], r);
      }
    case SetServer(_, _) =>
  }

  // ----- runs of the resolver -----

  ghost predicate Runs(st: State, steps: seq<Step>, last: State)
    decreases |steps|
  {
    if steps == [] then last == st
    else Base(st) && StepOk(steps[0]) && Runs(Next(st, steps[0]), steps[1..], last)
  }

  function Ticks(steps: seq<Step>): nat {
    if steps == [] then 0 else (if steps[0].Tick? then 1 else 0) + Ticks(steps[1..])
  }

  /** How often callback `id` is accepted on the way. */
  ghost function Accepted(st: State, steps: seq<Step>, id: nat): nat
    decreases |steps|
  {
    if steps == [] || !Base(st) || !StepOk(steps[0]) then 0
    else (if Accepts(st, steps[0], id) then 1 else 0) + Accepted(Next(st, steps[0]), steps[1..], id)
  }

  /** Conservation over runs: every callback accepted has been made once or still waits, and
      nothing else has ever been called. */
  lemma {:induction false} RunTally(st: State, steps: seq<Step>, last: State, id: nat)
    requires Inv(st) && Runs(st, steps, last)
    ensures Inv(last) && Grows(st, last)
    ensures Tally(last, id) == Tally(st, id) + Accepted(st, steps, id)
    decreases |steps|
  {
    hide Base, Next, Accepts, Tally, WaitsFor;
    if steps != [] {
      BaseParts(st);
      StepKeeps(st, steps[0]);
      StepTally(st, steps[0], id);
      AddressesAreAnswers(st, steps[0]);
      RunTally(Next(st, steps[0]), steps[1..], last, id);
    }
  }

  /** The deadline: in any run, whatever is asked, answered or reconfigured meanwhile, a waiting
      request is served at the latest by as many ticks as its entry has left. */
  lemma {:induction false} DeadlineHolds(st: State, steps: seq<Step>, last: State, r: nat)
    requires Inv(st) && Runs(st, steps, last) && Waits(st, r) && Ticks(steps) >= LeftOf(st, r)
    ensures Served(st, last, r)
    decreases |steps|
  {
    hide Base, Next, Left, Called, Accepts;
    WaitsForLive(st, r);
    BaseParts(st);
    LeftBounds(st.table[st.requests[r].entry]);
    var st1 := Next(st, steps[0]);
    StepKeeps(st, steps[0]);
    StepServes(st, steps[0], r);
    var id := st.requests[r].found.value;
    RunTally(st1, steps[1..], last, id);
    GrowsCalled(st1, last, id);
    GrowsCalled(st, st1, id);
    if StillWaits(st, st1, r, LeftOf(st, r) - if steps[0].Tick? then 1 else 0) {
      DeadlineHolds(st1, steps[1..], last, r);
    }
  }

  lemma {:induction false} PendingWaits(requests: seq<Request>, id: nat) returns (r: nat)
    requires Pending(requests, id) > 0
    ensures r < |requests| && requests[r].found == Some(id)
  {
    if requests[0].found == Some(id) {
      r := 0;
    } else {
      r := PendingWaits(requests[1..], id);
      r := r + 1;
    }
  }

  /** Every call that returns ERR_INPROGRESS has its callback made exactly once: never twice, and
      within 14 ticks of the timer, in any run that does not use the same callback again. */
  lemma ExactlyOnce(st: State, name: seq<byte>, id: nat, steps: seq<Step>, last: State)
    requires Inv(st) && Tally(st, id) == 0
    requires Enqueue(st, name, Some(id)).1
    requires Runs(Next(st, Ask(name, Some(id))), steps, last)
    requires Accepted(Next(st, Ask(name, Some(id))), steps, id) == 0
    ensures Called(last.log, id) <= 1
    ensures Ticks(steps) >= DEADLINE ==> Called(last.log, id) == 1
  {
    hide Base, Next, Enqueue, Left, Pending, Called;
    var ask := Ask(name, Some(id));
    var st1 := Next(st, ask);
    StepKeeps(st, ask);
    StepTally(st, ask, id);
    RunTally(st1, steps, last, id);
    GrowsCalled(st1, last, id);
    if Ticks(steps) >= DEADLINE && Pending(st1.requests, id) > 0 {
      var r := PendingWaits(st1.requests, id);
      WaitsForLive(st1, r);
      BaseParts(st1);
      LeftBounds(st1.table[st1.requests[r].entry]);
      DeadlineHolds(st1, steps, last, r);
    }
  }

  // ----- the deadline is exact -----

  predicate AllServers(st: State) {
    forall k :: 0 <= k < |st.servers| ==> st.servers[k] != ANY
  }

  function Ticked(st: State, n: nat): State
    requires Inv(st)
    decreases n
  {
    if n == 0 then st
    else
      StepKeeps(st, Tick);
      Ticked(Next(st, Tick), n - 1)
  }

  /** With every server configured, a check takes exactly one tick, and the last one gives up. */
  lemma CheckExact(st: State, i: nat, r: nat)
    requires Base(st) && AllServers(st) && Waits(st, r) && st.requests[r].entry == i && i < TABLE_SIZE && st.table[i].phase.Asking?
    ensures var st' := Check(st, i);
            && r < |st'.requests| && st'.servers == st.servers
            && if LeftOf(st, r) > 1 then st'.requests == st.requests && st'.table[i].phase.Asking? && Left(st'.table[i]) == LeftOf(st, r) - 1
               else st'.requests[r].found.None?
  {
    hide FreeId, AskingIds, Retrying, CallsFor, Base;
    BaseParts(st);
    RetryingSum();
    var e := st.table[i];
    assert AllServers(st) ==> st.servers[e.server] != ANY;
    assert e.server + 1 < SERVERS ==> st.servers[e.server + 1] != ANY;
    RetryingPositive(e.retries);
  }

  lemma RetryingPositive(k: nat)
    requires k < RETRIES
    ensures k < RETRIES - 1 <==> Retrying(k) > 0
  {
  }

  lemma ClearedStays(st: State, i: nat, r: nat)
    requires Base(st) && i < TABLE_SIZE && r < |st.requests| && st.requests[r].found.None?
    ensures r < |Check(st, i).requests| && Check(st, i).requests[r].found.None?
  {
    hide FreeId, AskingIds, CallsFor;
  }

  lemma {:induction false} NoneStays(st: State, i: nat, r: nat)
    requires Base(st) && i <= TABLE_SIZE && r < |st.requests| && st.requests[r].found.None?
    ensures r < |Checks(st, i).requests| && Checks(st, i).requests[r].found.None?
    ensures |Checks(st, i).table| == TABLE_SIZE
    decreases TABLE_SIZE - i
  {
    hide Check, Base;
    BaseParts(st);
    if i < TABLE_SIZE {
      CheckKeeps(st, i);
      ClearedStays(st, i, r);
      NoneStays(Check(st, i), i + 1, r);
    }
  }

  lemma {:induction false} ChecksExact(st: State, i: nat, r: nat)
    requires Base(st) && AllServers(st) && i <= TABLE_SIZE && Waits(st, r)
    requires st.requests[r].entry < TABLE_SIZE && st.table[st.requests[r].entry].phase.Asking?
    ensures var st', e := Checks(st, i), st.requests[r].entry;
            && r < |st'.requests| && |st'.table| == TABLE_SIZE
            && if e < i then st'.requests[r] == st.requests[r] && st'.table[e] == st.table[e]
               else if LeftOf(st, r) > 1 then
                 st'.requests[r] == st.requests[r] && st'.table[e].phase.Asking? && Left(st'.table[e]) == LeftOf(st, r) - 1
               else st'.requests[r].found.None?
    decreases TABLE_SIZE - i
  {
    hide Check, Left, Base;
    BaseParts(st);
    if i < TABLE_SIZE {
      var st1 := Check(st, i);
      CheckKeeps(st, i);
      BaseParts(st1);
      if st.requests[r].entry == i {
        CheckExact(st, i, r);
      } else {
        OthersWait(st, i, r);
      }
      if st1.requests[r].found.Some? {
        ChecksExact(st1, i + 1, r);
      } else {
        NoneStays(st1, i + 1, r);
      }
    }
  }

  /** With both servers configured and no answer, a request waits for exactly as many ticks as its
      entry has left: the deadline cannot be lowered. */
  lemma {:induction false} DeadlineExact(st: State, r: nat, n: nat)
    requires Inv(st) && AllServers(st) && Waits(st, r)
    ensures var st' := Ticked(st, n); r < |st'.requests| && (st'.requests[r].found.Some? <==> n < LeftOf(st, r))
    decreases n
  {
    hide Base, Checks, Left;
    WaitsForLive(st, r);
    BaseParts(st);
    LeftBounds(st.table[st.requests[r].entry]);
    if n > 0 {
      StepKeeps(st, Tick);
      ChecksExact(st, 0, r);
      ChecksKeep(st, 0);
      var st1 := Next(st, Tick);
      if st1.requests[r].found.Some? {
        DeadlineExact(st1, r, n - 1);
      } else {
        NoneTicked(st1, r, n - 1);
      }
    }
  }

  lemma {:induction false} NoneTicked(st: State, r: nat, n: nat)
    requires Inv(st) && r < |st.requests| && st.requests[r].found.None?
    ensures r < |Ticked(st, n).requests| && Ticked(st, n).requests[r].found.None?
    decreases n
  {
    hide Base, Checks;
    if n > 0 {
      StepKeeps(st, Tick);
      NoneStays(st, 0, r);
      NoneTicked(Next(st, Tick), r, n - 1);
    }
  }

  // ----- refusals and answers -----

  /** Exactly when a call is refused: no request is free, or no query for the name is under way and
      no entry is unused or completed with an age that is not a multiple of 256. */
  lemma RefusedExactly(st: State, name: seq<byte>, found: Option<nat>)
    requires Inv(st)
    ensures !Enqueue(st, name, found).1 <==>
              || (forall r :: 0 <= r < REQUESTS ==> st.requests[r].found.Some?)
              || (forall i :: 0 <= i < TABLE_SIZE ==>
                    && !Duplicate(st.table[i], Cut(name)) && !st.table[i].phase.Unused?
                    && !Replaceable(st.table[i], st.seqno))
    ensures !Enqueue(st, name, found).1 ==> Enqueue(st, name, found).0 == st
  {
    hide Check;
    BaseParts(st);
    var u := FirstUnused(st.table);
  }

  /** The calls added by a step all report an error. */
  predicate OnlyErrors(st: State, st': State) {
    Grows(st, st') && forall k :: |st.log| <= k < |st'.log| ==> st'.log[k].addr.None?
  }

  lemma {:induction false} CallsAlike(requests: seq<Request>, i: nat, addr: Option<seq<byte>>)
    ensures forall c <- CallsFor(requests, i, addr) :: c.addr == addr && WaitsFor(requests, i, c.found)
  {
    if requests != [] {
      CallsAlike(requests[1..], i, addr);
      forall c | c in CallsFor(requests, i, addr)
        ensures c.addr == addr && WaitsFor(requests, i, c.found)
      {
        if c in CallsFor(requests[1..], i, addr) {
          var r :| 0 <= r < |requests[1..]| && requests[1..][r] == Request(Some(c.found), i);
          assert requests[r + 1] == Request(Some(c.found), i);
        } else {
          assert requests[0] == Request(Some(c.found), i);
        }
      }
    }
  }

  /** The calls of dns_call_found at the end of the log. */
  lemma NewCall(st: State, i: nat, addr: Option<seq<byte>>, log: seq<Call>, k: nat)
    requires log == st.log + CallsFor(st.requests, i, addr) && |st.log| <= k < |log|
    ensures log[k].addr == addr && WaitsFor(st.requests, i, log[k].found)
  {
    CallsAlike(st.requests, i, addr);
    assert log[k] == CallsFor(st.requests, i, addr)[k - |st.log|];
  }

  /** Some request with callback `id` waits for entry `i`. */
  predicate WaitsFor(requests: seq<Request>, i: nat, id: nat) {
    exists r :: 0 <= r < |requests| && requests[r] == Request(Some(id), i)
  }

  lemma FailErrors(st: State, i: nat, e: Entry)
    requires i < |st.table|
    ensures OnlyErrors(st, Fail(Set(st, i, e), i)) && OnlyErrors(st, Fail(st, i))
  {
    var log := st.log + CallsFor(st.requests, i, None);
    assert Fail(Set(st, i, e), i).log == log && Fail(st, i).log == log;
    forall k | |st.log| <= k < |log|
      ensures log[k].addr.None?
    {
      NewCall(st, i, None, log, k);
    }
  }

  lemma CheckErrors(st: State, i: nat)
    requires Shape(st) && i < TABLE_SIZE && st.table[i].server < SERVERS
    ensures OnlyErrors(st, Check(st, i))
  {
    hide FreeId, AskingIds, Fail, OnlyErrors;
    var e, t := st.table[i], FreeId(AskingIds(st.table), st.txid);
    NothingNew(st);
    FailErrors(st, i, e.(txid := t, phase := Asking, server := 0, tmr := 1, retries := 0));
    CounterFails(st, i, e.(txid := t, phase := Asking, server := 0, tmr := 1, retries := 0), t);
    var e2 := e.(tmr := Minus1(e.tmr), retries := Plus1(e.retries));
    FailErrors(st, i, e2);
    FailErrors(st, i, e2.(server := e2.server + 1, tmr := 1, retries := 0));
    FailErrors(st, i, e2.(tmr := e2.retries));
  }

  lemma NothingNew(st: State)
    ensures forall s: State :: s.log == st.log ==> OnlyErrors(st, s)
  {
  }

  lemma CounterFails(st: State, i: nat, e: Entry, t: nat)
    requires i < |st.table| && OnlyErrors(st, Fail(Set(st, i, e), i))
    ensures OnlyErrors(st, Fail(Set(st, i, e).(txid := t), i))
  {
    assert Fail(Set(st, i, e).(txid := t), i).log == Fail(Set(st, i, e), i).log;
  }

  lemma ReceiveErrors(st: State, i: nat, from: nat, v: Verdict)
    requires Shape(st) && i < TABLE_SIZE && st.table[i].server < SERVERS && !v.Address?
    ensures OnlyErrors(st, Receive(st, i, from, v))
  {
    hide Check, Fail, OnlyErrors;
    NothingNew(st);
    FailErrors(st, i, st.table[i]);
    var st1 := Set(st, i, st.table[i].(retries := RETRIES - 1, tmr := 1));
    CheckErrors(st1, i);
    SameLog(st, st1, Check(st1, i));
  }

  lemma SameLog(st: State, st1: State, st2: State)
    requires st1.log == st.log && OnlyErrors(st1, st2)
    ensures OnlyErrors(st, st2)
  {
  }

  lemma EnqueueErrors(st: State, name: seq<byte>, found: Option<nat>)
    requires Base(st)
    ensures OnlyErrors(st, Enqueue(st, name, found).0)
  {
    hide Check, OnlyErrors;
    BaseParts(st);
    NothingNew(st);
    var q, i := FirstFree(st.requests), Slot(st);
    if q < REQUESTS && i < TABLE_SIZE {
      var st1 := Entered(st, i, q, Cut(name), found);
      CheckErrors(st1, i);
      SameLog(st, st1, Check(st1, i));
    }
  }

  /** The checks of a tick report errors only, and each of them to a request that waited. */
  lemma {:induction false} ChecksReport(st: State, i: nat, id: nat)
    requires Base(st) && i <= TABLE_SIZE
    ensures OnlyErrors(st, Checks(st, i)) && Tally(Checks(st, i), id) == Tally(st, id)
    decreases TABLE_SIZE - i
  {
    hide Check, Base, Tally;
    BaseParts(st);
    if i < TABLE_SIZE {
      CheckKeeps(st, i);
      CheckErrors(st, i);
      CheckTally(st, i, id);
      ChecksReport(Check(st, i), i + 1, id);
    }
  }

  /** An address reaches a callback only through a response that bears the id of the query, comes
      from the server that was asked and is judged to hold that address; and the callback is one
      that waited for that entry. */
  lemma AddressesAreAnswers(st: State, a: Step)
    requires Inv(st) && StepOk(a)
    ensures OnlyErrors(st, Next(st, a)) || AnsweredBy(st, a, Next(st, a))
  {
    hide Checks, Enqueue, Check, Base, WaitsFor, CallsFor, OnlyErrors;
    BaseParts(st);
    match a
    case Tick => ChecksReport(st, 0, 0);
    case Ask(name, found) => EnqueueErrors(st, name, found);
    case SetServer(_, _) => NothingNew(st);
    case Response(txid, from, verdicts) =>
      var i := Match(st.table, txid);
      NothingNew(st);
      if i < TABLE_SIZE {
        if verdicts[i].Address? && from == st.servers[st.table[i].server] {
          var st' := Next(st, a);
          forall k | |st.log| <= k < |st'.log|
            ensures st'.log[k].addr == Some(verdicts[i].bytes) && WaitsFor(st.requests, i, st'.log[k].found)
          {
            NewCall(st, i, Some(verdicts[i].bytes), st'.log, k);
          }
        } else if !verdicts[i].Address? {
          ReceiveErrors(st, i, from, verdicts[i]);
        }
      }
  }

  /** Step `a` is a response with the id of a query, from the server asked, that holds an address,
      and the calls it adds hand that address to requests for that entry. */
  predicate AnsweredBy(st: State, a: Step, st': State)
    requires Shape(st) && StepOk(a)
  {
    a.Response?
    && var i := Match(st.table, a.txid);
    && i < TABLE_SIZE && st.table[i].server < SERVERS && a.from == st.servers[st.table[i].server]
    && a.verdicts[i].Address? && Grows(st, st')
    && forall k :: |st.log| <= k < |st'.log| ==>
         st'.log[k].addr == Some(a.verdicts[i].bytes) && WaitsFor(st.requests, i, st'.log[k].found)
  }
}
