/**
 The 8-bit age of a completed DNS entry (dns.c): a run of the resolver after which a name is
 refused although a completed entry could make room for it.
 */
module DnsAge {
  import opened Octets
  import opened Options
  import opened DnsName
  import opened DnsMessage
  import opened DnsTable

  const BLANK := Entry(Unused, 0, 0, 0, 0, 0, 0, [], [])
  /** The zeroed tables. */
  const EMPTY := State([BLANK, BLANK, BLANK, BLANK], seq(REQUESTS, _ => Request(None, 0)), [ANY, ANY], 0, 0, [])

  lemma {:induction false} RunsOn(st: State, a: Step, rest: seq<Step>, last: State)
    requires Base(st) && StepOk(a) && Runs(Next(st, a), rest, last)
    ensures Runs(st, [a] + rest, last)
  {
    assert ([a] + rest)[1..] == rest;
  }

  /** A call for a name that is not being asked takes entry `i` and request `r`. */
  lemma AskEffect(st: State, name: seq<byte>, id: nat, i: nat, r: nat)
    requires Inv(st) && i < TABLE_SIZE && r < REQUESTS && Slot(st) == i && FirstFree(st.requests) == r
    requires st.servers[0] != ANY && forall j :: 0 <= j < TABLE_SIZE ==> !Duplicate(st.table[j], Cut(name))
    ensures var st', e := Next(st, Ask(name, Some(id))), Next(st, Ask(name, Some(id))).table;
            && Inv(st') && Enqueue(st, name, Some(id)).1 && |e| == TABLE_SIZE && e == st.table[i := e[i]]
            && e[i].phase.Asking? && e[i].server == 0 && e[i].seqno == st.seqno && e[i].name == Cut(name)
            && st'.requests == st.requests[r := Request(Some(id), i)] && st'.seqno == Plus1(st.seqno)
            && st'.servers == st.servers
  {
    hide Base, FreeId, AskingIds;
    BaseParts(st);
    EnqueueKeeps(st, name, Some(id));
    assert FirstDuplicate(st.table, Cut(name)) == TABLE_SIZE;
  }

  /** The first entry is completed and as old as the counter tells, everything else is unused. */
  predicate Idle(st: State, k: nat) {
    && Inv(st) && st.servers[0] == 1 && st.seqno == k
    && (forall r :: 0 <= r < REQUESTS ==> st.requests[r].found.None?)
    && st.table[0].phase.Done? && st.table[0].seqno == 0
    && forall j :: 0 < j < TABLE_SIZE ==> st.table[j].phase.Unused?
  }

  /** All entries judge a response to hold the same address. */
  function Answer(txid: nat, ttl: nat): Step {
    Response(txid, 1, seq(TABLE_SIZE, _ => Address([10, 0, 0, 1], ttl)))
  }

  /** The answer to the one query under way, that of entry `i`. */
  lemma AnswerEffect(st: State, i: nat, ttl: nat)
    requires Inv(st) && i < TABLE_SIZE && st.table[i].phase.Asking? && st.table[i].server == 0 && st.servers[0] == 1
    requires ttl <= MAX_TTL && forall r :: 0 <= r < REQUESTS ==> st.requests[r].found.None? || st.requests[r].entry == i
    ensures var st', e := Next(st, Answer(st.table[i].txid, ttl)), st.table[i];
            && Inv(st') && st'.servers == st.servers && st'.seqno == st.seqno
            && st'.table == st.table[i := e.(addr := [10, 0, 0, 1], phase := if ttl == 0 then Unused else Done, ttl := ttl)]
            && forall r :: 0 <= r < REQUESTS ==> st'.requests[r].found.None?
  {
    hide Base, CallsFor;
    BaseParts(st);
    var a := Answer(st.table[i].txid, ttl);
    StepKeeps(st, a);
    OneMatch(st, st.table[i].txid, i);
    assert a.verdicts[i] == Address([10, 0, 0, 1], ttl);
  }

  const NAME: seq<byte> := [66]

  /** A name is asked and answered with no time to live: only the counter goes on. */
  lemma Lap(st: State, k: nat) returns (a: Step, st1: State, b: Step, last: State)
    requires Idle(st, k) && k < 255
    ensures Base(st) && StepOk(a) && st1 == Next(st, a)
    ensures Base(st1) && StepOk(b) && last == Next(st1, b)
    ensures Idle(last, k + 1) && last.table[0] == st.table[0]
  {
    hide Base, Enqueue, Receive, Check;
    BaseParts(st);
    a := Ask(NAME, Some(k));
    assert FirstUnused(st.table) == 1 && FirstFree(st.requests) == 0;
    AskEffect(st, NAME, k, 1, 0);
    st1 := Next(st, a);
    b := Answer(st1.table[1].txid, 0);
    AnswerEffect(st1, 1, 0);
    last := Next(st1, b);
  }

  /** Names are asked and answered until the counter is at 253, and then three more are asked. */
  lemma {:induction false} Laps(st: State, k: nat) returns (steps: seq<Step>, last: State)
    requires Idle(st, k) && k <= 253
    ensures Runs(st, steps, last) && Asked(last, st.table[0], TABLE_SIZE)
    decreases 253 - k
  {
    hide Base, Next, Asked;
    if k == 253 {
      steps, last := LastThree(st);
    } else {
      var a, st1, b, mid := Lap(st, k);
      var rest;
      rest, last := Laps(mid, k + 1);
      RunsOn(st1, b, rest, last);
      RunsOn(st, a, [b] + rest, last);
      steps := [a] + ([b] + rest);
    }
  }

  /** The first name is asked and answered. */
  lemma FirstEntry() returns (a: Step, st1: State, b: Step, st2: State, c: Step, last: State)
    ensures Base(EMPTY) && StepOk(a) && st1 == Next(EMPTY, a)
    ensures Base(st1) && StepOk(b) && st2 == Next(st1, b)
    ensures Base(st2) && StepOk(c) && last == Next(st2, c)
    ensures Idle(last, 1)
  {
    hide Base, Enqueue, Receive, Check;
    EmptyOk();
    a, b := SetServer(0, 1), Ask([65], Some(0));
    StepKeeps(EMPTY, a);
    st1 := Next(EMPTY, a);
    assert FirstUnused(st1.table) == 0 && FirstFree(st1.requests) == 0;
    AskEffect(st1, [65], 0, 0, 0);
    st2 := Next(st1, b);
    c := Answer(st2.table[0].txid, 100);
    AnswerEffect(st2, 0, 100);
    last := Next(st2, c);
  }

  lemma EmptyOk()
    ensures Inv(EMPTY)
  {
  }

  /** The entries before `j` but the first are asking, each for its own name. */
  predicate Asked(st: State, first: Entry, j: nat) {
    && 1 <= j <= TABLE_SIZE && Inv(st) && st.servers[0] == 1 && st.seqno == (252 + j) % 256 && st.table[0] == first
    && (forall i :: 0 < i < j ==> st.table[i].phase.Asking? && st.table[i].name == [65 + i as byte])
    && (forall i :: j <= i < TABLE_SIZE ==> st.table[i].phase.Unused?)
    && (forall r :: 0 <= r < REQUESTS ==> (st.requests[r].found.None? <==> r >= j - 1))
  }

  lemma OtherName(a: byte, b: byte)
    requires Lower(a) != Lower(b)
    ensures !SameName([a], [b])
  {
    assert [a][0] == a && [b][0] == b;
  }

  lemma AskOne(st: State, first: Entry, j: nat) returns (a: Step, last: State)
    requires Asked(st, first, j) && j < TABLE_SIZE && first.phase.Done?
    ensures StepOk(a) && Base(st) && last == Next(st, a) && Asked(last, first, j + 1)
  {
    hide Base, Enqueue, Check, SameName, Inv;
    InvBase(st);
    BaseParts(st);
    var name := [65 + j as byte];
    a := Ask(name, Some(j));
    var u, q := FirstUnused(st.table), FirstFree(st.requests);
    assert st.table[j].phase.Unused? && st.requests[j - 1].found.None?;
    assert u == j && q == j - 1;
    forall i | 0 <= i < TABLE_SIZE
      ensures !Duplicate(st.table[i], name)
    {
      if 0 < i < j {
        OtherName(65 + i as byte, 65 + j as byte);
      }
    }
    AskEffect(st, name, j, j, j - 1);
    last := Next(st, a);
  }

  lemma InvBase(st: State)
    requires Inv(st)
    ensures Base(st)
  {
  }

  /** Three names are asked and not answered. */
  lemma LastThree(st: State) returns (steps: seq<Step>, last: State)
    requires Idle(st, 253)
    ensures Runs(st, steps, last) && Asked(last, st.table[0], TABLE_SIZE)
  {
    hide Base, Next, Inv;
    InvBase(st);
    BaseParts(st);
    var a, st1 := AskOne(st, st.table[0], 1);
    var b, st2 := AskOne(st1, st.table[0], 2);
    var c, st3 := AskOne(st2, st.table[0], 3);
    last := st3;
    steps := [a] + ([b] + ([c] + []));
    RunsOn(st2, c, [], last);
    RunsOn(st1, b, [c] + [], last);
    RunsOn(st, a, [b] + ([c] + []), last);
  }

  /** A run from the zeroed tables after which a name is refused although a request is free and one
      entry is completed: 256 calls later its 8-bit age is zero again. */
  lemma AgeComesRound(found: Option<nat>) returns (steps: seq<Step>, last: State)
    ensures Runs(EMPTY, steps, last) && Inv(last)
    ensures last.table[0].phase.Done? && Age(last.table[0], last.seqno) == 0 && last.requests[3].found.None?
    ensures Enqueue(last, [69], found) == (last, false)
  {
    hide Base, Enqueue, Receive, Check, Runs, SameName, Next;
    var a, st1, b, st2, c, st3 := FirstEntry();
    var rest;
    rest, last := Laps(st3, 1);
    RunsOn(st2, c, rest, last);
    RunsOn(st1, b, [c] + rest, last);
    RunsOn(EMPTY, a, [b] + ([c] + rest), last);
    steps := [a] + ([b] + ([c] + rest));
    BaseParts(last);
    forall i | 0 <= i < TABLE_SIZE
      ensures !Duplicate(last.table[i], [69])
    {
      if i > 0 {
        OtherName(65 + i as byte, 69);
      }
    }
    RefusedExactly(last, [69], found);
  }
}
