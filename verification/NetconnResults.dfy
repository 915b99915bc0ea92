/**
 Which result each application call on a TCP netconn gets: at once, or from the callback
 that ends the operation it is blocked in.
 */
module NetconnResults {
  import opened Options
  import opened NetconnProtocol

  /** The semaphore of message `m` is signalled once more, and its result is `err`. */
  predicate Told(st: State, st': State, m: nat, err: Option<Err>) {
    m in st'.msgs && st'.msgs[m].err == err && st'.msgs[m].acks == (if m in st.msgs then st.msgs[m].acks else 0) + 1
  }

  /** The call of message `m` is blocked. */
  predicate Blocked(st: State, m: nat, phase: Phase) {
    m in st.msgs && st.msgs[m].acks == 0 && st.current == Some(m) && st.phase == phase
  }

  predicate Resting(st: State) {
    st.phase.Idle? && st.current.None?
  }

  predicate SamePlace(st: State, st': State) {
    st'.phase == st.phase && st'.current == st.current && st'.pcb == st.pcb && st'.nb == st.nb
  }

  /** No message but `ms` has been touched. */
  ghost predicate Others(st: State, st': State, ms: set<nat>) {
    st'.msgs.Keys == st.msgs.Keys + ms && forall k :: k in st.msgs && k !in ms ==> st'.msgs[k] == st.msgs[k]
  }

  function CurrentSet(st: State): set<nat> {
    if st.current.Some? then {st.current.value} else {}
  }

  /** How an attempt to close ends, if it does not leave the close pending: without memory it is tried
      again as long as there are polls left, and then a full close resets the connection. */
  function CloseEnds(env: CloseEnv, full: bool, polls: nat): Option<Err> {
    if !env.err.Mem? then Some(env.err)
    else if polls > 0 then None
    else Some(if full || env.closes then Ok else Mem)
  }

  /** The close of message `m` is tried: it is answered, and the pcb gone if everything was closed; or
      it is blocked. */
  predicate ClosedOrBlocked(st: State, st': State, m: nat, env: CloseEnv, full: bool, polls: nat) {
    match CloseEnds(env, full, polls)
    case None => Blocked(st', m, Closing) && st'.pcb == st.pcb
    case Some(err) => Told(st, st', m, Some(err)) && Resting(st') && st'.pcb == (st.pcb && !(err.Ok? && (full || env.closes)))
  }

  /** The result of the message that a step brings, or of the call that is blocked. */
  ghost predicate WriteEffect(st: State, m: nat, result: Option<Err>, st': State) {
    && Others(st, st', {m}) && st'.pending.Ok? && st'.pcb == st.pcb && st'.nb == st.nb
    && if !st.pending.Ok? then Told(st, st', m, Some(st.pending)) && SamePlace(st, st')
       else if !st.phase.Idle? then Told(st, st', m, Some(InProgress)) && SamePlace(st, st')
       else if !st.pcb then Told(st, st', m, Some(Conn)) && SamePlace(st, st')
       else if result.None? then Blocked(st', m, Writing)
       else Told(st, st', m, result) && Resting(st')
  }

  ghost predicate ConnectEffect(st: State, m: nat, tcp: Err, nonblocking: bool, st': State) {
    && Others(st, st', {m}) && st'.pending == st.pending && st'.pcb == st.pcb
    && if st.pcb && st.phase.Idle? && tcp.Ok? then
         if nonblocking then Told(st, st', m, Some(InProgress)) && st'.phase.Connecting? && st'.current.None? && st'.nb
         else Blocked(st', m, Connecting) && !st'.nb
       else
         && SamePlace(st, st')
         && Told(st, st', m, Some(if !st.pcb then Clsd else if st.phase.Connecting? then Already
                                  else if !st.phase.Idle? then IsConn else tcp))
  }

  ghost predicate ListenEffect(st: State, m: nat, listen: ListenEnv, st': State) {
    && Others(st, st', {m}) && st'.pending == st.pending && st'.nb == st.nb && st'.current == st.current
    && if st.pcb && st.phase.Idle? then
         && st'.phase == (if listen.Listens? then Listening else Idle) && st'.pcb == !listen.NoMailbox?
         && Told(st, st', m, Some(if listen.Listens? then Ok else listen.why))
       else
         SamePlace(st, st') && Told(st, st', m, Some(if st.pcb && st.phase.Listening? then Ok else Conn))
  }

  ghost predicate CloseEffect(st: State, m: nat, rx: bool, tx: bool, shutdown: Err, env: CloseEnv, st': State) {
    && st'.pending == st.pending && st'.nb == st.nb
    && if st.pcb && (st.phase.Idle? || (st.phase.Writing? && tx)) then
         && Others(st, st', {m} + CurrentSet(st))
         && (st.phase.Writing? && st.current.Some? ==> Told(st, st', st.current.value, Some(Clsd)))
         && ClosedOrBlocked(st, st', m, env, rx && tx, POLLS)
       else
         && Others(st, st', {m}) && SamePlace(st, st')
         && Told(st, st', m, if !st.pcb || st.phase.Connecting? || (st.phase.Listening? && !(rx && tx)) then Some(Conn)
                             else if st.phase.Writing? then Some(shutdown) else None)
  }

  ghost predicate DeleteEffect(st: State, m: nat, env: CloseEnv, st': State) {
    && st'.pending == st.pending && st'.nb == st.nb
    && if st.pcb then
         var aborts := st.phase.Writing? || (st.phase.Connecting? && !st.nb);
         && Others(st, st', {m} + if aborts then CurrentSet(st) else {})
         && (aborts && st.current.Some? ==> Told(st, st', st.current.value, Some(Clsd)))
         && ClosedOrBlocked(st, st', m, env, true, POLLS)
       else Others(st, st', {m}) && SamePlace(st, st') && Told(st, st', m, Some(Ok))
  }

  /** A callback that goes on with a write or a close. */
  ghost predicate GoesOn(st: State, result: Option<Err>, env: CloseEnv, poll: bool, st': State) {
    if st.phase.Writing? && st.current.Some? && result.Some? then
      && Others(st, st', CurrentSet(st)) && Told(st, st', st.current.value, result)
      && Resting(st') && st'.pcb == st.pcb && st'.nb == st.nb && st'.pending == st.pending
    else if st.phase.Closing? && HasCurrent(st) then
      var c := st.current.value;
      var msg := st.msgs[c];
      var polls := if poll && msg.polls > 0 then msg.polls - 1 else msg.polls;
      && Others(st, st', {c}) && c in st'.msgs && st'.msgs[c].polls == polls
      && st'.msgs[c].rx == msg.rx && st'.msgs[c].tx == msg.tx
      && ClosedOrBlocked(st, st', c, env, msg.rx && msg.tx, polls) && st'.nb == st.nb && st'.pending == st.pending
    else st' == st
  }

  /** The pcb is gone and the error is kept for the next write. Without the flag of a nonblocking
      connect, a write or connect that is blocked gets the error, and a close succeeds. */
  ghost predicate FailedEffect(st: State, err: Err, st': State) {
    && !st'.pcb && st'.pending == err && st'.phase.Idle? && st'.nb == (st.nb && (st.phase.Idle? || st.phase.Listening?))
    && if !st.nb && st.current.Some? then
         && Others(st, st', CurrentSet(st)) && st'.current.None?
         && Told(st, st', st.current.value, Some(if st.phase.Closing? then Ok else err))
       else st'.msgs == st.msgs && st'.current == st.current
  }

  ghost predicate Effect(st: State, a: Step, st': State) {
    match a
    case DoWrite(m, result) => WriteEffect(st, m, result, st')
    case DoConnect(m, tcp, nonblocking) => ConnectEffect(st, m, tcp, nonblocking, st')
    case DoListen(m, listen) => ListenEffect(st, m, listen, st')
    case DoClose(m, rx, tx, shutdown, env) => CloseEffect(st, m, rx, tx, shutdown, env, st')
    case DoDelconn(m, env) => DeleteEffect(st, m, env, st')
    case Connected(err) =>
      && Resting(st') && !st'.nb && st'.pcb == st.pcb && st'.pending == st.pending
      && (if st.current.Some? then Others(st, st', CurrentSet(st)) && Told(st, st', st.current.value, Some(err)) else st'.msgs == st.msgs)
    case Sent(result, env) => GoesOn(st, result, env, false, st')
    case Poll(result, env) => GoesOn(st, result, env, true, st')
    case Failed(err) => FailedEffect(st, err, st')
  }

  lemma CloseTried(st: State, env: CloseEnv)
    requires HasCurrent(st) && st.msgs[st.current.value].acks == 0 && st.phase.Closing?
    ensures var c, st' := st.current.value, CloseInternal(st, env);
            var msg := st.msgs[c];
            && Others(st, st', {c}) && c in st'.msgs && st'.msgs[c].polls == msg.polls
            && st'.msgs[c].rx == msg.rx && st'.msgs[c].tx == msg.tx
            && st'.nb == st.nb && st'.pending == st.pending
            && ClosedOrBlocked(st, st', c, env, msg.rx && msg.tx, msg.polls)
  {
  }

  lemma CloseBegun(st: State, st1: State, m: nat, rx: bool, tx: bool, err: Option<Err>, ms: set<nat>, env: CloseEnv)
    requires Others(st, st1, ms) && m !in st.msgs && m !in ms && st1.pcb == st.pcb && st1.nb == st.nb && st1.pending == st.pending
    ensures var st2 := WithMsg(st1, m, NewMsg(rx, tx).(err := err)).(phase := Closing, current := Some(m));
            var st' := CloseInternal(st2, env);
            && Others(st, st', {m} + ms) && ClosedOrBlocked(st, st', m, env, rx && tx, POLLS)
            && st'.nb == st.nb && st'.pending == st.pending
            && forall k :: k in ms && k in st1.msgs ==> st'.msgs[k] == st1.msgs[k]
  {
    hide CloseInternal;
    var st2 := WithMsg(st1, m, NewMsg(rx, tx).(err := err)).(phase := Closing, current := Some(m));
    CloseTried(st2, env);
  }

  lemma AbortTold(st: State)
    requires HasCurrent(st)
    ensures Others(st, Abort(st), CurrentSet(st)) && Told(st, Abort(st), st.current.value, Some(Clsd))
    ensures Resting(Abort(st)) && Abort(st).pcb == st.pcb && Abort(st).nb == st.nb && Abort(st).pending == st.pending
  {
  }

  lemma StartEffect(st: State, a: Step)
    requires Inv(st) && Enabled(st, a) && (a.DoWrite? || a.DoConnect?)
    ensures Effect(st, a, Next(st, a))
  {
    hide Inv, CloseInternal;
    CurrentFacts(st);
  }

  lemma ListenStartEffect(st: State, a: Step)
    requires Inv(st) && Enabled(st, a) && a.DoListen?
    ensures Effect(st, a, Next(st, a))
  {
    hide Inv, CloseInternal;
    CurrentFacts(st);
  }

  lemma CloseStartEffect(st: State, a: Step)
    requires Inv(st) && Enabled(st, a) && a.DoClose?
    ensures Effect(st, a, Next(st, a))
  {
    hide Inv, CloseInternal, ClosedOrBlocked;
    CurrentFacts(st);
    CloseStarts(st, a.m, a.rx, a.tx, None, st.phase.Writing?, a.env);
  }

  lemma DeleteStartEffect(st: State, a: Step)
    requires Inv(st) && Enabled(st, a) && a.DoDelconn?
    ensures Effect(st, a, Next(st, a))
  {
    hide Inv, CloseInternal, ClosedOrBlocked;
    CurrentFacts(st);
    CloseStarts(st, a.m, true, true, Some(Ok), st.phase.Writing? || (st.phase.Connecting? && !st.nb), a.env);
  }

  lemma CallbackEffect(st: State, a: Step)
    requires Inv(st) && Enabled(st, a) && (a.Connected? || a.Failed?)
    ensures Effect(st, a, Next(st, a))
  {
    hide Inv;
    CurrentFacts(st);
  }

  lemma NotYet(st: State)
    requires Inv(st) && st.current.Some?
    ensures HasCurrent(st) && st.msgs[st.current.value].acks == 0
  {
  }

  lemma PolledEffect(st: State, st1: State, st': State, env: CloseEnv)
    requires HasCurrent(st) && st1 == Polled(st) && st' == CloseInternal(st1, env) && st.phase.Closing?
    requires st.msgs[st.current.value].acks == 0
    ensures GoesOn(st, None, env, true, st')
  {
    hide CloseInternal;
    CloseTried(st1, env);
  }

  lemma GoesOnEffect(st: State, a: Step)
    requires Inv(st) && Enabled(st, a) && (a.Sent? || a.Poll?)
    ensures Effect(st, a, Next(st, a))
  {
    hide Inv, CloseInternal;
    CurrentFacts(st);
    if st.phase.Closing? {
      NotYet(st);
      match a
      case Sent(_, env) => CloseTried(st, env);
      case Poll(_, env) => PolledEffect(st, Polled(st), CloseInternal(Polled(st), env), env);
    }
  }

  /** Every step has exactly its effect. */
  lemma StepEffect(st: State, a: Step)
    requires Inv(st) && Enabled(st, a)
    ensures Effect(st, a, Next(st, a))
  {
    hide Inv, Next, Effect;
    if a.DoWrite? || a.DoConnect? {
      StartEffect(st, a);
    } else if a.DoListen? {
      ListenStartEffect(st, a);
    } else if a.DoClose? {
      CloseStartEffect(st, a);
    } else if a.DoDelconn? {
      DeleteStartEffect(st, a);
    } else if a.Sent? || a.Poll? {
      GoesOnEffect(st, a);
    } else {
      CallbackEffect(st, a);
    }
  }

  /** A close or delete, with or without the abort of what is blocked. */
  lemma CloseStarts(st: State, m: nat, rx: bool, tx: bool, err: Option<Err>, aborts: bool, env: CloseEnv)
    requires Inv(st) && m !in st.msgs && (aborts ==> HasCurrent(st))
    ensures var st1 := if aborts then Abort(st) else st;
            var ms := if aborts then CurrentSet(st) else {};
            var st' := CloseInternal(WithMsg(st1, m, NewMsg(rx, tx).(err := err)).(phase := Closing, current := Some(m)), env);
            && Others(st, st', {m} + ms) && ClosedOrBlocked(st, st', m, env, rx && tx, POLLS)
            && st'.nb == st.nb && st'.pending == st.pending
            && (aborts ==> Told(st, st', st.current.value, Some(Clsd)))
  {
    hide CloseInternal;
    if aborts {
      AbortTold(st);
      CloseBegun(st, Abort(st), m, rx, tx, err, CurrentSet(st), env);
    } else {
      CloseBegun(st, st, m, rx, tx, err, {}, env);
    }
  }

  // ----- the result of a blocked call, over runs -----

  /** What becomes of message `m`: still blocked, or signalled once with this result. */
  predicate Gets(last: State, m: nat, phase: Phase, outcome: Option<Err>) {
    if outcome.None? then Blocked(last, m, phase)
    else m in last.msgs && last.msgs[m].acks == 1 && last.msgs[m].err == outcome && last.current != Some(m)
  }

  /** The result of a write that is blocked: of the callback that finishes it, of the error that ends
      the connection, or ERR_CLSD from a close of the sending side or a delete. */
  function WriteOutcome(steps: seq<Step>): Option<Err> {
    if steps == [] then None
    else
      match steps[0]
      case Sent(Some(err), _) => Some(err)
      case Poll(Some(err), _) => Some(err)
      case Failed(err) => Some(err)
      case DoClose(_, _, true, _, _) => Some(Clsd)
      case DoDelconn(_, _) => Some(Clsd)
      case _ => WriteOutcome(steps[1..])
  }

  /** The result of a connect that is blocked. */
  function ConnectOutcome(steps: seq<Step>): Option<Err> {
    if steps == [] then None
    else
      match steps[0]
      case Connected(err) => Some(err)
      case Failed(err) => Some(err)
      case DoDelconn(_, _) => Some(Clsd)
      case _ => ConnectOutcome(steps[1..])
  }

  /** The result of a close that is blocked, of everything or of a part: of the attempt that ends it,
      or success when the connection fails. */
  function CloseOutcome(steps: seq<Step>, full: bool, polls: nat): Option<Err> {
    if steps == [] then None
    else
      match steps[0]
      case Sent(_, env) =>
        if CloseEnds(env, full, polls).Some? then CloseEnds(env, full, polls) else CloseOutcome(steps[1..], full, polls)
      case Poll(_, env) =>
        var left := if polls > 0 then polls - 1 else 0;
        if CloseEnds(env, full, left).Some? then CloseEnds(env, full, left) else CloseOutcome(steps[1..], full, left)
      case Failed(_) => Some(Ok)
      case _ => CloseOutcome(steps[1..], full, polls)
  }

  /** A step leaves a blocked write alone, or ends it with the result that its outcome says. */
  lemma WriteStep(st: State, a: Step, m: nat)
    requires Inv(st) && Enabled(st, a) && !st.nb && Blocked(st, m, Writing)
    ensures Gets(Next(st, a), m, Writing, WriteOutcome([a])) && !Next(st, a).nb && !Loses(st, a)
  {
    hide Inv, Next;
    CurrentFacts(st);
    StepEffect(st, a);
    assert WriteOutcome([a][1..]) == None;
  }

  /** The same for a blocked connect. */
  lemma ConnectStep(st: State, a: Step, m: nat)
    requires Inv(st) && Enabled(st, a) && !st.nb && Blocked(st, m, Connecting)
    ensures Gets(Next(st, a), m, Connecting, ConnectOutcome([a])) && !Next(st, a).nb && !Loses(st, a)
  {
    hide Inv, Next;
    CurrentFacts(st);
    StepEffect(st, a);
    assert ConnectOutcome([a][1..]) == None;
  }

  /** And for a blocked close. */
  lemma CloseStep(st: State, a: Step, m: nat)
    requires Inv(st) && Enabled(st, a) && !st.nb && Blocked(st, m, Closing) && !a.DoDelconn?
    ensures var full, polls := st.msgs[m].rx && st.msgs[m].tx, st.msgs[m].polls;
            && Gets(Next(st, a), m, Closing, CloseOutcome([a], full, polls)) && !Next(st, a).nb && !Loses(st, a)
            && (Blocked(Next(st, a), m, Closing) ==>
                  && Next(st, a).msgs[m].rx == st.msgs[m].rx && Next(st, a).msgs[m].tx == st.msgs[m].tx
                  && Next(st, a).msgs[m].polls == if a.Poll? && polls > 0 then polls - 1 else polls)
  {
    hide Inv, Next;
    CurrentFacts(st);
    StepEffect(st, a);
  }

  /** Over every run, a blocked write ends with exactly its outcome. */
  lemma {:induction false} WriteGets(st: State, steps: seq<Step>, last: State, m: nat)
    requires Inv(st) && !st.nb && Blocked(st, m, Writing) && Runs(st, steps, last)
    ensures Gets(last, m, Writing, WriteOutcome(steps))
    decreases |steps|
  {
    hide Inv, Next, Loses;
    if steps != [] {
      var st1 := Next(st, steps[0]);
      WriteStep(st, steps[0], m);
      StepKeeps(st, steps[0]);
      assert [steps[0]][1..] == [];
      if WriteOutcome([steps[0]]).None? {
        WriteGets(st1, steps[1..], last, m);
      } else {
        OnceAnswered(st1, steps[1..], last, m);
      }
    }
  }

  /** So does a blocked connect. */
  lemma {:induction false} ConnectGets(st: State, steps: seq<Step>, last: State, m: nat)
    requires Inv(st) && !st.nb && Blocked(st, m, Connecting) && Runs(st, steps, last)
    ensures Gets(last, m, Connecting, ConnectOutcome(steps))
    decreases |steps|
  {
    hide Inv, Next, Loses;
    if steps != [] {
      var st1 := Next(st, steps[0]);
      ConnectStep(st, steps[0], m);
      StepKeeps(st, steps[0]);
      assert [steps[0]][1..] == [];
      if ConnectOutcome([steps[0]]).None? {
        ConnectGets(st1, steps[1..], last, m);
      } else {
        OnceAnswered(st1, steps[1..], last, m);
      }
    }
  }

  /** And a blocked close, in runs without a delete while it is pending (which would lose it). */
  lemma {:induction false} CloseGets(st: State, steps: seq<Step>, last: State, m: nat)
    requires Inv(st) && !st.nb && Blocked(st, m, Closing) && Runs(st, steps, last) && !LosesOnTheWay(st, steps)
    ensures Gets(last, m, Closing, CloseOutcome(steps, st.msgs[m].rx && st.msgs[m].tx, st.msgs[m].polls))
    decreases |steps|
  {
    hide Inv, Next;
    if steps != [] {
      var st1 := Next(st, steps[0]);
      CloseStep(st, steps[0], m);
      StepKeeps(st, steps[0]);
      assert [steps[0]][1..] == [];
      if st1.current == Some(m) {
        CloseGets(st1, steps[1..], last, m);
      } else {
        OnceAnswered(st1, steps[1..], last, m);
      }
    }
  }

  /** Every write gets exactly this, over every run: the error that is pending, ERR_INPROGRESS, ERR_CONN,
      or else the result of its own step or of what ends it later. */
  lemma WriteResult(st: State, m: nat, result: Option<Err>, steps: seq<Step>, last: State)
    requires Inv(st) && !st.nb && m !in st.msgs && Runs(st, [DoWrite(m, result)] + steps, last)
    ensures Gets(last, m, Writing, if !st.pending.Ok? then Some(st.pending)
                                   else if !st.phase.Idle? then Some(InProgress)
                                   else if !st.pcb then Some(Conn)
                                   else if result.Some? then result else WriteOutcome(steps))
  {
    hide Inv, Next, Loses;
    var a := DoWrite(m, result);
    var st1 := Next(st, a);
    assert ([a] + steps)[0] == a && ([a] + steps)[1..] == steps;
    CurrentFacts(st);
    StepEffect(st, a);
    StepKeeps(st, a) by {
      assert !Loses(st, a) by {
        WriteLosesNothing(st, a);
      }
    }
    if st1.current == Some(m) {
      WriteGets(st1, steps, last, m);
    } else {
      OnceAnswered(st1, steps, last, m);
    }
  }

  lemma WriteLosesNothing(st: State, a: Step)
    requires a.DoWrite? || a.DoConnect?
    ensures !Loses(st, a)
  {
  }

  /** A write is told ERR_OK only by its own step or a callback that finished it with ERR_OK. */
  lemma WriteOkMeansDone(st: State, m: nat, result: Option<Err>, steps: seq<Step>, last: State)
    requires Inv(st) && !st.nb && m !in st.msgs && Runs(st, [DoWrite(m, result)] + steps, last)
    requires forall k :: 0 <= k < |steps| ==> steps[k] != Failed(Ok)
    requires m in last.msgs && last.msgs[m].acks > 0 && last.msgs[m].err == Some(Ok)
    ensures result == Some(Ok) || exists k :: 0 <= k < |steps| && (steps[k].Sent? || steps[k].Poll?) && steps[k].result == Some(Ok)
  {
    hide Inv, Next, Runs;
    WriteResult(st, m, result, steps, last);
    if WriteOutcome(steps) == Some(Ok) {
      OkOutcome(steps);
    }
  }

  lemma {:induction false} OkOutcome(steps: seq<Step>)
    requires WriteOutcome(steps) == Some(Ok) && forall k :: 0 <= k < |steps| ==> steps[k] != Failed(Ok)
    ensures exists k :: 0 <= k < |steps| && (steps[k].Sent? || steps[k].Poll?) && steps[k].result == Some(Ok)
  {
    if !((steps[0].Sent? || steps[0].Poll?) && steps[0].result == Some(Ok)) {
      forall k | 0 <= k < |steps| - 1
        ensures steps[1..][k] == steps[k + 1]
      {
      }
      OkOutcome(steps[1..]);
      var k :| 0 <= k < |steps[1..]| && (steps[1..][k].Sent? || steps[1..][k].Poll?) && steps[1..][k].result == Some(Ok);
      assert steps[k + 1] == steps[1..][k];
    }
  }

  /** A blocking connect: refused at once, or ended exactly by its outcome, so that it succeeds only
      by a connected callback without an error. */
  lemma ConnectResult(st: State, m: nat, tcp: Err, steps: seq<Step>, last: State)
    requires Inv(st) && m !in st.msgs && Runs(st, [DoConnect(m, tcp, false)] + steps, last)
    ensures Gets(last, m, Connecting, if !st.pcb then Some(Clsd)
                                      else if st.phase.Connecting? then Some(Already)
                                      else if !st.phase.Idle? then Some(IsConn)
                                      else if !tcp.Ok? then Some(tcp) else ConnectOutcome(steps))
    ensures (forall k :: 0 <= k < |steps| ==> steps[k] != Failed(Ok)) && ConnectOutcome(steps) == Some(Ok) ==> Connected(Ok) in steps
  {
    hide Inv, Next, Loses;
    var a := DoConnect(m, tcp, false);
    var st1 := Next(st, a);
    assert ([a] + steps)[0] == a && ([a] + steps)[1..] == steps;
    CurrentFacts(st);
    StepEffect(st, a);
    WriteLosesNothing(st, a);
    StepKeeps(st, a);
    if st1.current == Some(m) {
      ConnectGets(st1, steps, last, m);
    } else {
      OnceAnswered(st1, steps, last, m);
    }
    if (forall k :: 0 <= k < |steps| ==> steps[k] != Failed(Ok)) && ConnectOutcome(steps) == Some(Ok) {
      ConnectedOk(steps);
    }
  }

  lemma {:induction false} ConnectedOk(steps: seq<Step>)
    requires ConnectOutcome(steps) == Some(Ok) && forall k :: 0 <= k < |steps| ==> steps[k] != Failed(Ok)
    ensures Connected(Ok) in steps
  {
    if steps[0] != Connected(Ok) {
      forall k | 0 <= k < |steps| - 1
        ensures steps[1..][k] == steps[k + 1]
      {
      }
      ConnectedOk(steps[1..]);
    }
  }

  // ----- the pending error -----

  /** A netconn whose connection has failed. */
  predicate Dead(st: State) {
    st.phase.Idle? && !st.pcb
  }

  lemma DeadStep(st: State, a: Step)
    requires Dead(st) && Enabled(st, a)
    ensures Dead(Next(st, a)) && Next(st, a).current == st.current
    ensures Next(st, a).pending == if a.DoWrite? then Ok else st.pending
    ensures a.DoWrite? ==> Told(st, Next(st, a), a.m, Some(if st.pending.Ok? then Conn else st.pending))
    ensures forall k :: k in st.msgs ==> k in Next(st, a).msgs && Next(st, a).msgs[k] == st.msgs[k]
  {
  }

  /** The writes of a failed netconn, in their order: the first is told the pending error, if there is
      one, and the others ERR_CONN. */
  lemma {:induction false} ReportedOnce(st: State, steps: seq<Step>, last: State, k: nat)
    requires Dead(st) && Runs(st, steps, last) && k < |steps| && steps[k].DoWrite?
    ensures var first := forall j :: 0 <= j < k ==> !steps[j].DoWrite?;
            && steps[k].m in last.msgs
            && last.msgs[steps[k].m].err == Some(if first && !st.pending.Ok? then st.pending else Conn)
            && last.msgs[steps[k].m].acks == 1
    decreases |steps|
  {
    hide Next;
    var a := steps[0];
    var st1 := Next(st, a);
    DeadStep(st, a);
    if k == 0 {
      DeadKeeps(st1, steps[1..], last, a.m);
    } else {
      ReportedOnce(st1, steps[1..], last, k - 1);
      assert steps[1..][k - 1] == steps[k];
      assert forall j :: 0 < j < k ==> steps[j] == steps[1..][j - 1];
      assert forall j :: 0 <= j < k - 1 ==> steps[1..][j] == steps[j + 1];
    }
  }

  lemma {:induction false} DeadKeeps(st: State, steps: seq<Step>, last: State, m: nat)
    requires Dead(st) && Runs(st, steps, last) && m in st.msgs
    ensures m in last.msgs && last.msgs[m] == st.msgs[m]
    decreases |steps|
  {
    hide Next;
    if steps != [] {
      DeadStep(st, steps[0]);
      DeadKeeps(Next(st, steps[0]), steps[1..], last, m);
    }
  }

  /** After an error callback, whatever comes, exactly the first write is told that error. */
  lemma ErrorReportedOnce(st: State, err: Err, steps: seq<Step>, last: State, k: nat)
    requires Inv(st) && st.pcb && !err.Ok? && k < |steps| && steps[k].DoWrite?
    requires Runs(Next(st, Failed(err)), steps, last)
    ensures steps[k].m in last.msgs && last.msgs[steps[k].m].acks == 1
    ensures last.msgs[steps[k].m].err == Some(if forall j :: 0 <= j < k ==> !steps[j].DoWrite? then err else Conn)
  {
    hide Inv, Next;
    StepEffect(st, Failed(err));
    ReportedOnce(Next(st, Failed(err)), steps, last, k);
  }
}
