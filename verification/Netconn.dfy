/**
 The state of a TCP netconn (api_msg.c; full duplex, no core locking, no send timeout, no
 linger): application messages and TCP callbacks run one after the other in the tcpip
 thread, in any order, and the results of the tcp_* calls are free.
 */
module NetconnProtocol {
  import opened Options

  datatype Err = Ok | Mem | WouldBlock | Rte | Conn | Clsd | InProgress | Already | IsConn | Val | Other

  datatype Phase = Idle | Writing | Listening | Connecting | Closing

  /** The API message of a blocked application call: what to shut down, the polls a close may
      still wait, the result, and how often its semaphore was signalled. */
  datatype Msg = Msg(rx: bool, tx: bool, polls: nat, err: Option<Err>, acks: nat)

  /** struct netconn and the messages that exist; `nb` is the flag IN_NONBLOCKING_CONNECT. */
  datatype State = State(phase: Phase, current: Option<nat>, pcb: bool, nb: bool, pending: Err, msgs: map<nat, Msg>)

  /** (LWIP_TCP_CLOSE_TIMEOUT_MS_DEFAULT + TCP_SLOW_INTERVAL - 1) / TCP_SLOW_INTERVAL + 1 */
  const POLLS: nat := 41

  function NewMsg(rx: bool, tx: bool): Msg {
    Msg(rx, tx, POLLS, None, 0)
  }

  /** What tcp_close or tcp_shutdown answers, and whether a half shutdown amounts to a close. */
  datatype CloseEnv = CloseEnv(err: Err, closes: bool)

  /** What becomes of a listen: it works, TCP refuses it, or the pcb is lost for want of a mailbox. */
  datatype ListenEnv = Listens | Rejected(why: Err) | NoMailbox(why: Err)

  datatype Step =
    | DoWrite(m: nat, result: Option<Err>)
    | DoConnect(m: nat, tcp: Err, nonblocking: bool)
    | DoListen(m: nat, listen: ListenEnv)
    | DoClose(m: nat, rx: bool, tx: bool, shutdown: Err, env: CloseEnv)
    | DoDelconn(m: nat, env: CloseEnv)
    | Connected(err: Err)
    | Sent(result: Option<Err>, env: CloseEnv)
    | Poll(result: Option<Err>, env: CloseEnv)
    | Failed(err: Err)

  predicate IsMessage(a: Step) {
    a.DoWrite? || a.DoConnect? || a.DoListen? || a.DoClose? || a.DoDelconn?
  }

  /** Messages are new, and TCP calls back only a netconn that has a pcb. */
  predicate Enabled(st: State, a: Step) {
    match a
    case DoWrite(m, _) => m !in st.msgs
    case DoConnect(m, _, _) => m !in st.msgs
    case DoListen(m, _) => m !in st.msgs
    case DoClose(m, rx, tx, _, _) => m !in st.msgs && (rx || tx)
    case DoDelconn(m, _) => m !in st.msgs
    case Connected(_) => st.pcb && st.phase.Connecting?
    case Sent(_, _) => st.pcb
    case Poll(_, _) => st.pcb
    case Failed(_) => st.pcb
  }

  /** Give the result to message `m` and signal its semaphore. */
  function Ack(msgs: map<nat, Msg>, m: nat, err: Option<Err>): map<nat, Msg>
    requires m in msgs
  {
    msgs[m := msgs[m].(err := err, acks := msgs[m].acks + 1)]
  }

  /** End of the blocked operation of the current message. */
  function Finish(st: State, err: Err): State
    requires st.current.Some? && st.current.value in st.msgs
  {
    st.(msgs := Ack(st.msgs, st.current.value, Some(err)), current := None, phase := Idle)
  }

  /** lwip_netconn_do_writemore: `result` is its outcome when the write is finished. */
  function WriteMore(st: State, result: Option<Err>): State
    requires st.current.Some? && st.current.value in st.msgs
  {
    match result
    case None => st
    case Some(err) => Finish(st, err)
  }

  /** lwip_netconn_do_close_internal. */
  function CloseInternal(st: State, env: CloseEnv): State
    requires st.current.Some? && st.current.value in st.msgs
  {
    var m := st.msgs[st.current.value];
    var shutClose := (m.rx && m.tx) || env.closes;
    if env.err.Mem? && m.polls > 0 then st
    else
      var err := if env.err.Mem? && shutClose then Ok else env.err;
      var st' := Finish(st, err);
      if err.Ok? && shutClose then st'.(pcb := false) else st'
  }

  /** A poll uses up one of those that the current close may still wait for. */
  function Polled(st: State): State
    requires HasCurrent(st)
  {
    var c := st.current.value;
    WithMsg(st, c, st.msgs[c].(polls := if st.msgs[c].polls > 0 then st.msgs[c].polls - 1 else 0))
  }

  function WithMsg(st: State, m: nat, msg: Msg): State {
    st.(msgs := st.msgs[m := msg])
  }

  function Refuse(st: State, m: nat, msg: Msg, err: Option<Err>): State {
    st.(msgs := st.msgs[m := msg.(err := err, acks := msg.acks + 1)])
  }

  /** Abort the operation of the current message because of a close. */
  function Abort(st: State): State {
    if st.current.Some? && st.current.value in st.msgs then Finish(st, Clsd) else st.(phase := Idle)
  }

  predicate HasCurrent(st: State) {
    st.current.Some? && st.current.value in st.msgs
  }

  function DoCloseNext(st: State, m: nat, rx: bool, tx: bool, shutdown: Err, env: CloseEnv): State {
    var msg := NewMsg(rx, tx);
    if !st.pcb || (st.phase.Listening? && !(rx && tx)) then Refuse(st, m, msg, Some(Conn))
    else if st.phase.Connecting? then Refuse(st, m, msg, Some(Conn))
    else if st.phase.Writing? && !tx then Refuse(st, m, msg, Some(shutdown))
    else if st.phase.Writing? || st.phase.Idle? then
      var st' := if st.phase.Writing? then Abort(st) else st;
      CloseInternal(WithMsg(st', m, msg).(phase := Closing, current := Some(m)), env)
    else Refuse(st, m, msg, None)
  }

  function DoDelconnNext(st: State, m: nat, env: CloseEnv): State {
    var msg := NewMsg(true, true);
    var st' := if st.phase.Writing? || (st.phase.Connecting? && !st.nb) then Abort(st) else st;
    if st'.pcb then CloseInternal(WithMsg(st', m, msg.(err := Some(Ok))).(phase := Closing, current := Some(m)), env)
    else Refuse(st', m, msg, Some(Ok))
  }

  function FailedNext(st: State, err: Err): State {
    var st' := st.(pcb := false, pending := err, phase := Idle);
    if st.phase.Writing? || st.phase.Closing? || st.phase.Connecting? then
      if !st.nb && HasCurrent(st)
      then Finish(st', if st.phase.Closing? then Ok else err)
      else st'.(nb := false)
    else st'
  }

  function Next(st: State, a: Step): State
    requires Enabled(st, a)
  {
    match a
    case DoWrite(m, result) =>
      var msg := NewMsg(false, false);
      if !st.pending.Ok? then Refuse(st, m, msg, Some(st.pending)).(pending := Ok)
      else if !st.phase.Idle? then Refuse(st, m, msg, Some(InProgress))
      else if st.pcb then WriteMore(WithMsg(st, m, msg).(phase := Writing, current := Some(m)), result)
      else Refuse(st, m, msg, Some(Conn))
    case DoConnect(m, tcp, nonblocking) =>
      var msg := NewMsg(false, false);
      if !st.pcb then Refuse(st, m, msg, Some(Clsd))
      else if st.phase.Connecting? then Refuse(st, m, msg, Some(Already))
      else if !st.phase.Idle? then Refuse(st, m, msg, Some(IsConn))
      else if !tcp.Ok? then Refuse(st, m, msg, Some(tcp))
      else if nonblocking then Refuse(st, m, msg, Some(InProgress)).(phase := Connecting, nb := true)
      else WithMsg(st, m, msg).(phase := Connecting, nb := false, current := Some(m))
    case DoListen(m, listen) =>
      var msg := NewMsg(false, false);
      if !st.pcb then Refuse(st, m, msg, Some(Conn))
      else if st.phase.Listening? then Refuse(st, m, msg, Some(Ok))
      else if !st.phase.Idle? then Refuse(st, m, msg, Some(Conn))
      else (match listen
            case Listens => Refuse(st, m, msg, Some(Ok)).(phase := Listening)
            case Rejected(err) => Refuse(st, m, msg, Some(err))
            case NoMailbox(err) => Refuse(st, m, msg, Some(err)).(pcb := false))
    case DoClose(m, rx, tx, shutdown, env) => DoCloseNext(st, m, rx, tx, shutdown, env)
    case DoDelconn(m, env) => DoDelconnNext(st, m, env)
    case Connected(err) =>
      if HasCurrent(st) && !st.nb then Finish(st, err)
      else if HasCurrent(st) then
        var c := st.current.value;
        st.(phase := Idle, current := None, nb := false, msgs := st.msgs[c := st.msgs[c].(err := Some(err))])
      else st.(phase := Idle, current := None, nb := false)
    case Sent(result, env) =>
      if st.phase.Writing? && HasCurrent(st) then WriteMore(st, result)
      else if st.phase.Closing? && HasCurrent(st) then CloseInternal(st, env)
      else st
    case Poll(result, env) =>
      if st.phase.Writing? && HasCurrent(st) then WriteMore(st, result)
      else if st.phase.Closing? && HasCurrent(st) then
        CloseInternal(Polled(st), env)
      else st
    case Failed(err) => FailedNext(st, err)
  }

  // ----- every message is acknowledged exactly once -----

  /** The phases in which an application call is blocked on the current message. */
  predicate Blocking(st: State) {
    st.phase.Writing? || st.phase.Closing? || (st.phase.Connecting? && !st.nb)
  }

  ghost predicate Inv(st: State) {
    && (Blocking(st) <==> st.current.Some?)
    && (st.current.Some? ==> st.current.value in st.msgs && st.pcb)
    && (st.phase.Connecting? ==> st.pcb)
    && (forall m :: m in st.msgs ==> st.msgs[m].acks == if st.current == Some(m) then 0 else 1)
  }

  lemma CurrentFacts(st: State)
    requires Inv(st)
    ensures Blocking(st) <==> st.current.Some?
    ensures st.current.Some? ==> st.current.value in st.msgs && st.pcb
  {
  }

  /** The two ways in which the current message is dropped without an acknowledgement: a second
      delete while a close is pending, and an error of the pcb while the flag of a nonblocking
      connect is still set although another operation blocks. */
  predicate Loses(st: State, a: Step) {
    || (a.DoDelconn? && st.phase.Closing?)
    || (a.Failed? && st.nb && (st.phase.Writing? || st.phase.Closing?))
  }

  /** The messages that have been sent but neither acknowledged nor kept as current. */
  ghost predicate Settled(st: State, m: nat) {
    m in st.msgs && st.msgs[m].acks == if st.current == Some(m) then 0 else 1
  }

  lemma CloseSettles(st: State, env: CloseEnv, m: nat)
    requires HasCurrent(st) && Settled(st, m) && st.msgs[st.current.value].acks == 0
    ensures Settled(CloseInternal(st, env), m)
    ensures var st' := CloseInternal(st, env); st' == st || (st'.phase.Idle? && st'.current.None? && st'.nb == st.nb)
  {
  }

  lemma ClosingSettles(st: State, a: Step, m: nat)
    requires Inv(st) && Enabled(st, a) && (a.DoClose? || a.DoDelconn?) && !Loses(st, a)
    requires m == a.m || m in st.msgs
    ensures Settled(Next(st, a), m)
  {
    hide CloseInternal;
    assert m != a.m ==> Settled(st, m);
    match a
    case DoClose(_, rx, tx, _, env) =>
      var st1 := WithMsg(if st.phase.Writing? then Abort(st) else st, a.m, NewMsg(rx, tx)).(phase := Closing, current := Some(a.m));
      if st.phase.Writing? || st.phase.Idle? {
        CloseSettles(st1, env, m);
      }
    case DoDelconn(_, env) =>
      var st0 := if st.phase.Writing? || (st.phase.Connecting? && !st.nb) then Abort(st) else st;
      CloseSettles(WithMsg(st0, a.m, NewMsg(true, true).(err := Some(Ok))).(phase := Closing, current := Some(a.m)), env, m);
  }

  lemma StartSettles(st: State, a: Step, m: nat)
    requires Inv(st) && Enabled(st, a) && IsMessage(a) && !a.DoClose? && !a.DoDelconn?
    requires m == a.m || m in st.msgs
    ensures Settled(Next(st, a), m)
  {
    assert m != a.m ==> Settled(st, m);
  }

  lemma CallbackSettles(st: State, a: Step, m: nat)
    requires Inv(st) && Enabled(st, a) && !IsMessage(a) && !Loses(st, a) && m in st.msgs
    ensures Settled(Next(st, a), m)
  {
  }

  lemma PhaseAfter(st: State, a: Step)
    requires Inv(st) && Enabled(st, a)
    ensures var st' := Next(st, a);
            && (!Loses(st, a) ==> (Blocking(st') <==> st'.current.Some?))
            && (!Loses(st, a) && st'.current.Some? ==> st'.current.value in st'.msgs && st'.pcb)
            && (st'.phase.Connecting? ==> st'.pcb)
  {
  }

  lemma StepKeeps(st: State, a: Step)
    requires Inv(st) && Enabled(st, a) && !Loses(st, a)
    ensures Inv(Next(st, a))
  {
    hide Next;
    PhaseAfter(st, a);
    if IsMessage(a) {
      MessageKeys(st, a);
    } else {
      CallbackKeys(st, a);
    }
    forall m | m in Next(st, a).msgs
      ensures Settled(Next(st, a), m)
    {
      if a.DoClose? || a.DoDelconn? {
        ClosingSettles(st, a, m);
      } else if IsMessage(a) {
        StartSettles(st, a, m);
      } else {
        CallbackSettles(st, a, m);
      }
    }
  }

  lemma CloseKeys(st: State, env: CloseEnv)
    requires HasCurrent(st)
    ensures CloseInternal(st, env).msgs.Keys == st.msgs.Keys
  {
  }

  lemma FinishKeys(st: State, err: Err)
    requires HasCurrent(st)
    ensures Finish(st, err).msgs.Keys == st.msgs.Keys
  {
  }

  lemma MessageKeys(st: State, a: Step)
    requires Enabled(st, a) && IsMessage(a)
    ensures Next(st, a).msgs.Keys == st.msgs.Keys + {a.m}
  {
    hide CloseInternal, Finish;
    match a
    case DoClose(_, rx, tx, _, env) =>
      AbortKeys(st);
      CloseKeys(WithMsg(if st.phase.Writing? then Abort(st) else st, a.m, NewMsg(rx, tx)).(phase := Closing, current := Some(a.m)), env);
    case DoDelconn(_, env) =>
      AbortKeys(st);
      var st0 := if st.phase.Writing? || (st.phase.Connecting? && !st.nb) then Abort(st) else st;
      CloseKeys(WithMsg(st0, a.m, NewMsg(true, true).(err := Some(Ok))).(phase := Closing, current := Some(a.m)), env);
    case DoWrite(_, result) =>
      if result.Some? {
        FinishKeys(WithMsg(st, a.m, NewMsg(false, false)).(phase := Writing, current := Some(a.m)), result.value);
      }
    case _ =>
  }

  lemma AbortKeys(st: State)
    ensures Abort(st).msgs.Keys == st.msgs.Keys
  {
  }

  lemma CallbackKeys(st: State, a: Step)
    requires Enabled(st, a) && !IsMessage(a)
    ensures Next(st, a).msgs.Keys == st.msgs.Keys
  {
    hide CloseInternal;
    if HasCurrent(st) {
      match a
      case Sent(_, env) => CloseKeys(st, env);
      case Poll(_, env) => CloseKeys(Polled(st), env);
      case _ =>
    }
  }

  /** A message that nobody will acknowledge any more: its application call never returns. */
  predicate Lost(st: State, m: nat) {
    m in st.msgs && st.msgs[m].acks == 0 && !(Blocking(st) && st.current == Some(m))
  }

  /** Those are exactly the ways: a step loses the current message if and only if `Loses`. */
  lemma LosesExactly(st: State, a: Step)
    requires Inv(st) && Enabled(st, a)
    ensures (exists m :: Lost(Next(st, a), m)) <==> Loses(st, a)
  {
    if Loses(st, a) {
      DropsCurrent(st, a);
    } else {
      StepKeeps(st, a);
    }
  }

  lemma DropsCurrent(st: State, a: Step)
    requires Inv(st) && Enabled(st, a) && Loses(st, a)
    ensures st.current.Some? && Lost(Next(st, a), st.current.value)
  {
    assert st.current.Some?;
    assert st.msgs[st.current.value].acks == 0;
  }

  /** A lost message stays lost, at a close and otherwise. */
  lemma LostAtClose(st: State, a: Step, m: nat)
    requires Enabled(st, a) && Lost(st, m) && (a.DoClose? || a.DoDelconn?)
    ensures Lost(Next(st, a), m)
  {
    hide CloseInternal;
    match a
    case DoClose(_, rx, tx, _, env) =>
      CloseOther(WithMsg(if st.phase.Writing? then Abort(st) else st, a.m, NewMsg(rx, tx)).(phase := Closing, current := Some(a.m)), env, m);
    case DoDelconn(_, env) =>
      var st0 := if st.phase.Writing? || (st.phase.Connecting? && !st.nb) then Abort(st) else st;
      CloseOther(WithMsg(st0, a.m, NewMsg(true, true).(err := Some(Ok))).(phase := Closing, current := Some(a.m)), env, m);
  }

  lemma LostOtherwise(st: State, a: Step, m: nat)
    requires Enabled(st, a) && Lost(st, m) && !a.DoClose? && !a.DoDelconn?
    ensures Lost(Next(st, a), m)
  {
    hide CloseInternal;
    if st.phase.Closing? && HasCurrent(st) {
      match a
      case Sent(_, env) => CloseOther(st, env, m);
      case Poll(_, env) => CloseOther(Polled(st), env, m);
      case _ =>
    }
  }

  /** A close acknowledges no message but its own. */
  lemma CloseOther(st: State, env: CloseEnv, m: nat)
    requires HasCurrent(st) && st.current != Some(m) && m in st.msgs
    ensures var st' := CloseInternal(st, env);
            m in st'.msgs && st'.msgs[m] == st.msgs[m] && (st'.current.None? || st'.current == st.current)
  {
  }

  ghost predicate Runs(st: State, steps: seq<Step>, last: State)
    decreases |steps|
  {
    if steps == [] then last == st
    else Enabled(st, steps[0]) && Runs(Next(st, steps[0]), steps[1..], last)
  }

  /** Some step of the run loses a message. */
  ghost predicate LosesOnTheWay(st: State, steps: seq<Step>)
    decreases |steps|
  {
    steps != [] && Enabled(st, steps[0]) && (Loses(st, steps[0]) || LosesOnTheWay(Next(st, steps[0]), steps[1..]))
  }

  lemma {:induction false} LostForever(st: State, steps: seq<Step>, last: State, m: nat)
    requires Runs(st, steps, last) && Lost(st, m)
    ensures Lost(last, m)
    decreases |steps|
  {
    if steps != [] {
      if steps[0].DoClose? || steps[0].DoDelconn? {
        LostAtClose(st, steps[0], m);
      } else {
        LostOtherwise(st, steps[0], m);
      }
      LostForever(Next(st, steps[0]), steps[1..], last, m);
    }
  }

  /** Over any run, every message but the current one has been acknowledged exactly once and
      the current one not yet, if and only if no step of the run loses a message. */
  lemma {:induction false} AckedExactlyOnce(st: State, steps: seq<Step>, last: State)
    requires Inv(st) && Runs(st, steps, last)
    ensures !LosesOnTheWay(st, steps) ==> Inv(last)
    ensures LosesOnTheWay(st, steps) <==> exists m :: Lost(last, m)
    decreases |steps|
  {
    if steps != [] {
      if Loses(st, steps[0]) {
        DropsCurrent(st, steps[0]);
        LostForever(Next(st, steps[0]), steps[1..], last, st.current.value);
      } else {
        StepKeeps(st, steps[0]);
        AckedExactlyOnce(Next(st, steps[0]), steps[1..], last);
      }
    }
  }

  /** A new TCP netconn. */
  predicate Init(st: State) {
    st == State(Idle, None, true, false, Ok, map[])
  }

  /** The steps of a netconn that is only used blocking and never deleted during a close. */
  ghost predicate BlockingUse(st: State, steps: seq<Step>)
    decreases |steps|
  {
    steps != [] && Enabled(st, steps[0]) ==>
      && !(steps[0].DoConnect? && steps[0].nonblocking)
      && !(steps[0].DoDelconn? && st.phase.Closing?)
      && BlockingUse(Next(st, steps[0]), steps[1..])
  }

  lemma {:induction false} BlockingUseLosesNothing(st: State, steps: seq<Step>, last: State)
    requires !st.nb && BlockingUse(st, steps) && Runs(st, steps, last)
    ensures !LosesOnTheWay(st, steps) && !last.nb
    decreases |steps|
  {
    if steps != [] {
      StaysBlocking(st, steps[0]);
      BlockingUseLosesNothing(Next(st, steps[0]), steps[1..], last);
    }
  }

  lemma StaysBlocking(st: State, a: Step)
    requires Enabled(st, a) && !st.nb && !(a.DoConnect? && a.nonblocking)
    ensures !Next(st, a).nb
  {
  }

  /** For a blocking netconn: the current message is set exactly in the states WRITE, CLOSE and
      CONNECT, and every other message ever sent has been acknowledged once. */
  lemma BlockingNetconn(first: State, steps: seq<Step>, st: State)
    requires Init(first) && Runs(first, steps, st) && BlockingUse(first, steps)
    ensures st.current.Some? <==> st.phase.Writing? || st.phase.Closing? || st.phase.Connecting?
    ensures forall m :: m in st.msgs ==> st.msgs[m].acks == if st.current == Some(m) then 0 else 1
  {
    BlockingUseLosesNothing(first, steps, st);
    AckedExactlyOnce(first, steps, st);
  }

  // ----- both losses are reachable, if tcp_close may answer ERR_MEM -----

  const FIRST := State(Idle, None, true, false, Ok, map[])

  lemma {:induction false} RunsOn(st: State, steps: seq<Step>, a: Step, last: State)
    requires Enabled(st, a) && Runs(Next(st, a), steps, last)
    ensures Runs(st, [a] + steps, last)
    ensures LosesOnTheWay(st, [a] + steps) <==> Loses(st, a) || LosesOnTheWay(Next(st, a), steps)
  {
    assert ([a] + steps)[1..] == steps;
  }

  /** A second delete while the first waits for memory: the first is never answered. */
  lemma SecondDeleteLoses(env: CloseEnv) returns (last: State)
    ensures Runs(FIRST, [DoDelconn(0, CloseEnv(Mem, false)), DoDelconn(1, env)], last) && Lost(last, 0)
  {
    var a, b := DoDelconn(0, CloseEnv(Mem, false)), DoDelconn(1, env);
    var st := Next(FIRST, a);
    last := Next(st, b);
    assert Inv(FIRST);
    StepKeeps(FIRST, a);
    DropsCurrent(st, b);
    RunsOn(st, [], b, last);
    RunsOn(FIRST, [b], a, last);
    assert [a] + [b] == [a, b] && [b] + [] == [b];
  }

  /** An error of the pcb after the delete of a netconn that was connecting without blocking: the
      flag of that connect is still set, so the delete is never answered. */
  lemma NonblockingConnectLoses(err: Err) returns (last: State)
    ensures Runs(FIRST, [DoConnect(0, Ok, true), DoDelconn(1, CloseEnv(Mem, false)), Failed(err)], last) && Lost(last, 1)
  {
    var a, b, c := DoConnect(0, Ok, true), DoDelconn(1, CloseEnv(Mem, false)), Failed(err);
    var st1 := Next(FIRST, a);
    var st2 := Next(st1, b);
    last := Next(st2, c);
    assert Inv(FIRST);
    StepKeeps(FIRST, a);
    StepKeeps(st1, b);
    DropsCurrent(st2, c);
    RunsOn(st2, [], c, last);
    RunsOn(st1, [c], b, last);
    RunsOn(FIRST, [b, c], a, last);
    assert [a] + [b, c] == [a, b, c] && [b] + [c] == [b, c] && [c] + [] == [c];
  }

  /** The answers of tcp_close and tcp_shutdown in this tree: without memory for the FIN they
      remember it and answer ERR_OK (tcp.c:449-458), and a full close never fails. */
  predicate TcpAnswers(a: Step) {
    match a
    case DoClose(_, rx, tx, _, env) => env.err != Mem && ((rx && tx) || env.closes ==> env.err == Ok)
    case DoDelconn(_, env) => env.err == Ok
    case _ => true
  }

  /** With these answers a close is never left pending. */
  predicate NoneClosing(st: State) {
    !st.phase.Closing? && (st.nb ==> st.phase.Connecting? || !st.pcb)
  }

  lemma TcpKeeps(st: State, a: Step)
    requires Enabled(st, a) && TcpAnswers(a) && NoneClosing(st)
    ensures !Loses(st, a) && NoneClosing(Next(st, a))
  {
  }

  /** Against the TCP of this tree no message is ever lost: neither loss can happen, since both need
      a close that is left pending or fails. */
  lemma {:induction false} TcpLosesNothing(st: State, steps: seq<Step>, last: State)
    requires Inv(st) && NoneClosing(st) && Runs(st, steps, last)
    requires forall k :: 0 <= k < |steps| ==> TcpAnswers(steps[k])
    ensures !LosesOnTheWay(st, steps) && Inv(last) && !last.phase.Closing?
    decreases |steps|
  {
    hide Inv, Next, Loses;
    if steps != [] {
      assert TcpAnswers(steps[0]);
      TcpKeeps(st, steps[0]);
      StepKeeps(st, steps[0]);
      forall k | 0 <= k < |steps| - 1
        ensures TcpAnswers(steps[1..][k])
      {
        assert TcpAnswers(steps[k + 1]);
      }
      TcpLosesNothing(Next(st, steps[0]), steps[1..], last);
    }
  }

  // ----- a close without memory -----

  /** The steps while a close finds no memory: polls and sent callbacks get ERR_MEM, and anything
      else comes in but another delete or an error of the pcb. `closes` tells whether the half
      shutdown of a direction amounts to a close. */
  predicate WithoutMemory(a: Step, closes: bool) {
    match a
    case Poll(_, env) => env == CloseEnv(Mem, closes)
    case Sent(_, env) => env == CloseEnv(Mem, closes)
    case DoDelconn(_, _) => false
    case Failed(_) => false
    case _ => true
  }

  function Polls(steps: seq<Step>): nat {
    if steps == [] then 0 else (if steps[0].Poll? then 1 else 0) + Polls(steps[1..])
  }

  /** A pending close has polls left, from the start and after every step. */
  lemma PollsRemain(st: State, a: Step)
    requires Inv(st) && Enabled(st, a)
    requires st.phase.Closing? ==> st.msgs[st.current.value].polls > 0
    ensures Next(st, a).phase.Closing? && HasCurrent(Next(st, a)) ==> Next(st, a).msgs[Next(st, a).current.value].polls > 0
  {
  }

  /** One such step: a poll is used up, the last one ends the close, and no other step does anything to it. */
  lemma StepWithoutMemory(st: State, a: Step, closes: bool)
    requires Inv(st) && st.phase.Closing? && Enabled(st, a) && WithoutMemory(a, closes)
    requires st.msgs[st.current.value].polls > 0
    ensures var st', c, m := Next(st, a), st.current.value, st.msgs[st.current.value];
            c in st'.msgs
            && if a.Poll? && m.polls == 1 then
                 st'.phase.Idle? && st'.current.None?
                 && st'.msgs[c] == m.(polls := 0, acks := 1, err := Some(if (m.rx && m.tx) || closes then Ok else Mem))
               else
                 st'.phase.Closing? && st'.current == Some(c)
                 && st'.msgs[c] == m.(polls := if a.Poll? then m.polls - 1 else m.polls)
  {
  }

  /** What is acknowledged is not touched again, by a close and otherwise. */
  lemma StaysAtClose(st: State, a: Step, c: nat)
    requires Enabled(st, a) && c in st.msgs && st.current != Some(c) && (a.DoClose? || a.DoDelconn?)
    ensures c in Next(st, a).msgs && Next(st, a).msgs[c] == st.msgs[c] && Next(st, a).current != Some(c)
  {
    hide CloseInternal;
    match a
    case DoClose(_, rx, tx, _, env) =>
      CloseOther(WithMsg(if st.phase.Writing? then Abort(st) else st, a.m, NewMsg(rx, tx)).(phase := Closing, current := Some(a.m)), env, c);
    case DoDelconn(_, env) =>
      var st0 := if st.phase.Writing? || (st.phase.Connecting? && !st.nb) then Abort(st) else st;
      CloseOther(WithMsg(st0, a.m, NewMsg(true, true).(err := Some(Ok))).(phase := Closing, current := Some(a.m)), env, c);
  }

  lemma StaysOtherwise(st: State, a: Step, c: nat)
    requires Enabled(st, a) && c in st.msgs && st.current != Some(c) && !a.DoClose? && !a.DoDelconn?
    ensures c in Next(st, a).msgs && Next(st, a).msgs[c] == st.msgs[c] && Next(st, a).current != Some(c)
  {
    hide CloseInternal;
    if st.phase.Closing? && HasCurrent(st) {
      match a
      case Sent(_, env) => CloseOther(st, env, c);
      case Poll(_, env) => CloseOther(Polled(st), env, c);
      case _ =>
    }
  }

  lemma AnsweredStays(st: State, a: Step, c: nat)
    requires Enabled(st, a) && c in st.msgs && st.current != Some(c)
    ensures c in Next(st, a).msgs && Next(st, a).msgs[c] == st.msgs[c] && Next(st, a).current != Some(c)
  {
    hide Next;
    if a.DoClose? || a.DoDelconn? {
      StaysAtClose(st, a, c);
    } else {
      StaysOtherwise(st, a, c);
    }
  }

  /** A close that keeps getting ERR_MEM is acknowledged exactly when it has been polled as often as
      it had polls left, whatever sent callbacks and other messages come between: by a reset of the
      connection if both directions were to be closed, and with ERR_MEM otherwise. */
  lemma {:induction false} CloseTimesOut(st: State, steps: seq<Step>, last: State, closes: bool)
    requires Inv(st) && st.phase.Closing? && Runs(st, steps, last)
    requires st.msgs[st.current.value].polls > 0
    requires forall k :: 0 <= k < |steps| ==> WithoutMemory(steps[k], closes)
    ensures var c, m := st.current.value, st.msgs[st.current.value];
            c in last.msgs
            && if Polls(steps) < m.polls then
                 last.phase.Closing? && last.current == Some(c) && last.msgs[c] == m.(polls := m.polls - Polls(steps))
               else
                 last.current != Some(c)
                 && last.msgs[c] == m.(polls := 0, acks := 1, err := Some(if (m.rx && m.tx) || closes then Ok else Mem))
    decreases |steps|
  {
    hide Inv, Next;
    CurrentFacts(st);
    if steps != [] {
      var c := st.current.value;
      var st' := Next(st, steps[0]);
      assert WithoutMemory(steps[0], closes);
      StepWithoutMemory(st, steps[0], closes);
      StepKeeps(st, steps[0]);
      forall k | 0 <= k < |steps| - 1
        ensures WithoutMemory(steps[1..][k], closes)
      {
        assert WithoutMemory(steps[k + 1], closes);
      }
      if st'.phase.Closing? {
        CloseTimesOut(st', steps[1..], last, closes);
      } else {
        OnceAnswered(st', steps[1..], last, c);
      }
    }
  }

  lemma {:induction false} OnceAnswered(st: State, steps: seq<Step>, last: State, c: nat)
    requires c in st.msgs && st.current != Some(c) && Runs(st, steps, last)
    ensures c in last.msgs && last.msgs[c] == st.msgs[c] && last.current != Some(c)
    decreases |steps|
  {
    hide Next;
    if steps != [] {
      AnsweredStays(st, steps[0], c);
      OnceAnswered(Next(st, steps[0]), steps[1..], last, c);
    }
  }
}
