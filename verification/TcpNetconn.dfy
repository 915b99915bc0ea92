/** The netconn that the application messages and the TCP callbacks of api_msg.c update in place.
    What tcp_close, tcp_connect, tcp_write and so on answer is passed in. */
module TcpNetconn {
  import opened Options
  import opened NetconnProtocol
  import R = NetconnResults

  /** Deleting a netconn in a blocking connect is an ordinary run: the connect is acknowledged with
      ERR_CLSD, and the assertion "blocking connect in progress" fails on the way. */
  lemma DeleteDuringConnect(env: CloseEnv) returns (st: State, last: State)
    ensures Runs(FIRST, [Step.DoConnect(0, Err.Ok, false)], st) && st.phase.Connecting? && !st.nb
    ensures Runs(FIRST, [Step.DoConnect(0, Err.Ok, false), Step.DoDelconn(1, env)], last)
    ensures 0 in last.msgs && last.msgs[0].acks == 1 && last.msgs[0].err == Some(Clsd)
  {
    var a, b := Step.DoConnect(0, Err.Ok, false), Step.DoDelconn(1, env);
    st := Next(FIRST, a);
    last := Next(st, b);
    RunsOn(st, [], b, last);
    RunsOn(FIRST, [b], a, last);
    RunsOn(FIRST, [], a, st);
    assert [a] + [b] == [a, b] && [b] + [] == [b] && [a] + [] == [a];
  }

  class Netconn {
    var phase: Phase
    var current: Option<nat>
    var pcb: bool
    /** NETCONN_FLAG_IN_NONBLOCKING_CONNECT */
    var nb: bool
    var pending: Err
    var msgs: map<nat, Msg>

    ghost function Abs(): State
      reads this
    {
      State(phase, current, pcb, nb, pending, msgs)
    }

    ghost predicate Valid()
      reads this
    {
      Inv(Abs())
    }

    constructor ()
      ensures Init(Abs()) && Valid()
    {
      phase, current, pcb, nb, pending, msgs := Idle, None, true, false, Err.Ok, map[];
    }

    /** A message arrives in the tcpip thread. */
    method Receive(m: nat, rx: bool, tx: bool)
      modifies this`msgs
      ensures Abs() == WithMsg(old(Abs()), m, NewMsg(rx, tx))
    {
      msgs := msgs[m := NewMsg(rx, tx)];
    }

    /** msg->err = err and TCPIP_APIMSG_ACK for a message that blocks nobody. */
    method Reply(m: nat, rx: bool, tx: bool, err: Option<Err>)
      modifies this`msgs
      ensures Abs() == Refuse(old(Abs()), m, NewMsg(rx, tx), err)
    {
      var msg := NewMsg(rx, tx);
      msg := msg.(err := err);
      msg := msg.(acks := msg.acks + 1);
      msgs := msgs[m := msg];
    }

    /** sys_sem_signal on the semaphore of a message */
    method Signal(m: nat)
      requires m in msgs
      modifies this`msgs
      ensures msgs == Ack(old(msgs), m, old(msgs)[m].err)
    {
      msgs := msgs[m := msgs[m].(acks := msgs[m].acks + 1)];
    }

    /** Set the result of the current message, give up the blocked operation and wake its caller. */
    method Complete(err: Err)
      requires HasCurrent(Abs())
      modifies this
      ensures Abs() == Finish(old(Abs()), err)
      ensures phase == Idle && current == None && pcb == old(pcb) && nb == old(nb)
    {
      var m := current.value;
      ghost var was := msgs;
      msgs := msgs[m := msgs[m].(err := Some(err))];
      current := None;
      phase := Idle;
      Signal(m);
      assert msgs == Ack(was, m, Some(err));
    }

    /** The end of lwip_netconn_do_writemore. */
    method WriteMoreDone(result: Option<Err>)
      requires HasCurrent(Abs())
      modifies this
      ensures Abs() == WriteMore(old(Abs()), result)
    {
      if result.Some? {
        Complete(result.value);
      }
    }

    /** lwip_netconn_do_close_internal */
    method DoCloseInternal(env: CloseEnv)
      requires HasCurrent(Abs()) && pcb && phase.Closing?
      modifies this
      ensures Abs() == CloseInternal(old(Abs()), env)
    {
      var msg := msgs[current.value];
      var shutClose := (msg.rx && msg.tx) || env.closes;
      var err := env.err;
      var finished := false;
      if err == Err.Ok {
        finished := true;
      } else if err == Mem {
        if msg.polls == 0 {
          finished := true;
          if shutClose {
            err := Err.Ok;
          }
        }
      } else {
        finished := true;
      }
      if finished {
        Complete(err);
        if err == Err.Ok && shutClose {
          pcb := false;
        }
      }
    }

    /** lwip_netconn_do_write */
    method DoWrite(m: nat, result: Option<Err>)
      requires Valid() && m !in msgs
      modifies this
      ensures Valid() && Abs() == Next(old(Abs()), Step.DoWrite(m, result))
      ensures R.Effect(old(Abs()), Step.DoWrite(m, result), Abs())
    {
      hide Inv, CloseInternal, WriteMore, Finish, R.Effect;
      R.StepEffect(Abs(), Step.DoWrite(m, result));
      CurrentFacts(Abs());
      ghost var was := Abs();
      StepKeeps(was, Step.DoWrite(m, result));
      var err := pending;
      pending := Err.Ok;
      if err == Err.Ok {
        if phase != Idle {
          err := InProgress;
        } else if pcb {
          phase := Writing;
          assert current == None;
          Receive(m, false, false);
          current := Some(m);
          WriteMoreDone(result);
          return;
        } else {
          err := Conn;
        }
      }
      Reply(m, false, false, Some(err));
    }

    /** lwip_netconn_do_connect */
    method DoConnect(m: nat, tcp: Err, nonblocking: bool)
      requires Valid() && m !in msgs
      modifies this
      ensures Valid() && Abs() == Next(old(Abs()), Step.DoConnect(m, tcp, nonblocking))
      ensures R.Effect(old(Abs()), Step.DoConnect(m, tcp, nonblocking), Abs())
    {
      hide Inv, CloseInternal, WriteMore, Finish, R.Effect;
      R.StepEffect(Abs(), Step.DoConnect(m, tcp, nonblocking));
      CurrentFacts(Abs());
      StepKeeps(Abs(), Step.DoConnect(m, tcp, nonblocking));
      var err;
      if !pcb {
        err := Clsd;
      } else if phase == Connecting {
        err := Already;
      } else if phase != Idle {
        err := IsConn;
      } else {
        err := tcp;
        if err == Err.Ok {
          phase := Connecting;
          nb := nonblocking;
          if nonblocking {
            err := InProgress;
          } else {
            Receive(m, false, false);
            current := Some(m);
            return;
          }
        }
      }
      Reply(m, false, false, Some(err));
    }

    /** lwip_netconn_do_listen */
    method DoListen(m: nat, listen: ListenEnv)
      requires Valid() && m !in msgs
      modifies this
      ensures Valid() && Abs() == Next(old(Abs()), Step.DoListen(m, listen))
      ensures R.Effect(old(Abs()), Step.DoListen(m, listen), Abs())
    {
      hide Inv, CloseInternal, WriteMore, Finish, R.Effect;
      R.StepEffect(Abs(), Step.DoListen(m, listen));
      CurrentFacts(Abs());
      StepKeeps(Abs(), Step.DoListen(m, listen));
      var err;
      if pcb {
        if phase == Idle {
          match listen {
            case Rejected(why) => err := why;
            case Listens => err, phase := Err.Ok, Listening;
            case NoMailbox(why) => err, pcb := why, false;
          }
        } else if phase == Listening {
          err := Err.Ok;
        } else {
          err := Conn;
        }
      } else {
        err := Conn;
      }
      Reply(m, false, false, Some(err));
    }

    /** lwip_netconn_do_close: the message that asks for it keeps no result where none is set. */
    method DoClose(m: nat, rx: bool, tx: bool, shutdown: Err, env: CloseEnv)
      requires Valid() && m !in msgs && (rx || tx)
      modifies this
      ensures Valid() && Abs() == Next(old(Abs()), Step.DoClose(m, rx, tx, shutdown, env))
      ensures R.Effect(old(Abs()), Step.DoClose(m, rx, tx, shutdown, env), Abs())
    {
      hide Inv, CloseInternal, WriteMore, Finish, R.Effect;
      R.StepEffect(Abs(), Step.DoClose(m, rx, tx, shutdown, env));
      CurrentFacts(Abs());
      StepKeeps(Abs(), Step.DoClose(m, rx, tx, shutdown, env));
      ghost var was := Abs();
      var err := None;
      if pcb && ((rx && tx) || phase != Listening) {
        var state := phase;
        if state == Connecting {
          err := Some(Conn);
        } else if state == Writing {
          if tx {
            assert current.Some?;
            Complete(Clsd);
            state := Idle;
          } else {
            err := Some(shutdown);
          }
        }
        if state == Idle {
          assert current == None;
          Receive(m, rx, tx);
          phase := Closing;
          current := Some(m);
          DoCloseInternal(env);
          return;
        }
      } else {
        err := Some(Conn);
      }
      Reply(m, rx, tx, err);
    }

    /** lwip_netconn_do_delconn, with its two assertions: "blocking connect in progress" looks at the
        state from before the abort and so fails when a blocking connect has just been aborted;
        "already writing or closing" fails when a close is pending. */
    method DoDelconn(m: nat, env: CloseEnv) returns (connectHolds: bool, closeHolds: bool)
      requires Valid() && m !in msgs
      modifies this
      ensures Abs() == Next(old(Abs()), Step.DoDelconn(m, env))
      ensures R.Effect(old(Abs()), Step.DoDelconn(m, env), Abs())
      ensures connectHolds == !(old(phase).Connecting? && !old(nb))
      ensures closeHolds == !old(phase).Closing?
      ensures closeHolds ==> Valid()
    {
      hide Inv, CloseInternal, WriteMore, Finish, R.Effect;
      R.StepEffect(Abs(), Step.DoDelconn(m, env));
      CurrentFacts(Abs());
      ghost var was, step := Abs(), Step.DoDelconn(m, env);
      if !Loses(was, step) {
        StepKeeps(was, step);
      }
      closeHolds := true;
      var state := phase;
      if state != Idle {
        if phase == Writing || (phase == Connecting && !nb) {
          Complete(Clsd);
        }
      }
      connectHolds := state != Connecting || nb;
      if pcb {
        closeHolds := current == None;
        msgs := msgs[m := NewMsg(true, true).(err := Some(Err.Ok))];
        phase := Closing;
        current := Some(m);
        DoCloseInternal(env);
        return;
      }
      Reply(m, true, true, Some(Err.Ok));
    }

    /** lwip_netconn_do_connected; its assertions on the current message hold. */
    method DoConnected(err: Err)
      requires Valid() && pcb && phase.Connecting?
      modifies this
      ensures Valid() && Abs() == Next(old(Abs()), Connected(err))
      ensures R.Effect(old(Abs()), Connected(err), Abs())
    {
      hide Inv, CloseInternal, WriteMore, R.Effect;
      R.StepEffect(Abs(), Connected(err));
      CurrentFacts(Abs());
      StepKeeps(Abs(), Connected(err));
      assert current.Some? || nb;
      ghost var was := msgs;
      var completed := current;
      if current.Some? {
        msgs := msgs[current.value := msgs[current.value].(err := Some(err))];
      }
      var wasBlocking := !nb;
      nb := false;
      assert wasBlocking == completed.Some?;
      current := None;
      phase := Idle;
      if wasBlocking {
        Signal(completed.value);
        assert msgs == Ack(was, completed.value, Some(err));
      }
    }

    /** sent_tcp */
    method SentTcp(result: Option<Err>, env: CloseEnv)
      requires Valid() && pcb
      modifies this
      ensures Valid() && Abs() == Next(old(Abs()), Sent(result, env))
      ensures R.Effect(old(Abs()), Sent(result, env), Abs())
    {
      hide Inv, CloseInternal, WriteMore, Finish, R.Effect;
      R.StepEffect(Abs(), Sent(result, env));
      CurrentFacts(Abs());
      StepKeeps(Abs(), Sent(result, env));
      if phase == Writing {
        WriteMoreDone(result);
      } else if phase == Closing {
        DoCloseInternal(env);
      }
    }

    /** poll_tcp */
    method PollTcp(result: Option<Err>, env: CloseEnv)
      requires Valid() && pcb
      modifies this
      ensures Valid() && Abs() == Next(old(Abs()), Poll(result, env))
      ensures R.Effect(old(Abs()), Poll(result, env), Abs())
    {
      hide Inv, CloseInternal, WriteMore, Finish, R.Effect;
      R.StepEffect(Abs(), Poll(result, env));
      CurrentFacts(Abs());
      StepKeeps(Abs(), Poll(result, env));
      if phase == Writing {
        WriteMoreDone(result);
      } else if phase == Closing {
        var m := current.value;
        var msg := msgs[m];
        if msg.polls > 0 {
          msgs := msgs[m := msg.(polls := msg.polls - 1)];
        } else {
          assert msgs[m := msg] == msgs;
        }
        DoCloseInternal(env);
      }
    }

    /** err_tcp: the pcb is gone. Without the flag of a nonblocking connect the current message
        gets its result; otherwise nobody is woken. */
    method ErrTcp(err: Err)
      requires Valid() && pcb
      modifies this
      ensures Abs() == Next(old(Abs()), Failed(err))
      ensures R.Effect(old(Abs()), Failed(err), Abs())
      ensures !pcb && pending == err && phase == Idle
      ensures !old(nb) && old(current).Some? ==>
                && current == None
                && R.Told(old(Abs()), Abs(), old(current).value, Some(if old(phase).Closing? then Err.Ok else err))
      ensures !Loses(old(Abs()), Failed(err)) ==> Valid()
    {
      hide Inv, CloseInternal, WriteMore, Finish;
      R.StepEffect(Abs(), Failed(err));
      CurrentFacts(Abs());
      ghost var was := Abs();
      if !Loses(was, Failed(err)) {
        StepKeeps(was, Failed(err));
      }
      pcb := false;
      pending := err;
      var oldState := phase;
      phase := Idle;
      if oldState == Writing || oldState == Closing || oldState == Connecting {
        var wasNonblocking := nb;
        nb := false;
        if !wasNonblocking {
          Complete(if oldState == Closing then Err.Ok else err);
        }
      } else {
        assert current == None;
      }
    }
  }
}
