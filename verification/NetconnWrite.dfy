/**
 The blocking writer: lwip_netconn_do_writemore (api_msg.c) under netconn_write_vectors_partly
 (api_lib.c). What tcp_sndbuf, tcp_write and tcp_output answer is free, so the loop is given the
 answers it will get; one that uses them all up is still spinning.
 */
module NetconnWrite {
  import opened Octets
  import opened NetconnProtocol

  const U16: nat := 0x1_0000
  /** size_t and ssize_t have 32 bits. */
  const SIZE_MAX: nat := 0xffff_ffff
  const SSIZE_MAX: nat := 0x7fff_ffff

  /** The vectors of a message and how far they have been written: the current vector, how many are
      left with it, the offset in it and the bytes written in all. */
  datatype Cursor = Cursor(vec: nat, cnt: nat, off: nat, offset: nat)

  /** The answers of one iteration: the free send buffer and whether tcp_write can queue a segment. */
  datatype Answer = Answer(room: nat, queued: Err)

  /** tcp_write: any answer, but for a write of no bytes not ERR_MEM, since it looks neither at the
      send buffer nor at the queue and allocates nothing (tcp_out.c:316-317). */
  function TcpWrite(a: Answer, len: nat): Err {
    if len == 0 && a.queued == Mem then Err.Ok else a.queued
  }

  datatype Outcome = More | Stop(err: Err)

  /** One call of lwip_netconn_do_writemore: still in its loop, waiting for a callback, or over. */
  datatype Result = Spinning | Waiting | Finished(err: Err)

  function Start(vs: seq<seq<byte>>): Cursor {
    Cursor(0, |vs|, 0, 0)
  }

  /** The cursor fits the vectors and never rests at the end of a non-empty one before the last. */
  predicate CursorOk(vs: seq<seq<byte>>, c: Cursor) {
    && c.vec < |vs| && c.off <= |vs[c.vec]|
    && c.offset == |Flatten(vs[..c.vec])| + c.off
    && if c.cnt == 0 then c.vec == |vs| - 1 && c.off == |vs[c.vec]|
       else c.cnt == |vs| - c.vec && (c.off < |vs[c.vec]| || vs[c.vec] == [])
  }

  /** `len` more bytes of the current vector are written. */
  function Advance(vs: seq<seq<byte>>, c: Cursor, len: nat): Cursor
    requires c.vec < |vs| && c.cnt > 0
  {
    var c1 := c.(offset := c.offset + len, off := c.off + len);
    if c1.off != |vs[c.vec]| then c1
    else if c.cnt == 1 then c1.(cnt := 0)
    else c1.(cnt := c.cnt - 1, vec := c.vec + 1, off := 0)
  }

  function Left(vs: seq<seq<byte>>, c: Cursor): nat
    requires CursorOk(vs, c)
  {
    |vs[c.vec]| - c.off
  }

  /** How much an iteration offers to tcp_write. */
  function Length(diff: nat, room: nat): nat {
    var len := if diff > 0xffff then 0xffff else diff;
    if room < len then room else len
  }

  /** write_more: line 1707 compares with the lower 16 bits of what is left. */
  predicate GoesOn(diff: nat, len: nat, cnt: nat) {
    (len == 0xffff && diff > 0xffff) || (len == diff % U16 && cnt > 1)
  }

  /** One iteration of the do/while loop: the new cursor and whether it goes on. */
  function Iterate(vs: seq<seq<byte>>, c: Cursor, dontblock: bool, a: Answer): (Cursor, Outcome)
    requires CursorOk(vs, c) && c.cnt > 0
  {
    var diff := Left(vs, c);
    var len := Length(diff, a.room);
    if dontblock && diff > 0 && a.room == 0 then (c, Stop(if c.offset == 0 then WouldBlock else Err.Ok))
    else if TcpWrite(a, len) != Err.Ok then (c, Stop(TcpWrite(a, len)))
    else (Advance(vs, c, len), if GoesOn(diff, len, c.cnt) then More else Stop(Err.Ok))
  }

  lemma IterateOk(vs: seq<seq<byte>>, c: Cursor, dontblock: bool, a: Answer)
    requires CursorOk(vs, c) && c.cnt > 0
    ensures var (d, out) := Iterate(vs, c, dontblock, a);
            CursorOk(vs, d) && c.offset <= d.offset && (out.More? || out.err != Err.Ok ==> d.cnt > 0)
  {
    if c.vec + 1 < |vs| {
      FlattenSnoc(vs, c.vec);
    }
  }

  lemma {:induction false} FlattenAppend(a: seq<seq<byte>>, b: seq<seq<byte>>)
    ensures Flatten(a + b) == Flatten(a) + Flatten(b)
  {
    if a == [] {
      assert a + b == b;
    } else {
      assert (a + b)[0] == a[0] && (a + b)[1..] == a[1..] + b;
      FlattenAppend(a[1..], b);
    }
  }

  lemma FlattenThree(a: seq<seq<byte>>, v: seq<byte>, c: seq<seq<byte>>)
    ensures Flatten(a + [v]) == Flatten(a) + v
    ensures Flatten(a + [v] + c) == Flatten(a) + v + Flatten(c)
  {
    FlattenAppend(a, [v]);
    FlattenAppend(a + [v], c);
    assert [v][1..] == [];
  }

  lemma FlattenSnoc(vs: seq<seq<byte>>, i: nat)
    requires i < |vs|
    ensures Flatten(vs[..i + 1]) == Flatten(vs[..i]) + vs[i]
    ensures Flatten(vs) == Flatten(vs[..i]) + vs[i] + Flatten(vs[i + 1..])
  {
    hide Flatten;
    Around(vs, i);
    FlattenThree(vs[..i], vs[i], vs[i + 1..]);
  }

  lemma Around(vs: seq<seq<byte>>, i: nat)
    requires i < |vs|
    ensures vs[..i + 1] == vs[..i] + [vs[i]]
    ensures vs == vs[..i] + [vs[i]] + vs[i + 1..]
  {
  }

  lemma Total(vs: seq<seq<byte>>, i: nat)
    requires i < |vs|
    ensures |Flatten(vs[..i])| + |vs[i]| <= |Flatten(vs)|
  {
    FlattenSnoc(vs, i);
  }

  /** The bytes an iteration hands over are the next ones of the message. */
  lemma NextBytes(vs: seq<seq<byte>>, c: Cursor, len: nat)
    requires CursorOk(vs, c) && len <= Left(vs, c)
    ensures c.offset + len <= |Flatten(vs)|
    ensures Flatten(vs)[c.offset..c.offset + len] == vs[c.vec][c.off..c.off + len]
  {
    FlattenSnoc(vs, c.vec);
  }

  /** The do/while loop on a list of answers. */
  function Loop(vs: seq<seq<byte>>, c: Cursor, dontblock: bool, answers: seq<Answer>): (Cursor, Outcome)
    requires CursorOk(vs, c) && c.cnt > 0
    decreases |answers|
  {
    if answers == [] then (c, More)
    else
      IterateOk(vs, c, dontblock, answers[0]);
      var (d, out) := Iterate(vs, c, dontblock, answers[0]);
      if out.More? then Loop(vs, d, dontblock, answers[1..]) else (d, out)
  }

  /** The rest of a call, once the loop has stopped with `err`; `noRoute` is ERR_RTE of tcp_output. */
  function Conclude(c: Cursor, len: nat, dontblock: bool, err: Err, noRoute: bool): Result {
    if err == Err.Ok then
      if noRoute then Finished(Rte) else if c.offset == len || dontblock then Finished(Err.Ok) else Waiting
    else if err == Mem then
      if noRoute then Finished(Rte)
      else if dontblock then Finished(if c.offset == 0 then WouldBlock else Err.Ok)
      else Waiting
    else Finished(err)
  }

  /** What the TCP layer answers during one call. */
  datatype Turn = Turn(answers: seq<Answer>, noRoute: bool)

  function Call(vs: seq<seq<byte>>, len: nat, c: Cursor, dontblock: bool, turn: Turn): (Cursor, Result)
    requires CursorOk(vs, c) && c.cnt > 0
  {
    var (d, out) := Loop(vs, c, dontblock, turn.answers);
    (d, if out.More? then Spinning else Conclude(d, len, dontblock, out.err, turn.noRoute))
  }

  lemma {:induction false} LoopOk(vs: seq<seq<byte>>, c: Cursor, dontblock: bool, answers: seq<Answer>)
    requires CursorOk(vs, c) && c.cnt > 0
    ensures var (d, out) := Loop(vs, c, dontblock, answers);
            CursorOk(vs, d) && c.offset <= d.offset && (out.More? || out.err != Err.Ok ==> d.cnt > 0)
    decreases |answers|
  {
    if answers != [] {
      IterateOk(vs, c, dontblock, answers[0]);
      var (d, out) := Iterate(vs, c, dontblock, answers[0]);
      if out.More? {
        LoopOk(vs, d, dontblock, answers[1..]);
      }
    }
  }

  /** A loop that goes on after some answers goes on from there with the next ones. */
  lemma {:induction false} LoopAppend(vs: seq<seq<byte>>, c: Cursor, dontblock: bool, a: seq<Answer>, b: seq<Answer>)
    requires CursorOk(vs, c) && c.cnt > 0 && Loop(vs, c, dontblock, a).1.More?
    ensures var d := Loop(vs, c, dontblock, a).0;
            CursorOk(vs, d) && d.cnt > 0 && Loop(vs, c, dontblock, a + b) == Loop(vs, d, dontblock, b)
    decreases |a|
  {
    if a == [] {
      assert a + b == b;
    } else {
      assert (a + b)[0] == a[0] && (a + b)[1..] == a[1..] + b;
      IterateOk(vs, c, dontblock, a[0]);
      LoopAppend(vs, Iterate(vs, c, dontblock, a[0]).0, dontblock, a[1..], b);
    }
  }

  // ----- termination -----

  /** An iteration repeats for ever, unchanged, exactly when a blocking write finds no room with a
      positive multiple of 65536 bytes left in a vector that is not the last. */
  lemma StuckExactly(vs: seq<seq<byte>>, c: Cursor, dontblock: bool, a: Answer)
    requires CursorOk(vs, c) && c.cnt > 0
    ensures Iterate(vs, c, dontblock, a) == (c, More) <==>
              var diff := Left(vs, c);
              !dontblock && TcpWrite(a, 0) == Err.Ok && a.room == 0 && diff > 0 && diff % U16 == 0 && c.cnt > 1
  {
  }

  /** No vector but the last is longer than 65535 bytes. */
  predicate ShortVectors(vs: seq<seq<byte>>) {
    forall i :: 0 <= i < |vs| - 1 ==> |vs[i]| <= 0xffff
  }

  function Measure(vs: seq<seq<byte>>, c: Cursor): nat
    requires CursorOk(vs, c)
  {
    Total(vs, c.vec);
    |Flatten(vs)| - c.offset + c.cnt
  }

  lemma Progress(vs: seq<seq<byte>>, c: Cursor, dontblock: bool, a: Answer)
    requires CursorOk(vs, c) && c.cnt > 0 && (dontblock || ShortVectors(vs))
    requires Iterate(vs, c, dontblock, a).1.More?
    ensures var d := Iterate(vs, c, dontblock, a).0; CursorOk(vs, d) && d.cnt > 0 && Measure(vs, d) < Measure(vs, c)
  {
    IterateOk(vs, c, dontblock, a);
    assert c.vec < |vs| - 1 && !dontblock ==> |vs[c.vec]| <= 0xffff;
  }

  /** With short vectors, or nonblocking, the loop ends after fewer iterations than there are
      bytes and vectors left. */
  lemma {:induction false} LoopEnds(vs: seq<seq<byte>>, c: Cursor, dontblock: bool, answers: seq<Answer>)
    requires CursorOk(vs, c) && c.cnt > 0 && (dontblock || ShortVectors(vs))
    requires |answers| >= Measure(vs, c)
    ensures !Loop(vs, c, dontblock, answers).1.More?
    decreases |answers|
  {
    Total(vs, c.vec);
    assert Measure(vs, c) > 0;
    var (d, out) := Iterate(vs, c, dontblock, answers[0]);
    if out.More? {
      Progress(vs, c, dontblock, answers[0]);
      LoopEnds(vs, d, dontblock, answers[1..]);
    }
  }

  /** Answers that write everything before vector `i`. */
  lemma {:induction false} WriteUpTo(vs: seq<seq<byte>>, c: Cursor, i: nat) returns (answers: seq<Answer>)
    requires CursorOk(vs, c) && c.cnt > 0 && c.vec <= i < |vs| && (c.vec == i ==> c.off == 0)
    ensures Loop(vs, c, false, answers) == (Cursor(i, |vs| - i, 0, |Flatten(vs[..i])|), More)
    decreases Measure(vs, c)
  {
    if c.vec == i {
      answers := [];
    } else {
      var a := Answer(0xffff, Err.Ok);
      IterateOk(vs, c, false, a);
      var (d, out) := Iterate(vs, c, false, a);
      assert out.More?;
      assert Measure(vs, d) < Measure(vs, c);
      var rest := WriteUpTo(vs, d, i);
      answers := [a] + rest;
      assert answers[1..] == rest;
    }
  }

  function Silence(n: nat): seq<Answer> {
    seq(n, _ => Answer(0, Err.Ok))
  }

  lemma {:induction false} StuckForever(vs: seq<seq<byte>>, c: Cursor, n: nat)
    requires CursorOk(vs, c) && c.cnt > 1 && Left(vs, c) > 0 && Left(vs, c) % U16 == 0
    ensures Loop(vs, c, false, Silence(n)) == (c, More)
  {
    if n > 0 {
      assert Silence(n)[1..] == Silence(n - 1);
      StuckExactly(vs, c, false, Silence(n)[0]);
      StuckForever(vs, c, n - 1);
    }
  }

  /** Over a long vector that is not the last the loop can run for any number of iterations. */
  lemma LongVectorSpins(vs: seq<seq<byte>>, i: nat, n: nat) returns (answers: seq<Answer>)
    requires i < |vs| - 1 && |vs[i]| > 0xffff
    requires CursorOk(vs, Start(vs))
    ensures |answers| >= n && Loop(vs, Start(vs), false, answers).1.More?
  {
    var upTo := WriteUpTo(vs, Start(vs), i);
    var c := Loop(vs, Start(vs), false, upTo).0;
    FlattenSnoc(vs, i);
    var a := Answer(|vs[i]| % U16, Err.Ok);
    var d := Iterate(vs, c, false, a).0;
    assert d == c.(off := a.room, offset := c.offset + a.room);
    StuckForever(vs, d, n);
    var rest := [a] + Silence(n);
    assert rest[1..] == Silence(n);
    LoopAppend(vs, Start(vs), false, upTo, rest);
    answers := upTo + rest;
  }

  lemma StartOk(vs: seq<seq<byte>>)
    requires vs != []
    ensures CursorOk(vs, Start(vs))
  {
  }

  /** The loop can run for ever if and only if the write blocks and some vector but the last has
      more than 65535 bytes. */
  lemma SpinsExactly(vs: seq<seq<byte>>, dontblock: bool)
    requires vs != []
    ensures (forall n: nat :: CanSpin(vs, dontblock, n)) <==> !dontblock && !ShortVectors(vs)
  {
    StartOk(vs);
    if dontblock || ShortVectors(vs) {
      var n := Measure(vs, Start(vs));
      if CanSpin(vs, dontblock, n) {
        var answers :| |answers| >= n && Loop(vs, Start(vs), dontblock, answers).1.More?;
        LoopEnds(vs, Start(vs), dontblock, answers);
      }
      assert !CanSpin(vs, dontblock, n);
    } else {
      var i :| 0 <= i < |vs| - 1 && |vs[i]| > 0xffff;
      forall n: nat
        ensures CanSpin(vs, dontblock, n)
      {
        var answers := LongVectorSpins(vs, i, n);
      }
    }
  }

  /** Some answers keep the first call in its loop for `n` iterations or more. */
  ghost predicate CanSpin(vs: seq<seq<byte>>, dontblock: bool, n: nat)
    requires vs != []
  {
    StartOk(vs);
    exists answers :: |answers| >= n && Loop(vs, Start(vs), dontblock, answers).1.More?
  }

  // ----- whole writes -----

  /** The assertions at the entry of lwip_netconn_do_writemore. */
  predicate MayCall(len: nat, c: Cursor) {
    c.offset < len && c.cnt > 0
  }

  datatype WriteEnd = AssertionFails(cursor: Cursor) | Blocked(cursor: Cursor, spins: bool) | Returned(cursor: Cursor, err: Err)

  /** The first call and the callbacks after it, up to the end of the write. */
  function Write(vs: seq<seq<byte>>, len: nat, c: Cursor, dontblock: bool, turns: seq<Turn>): WriteEnd
    requires CursorOk(vs, c)
    decreases |turns|
  {
    if turns == [] then Blocked(c, false)
    else if !MayCall(len, c) then AssertionFails(c)
    else
      LoopOk(vs, c, dontblock, turns[0].answers);
      var (d, result) := Call(vs, len, c, dontblock, turns[0]);
      match result
      case Spinning => Blocked(d, true)
      case Finished(err) => Returned(d, err)
      case Waiting => Write(vs, len, d, dontblock, turns[1..])
  }

  /** A write that has blocked goes on from where it is. */
  lemma {:induction false} WriteResumes(vs: seq<seq<byte>>, len: nat, c: Cursor, dontblock: bool, a: seq<Turn>, b: seq<Turn>)
    requires CursorOk(vs, c) && Write(vs, len, c, dontblock, a).Blocked? && !Write(vs, len, c, dontblock, a).spins
    ensures var d := Write(vs, len, c, dontblock, a).cursor;
            CursorOk(vs, d) && Write(vs, len, c, dontblock, a + b) == Write(vs, len, d, dontblock, b)
    decreases |a|
  {
    if a == [] {
      assert a + b == b;
    } else {
      assert (a + b)[0] == a[0] && (a + b)[1..] == a[1..] + b;
      LoopOk(vs, c, dontblock, a[0].answers);
      WriteResumes(vs, len, Call(vs, len, c, dontblock, a[0]).0, dontblock, a[1..], b);
    }
  }

  /** In any of its calls, ERR_RTE of tcp_output ends a write whose data was queued or found no memory,
      and reaches the caller; what was accepted before is not taken back. */
  lemma NoRouteReturned(vs: seq<seq<byte>>, len: nat, c: Cursor, dontblock: bool, calls: seq<Turn>, turn: Turn, more: seq<Turn>)
    requires CursorOk(vs, c) && Write(vs, len, c, dontblock, calls).Blocked? && !Write(vs, len, c, dontblock, calls).spins
    requires var c1 := Write(vs, len, c, dontblock, calls).cursor;
             && CursorOk(vs, c1) && MayCall(len, c1) && turn.noRoute
             && Loop(vs, c1, dontblock, turn.answers).1 in {Stop(Err.Ok), Stop(Mem)}
    ensures var c1 := Write(vs, len, c, dontblock, calls).cursor;
            var r := Write(vs, len, c, dontblock, calls + [turn] + more);
            r == Returned(Loop(vs, c1, dontblock, turn.answers).0, Rte) && r.cursor.offset >= c1.offset
  {
    var c1 := Write(vs, len, c, dontblock, calls).cursor;
    assert calls + [turn] + more == calls + ([turn] + more);
    WriteResumes(vs, len, c, dontblock, calls, [turn] + more);
    assert ([turn] + more)[0] == turn;
    LoopOk(vs, c1, dontblock, turn.answers);
  }

  /** In any iteration of any call, an error of tcp_write other than ERR_MEM ends the write and reaches
      the caller, unless a nonblocking write has found no room before it asked. */
  lemma TcpErrorReturned(vs: seq<seq<byte>>, len: nat, c: Cursor, dontblock: bool, calls: seq<Turn>,
                         answers: seq<Answer>, a: Answer, rest: seq<Answer>, noRoute: bool, more: seq<Turn>)
    requires CursorOk(vs, c) && Write(vs, len, c, dontblock, calls).Blocked? && !Write(vs, len, c, dontblock, calls).spins
    requires var c1 := Write(vs, len, c, dontblock, calls).cursor;
             CursorOk(vs, c1) && MayCall(len, c1) && Loop(vs, c1, dontblock, answers).1.More?
    requires !a.queued.Ok? && !a.queued.Mem? && (a.room > 0 || !dontblock)
    ensures var c1 := Write(vs, len, c, dontblock, calls).cursor;
            Write(vs, len, c, dontblock, calls + [Turn(answers + ([a] + rest), noRoute)] + more)
            == Returned(Loop(vs, c1, dontblock, answers).0, a.queued)
  {
    var turn := Turn(answers + ([a] + rest), noRoute);
    var c1 := Write(vs, len, c, dontblock, calls).cursor;
    assert calls + [turn] + more == calls + ([turn] + more);
    WriteResumes(vs, len, c, dontblock, calls, [turn] + more);
    assert ([turn] + more)[0] == turn;
    LoopAppend(vs, c1, dontblock, answers, [a] + rest);
    assert ([a] + rest)[0] == a;
  }

  /** tcp_write has answered `err` in some call. */
  predicate TcpAnswered(turns: seq<Turn>, err: Err) {
    exists k, j :: 0 <= k < |turns| && 0 <= j < |turns[k].answers| && turns[k].answers[j].queued == err
  }

  predicate NoRoute(turns: seq<Turn>) {
    exists k :: 0 <= k < |turns| && turns[k].noRoute
  }

  /** The error with which the loop stops is one that tcp_write has answered. */
  lemma {:induction false} StopAnswered(vs: seq<seq<byte>>, c: Cursor, dontblock: bool, answers: seq<Answer>)
    requires CursorOk(vs, c) && c.cnt > 0
    ensures var out := Loop(vs, c, dontblock, answers).1;
            out.More? || out.err.Ok? || (dontblock && out.err.WouldBlock?) || exists j :: 0 <= j < |answers| && answers[j].queued == out.err
    decreases |answers|
  {
    if answers != [] {
      IterateOk(vs, c, dontblock, answers[0]);
      var (d, out) := Iterate(vs, c, dontblock, answers[0]);
      if out.More? {
        StopAnswered(vs, d, dontblock, answers[1..]);
        assert forall j :: 0 <= j < |answers| - 1 ==> answers[1..][j] == answers[j + 1];
      }
    }
  }

  lemma AnsweredLater(turns: seq<Turn>, err: Err)
    requires turns != []
    ensures TcpAnswered(turns[1..], err) ==> TcpAnswered(turns, err)
    ensures NoRoute(turns[1..]) ==> NoRoute(turns)
  {
    assert forall k :: 0 <= k < |turns| - 1 ==> turns[1..][k] == turns[k + 1];
  }

  /** And the caller of a blocking write sees nothing else: success, ERR_RTE when there was no route, or an
      error that tcp_write has answered, which is never ERR_MEM: without memory the write waits. */
  lemma {:induction false} BlockingReturns(vs: seq<seq<byte>>, len: nat, c: Cursor, turns: seq<Turn>)
    requires CursorOk(vs, c)
    ensures var r := Write(vs, len, c, false, turns);
            r.Returned? ==> r.err.Ok? || (r.err.Rte? && NoRoute(turns)) || (!r.err.Mem? && TcpAnswered(turns, r.err))
    decreases |turns|
  {
    if turns != [] && MayCall(len, c) {
      LoopOk(vs, c, false, turns[0].answers);
      StopAnswered(vs, c, false, turns[0].answers);
      var (d, result) := Call(vs, len, c, false, turns[0]);
      if result.Waiting? {
        BlockingReturns(vs, len, d, turns[1..]);
        if Write(vs, len, d, false, turns[1..]).Returned? {
          AnsweredLater(turns, Write(vs, len, d, false, turns[1..]).err);
        }
      }
    }
  }

  /** The answers of one call in which the send buffer loses what is written and gains nothing. */
  predicate Shrinks(vs: seq<seq<byte>>, c: Cursor, room: nat, answers: seq<Answer>)
    requires CursorOk(vs, c) && c.cnt > 0
    decreases |answers|
  {
    answers == [] ||
    (answers[0].room == room &&
     var (d, out) := Iterate(vs, c, false, answers[0]);
     IterateOk(vs, c, false, answers[0]);
     out.More? ==> Shrinks(vs, d, room - Length(Left(vs, c), room), answers[1..]))
  }

  /** The same from whatever 16-bit room the call begins with. */
  predicate BufferShrinks(vs: seq<seq<byte>>, c: Cursor, answers: seq<Answer>)
    requires CursorOk(vs, c) && c.cnt > 0
  {
    answers == [] || (answers[0].room <= 0xffff && Shrinks(vs, c, answers[0].room, answers))
  }

  /** Every call of the blocking write is such a call. */
  predicate WithinBuffer(vs: seq<seq<byte>>, len: nat, c: Cursor, turns: seq<Turn>)
    requires CursorOk(vs, c)
    decreases |turns|
  {
    turns == [] || !MayCall(len, c) ||
    (BufferShrinks(vs, c, turns[0].answers) &&
     var (d, result) := Call(vs, len, c, false, turns[0]);
     LoopOk(vs, c, false, turns[0].answers);
     result.Waiting? ==> WithinBuffer(vs, len, d, turns[1..]))
  }

  /** A blocking write that returns ERR_OK has written exactly what was asked for. */
  lemma {:induction false} WriteEndOk(vs: seq<seq<byte>>, len: nat, c: Cursor, dontblock: bool, turns: seq<Turn>)
    requires CursorOk(vs, c)
    ensures var r := Write(vs, len, c, dontblock, turns);
            && CursorOk(vs, r.cursor) && c.offset <= r.cursor.offset
            && (r.Returned? && r.err == Err.Ok && !dontblock ==> r.cursor.offset == len)
    decreases |turns|
  {
    if turns != [] && MayCall(len, c) {
      LoopOk(vs, c, dontblock, turns[0].answers);
      var (d, result) := Call(vs, len, c, dontblock, turns[0]);
      if result.Waiting? {
        WriteEndOk(vs, len, d, dontblock, turns[1..]);
      }
    }
  }

  /** A nonblocking write never waits: its first call is its last. It returns ERR_OK only if it has
      written something and ERR_WOULDBLOCK only if it has not (tcp_write itself never returns that). */
  lemma NonblockingWrite(vs: seq<seq<byte>>, len: nat, c: Cursor, turns: seq<Turn>)
    requires CursorOk(vs, c) && MayCall(len, c) && |Flatten(vs)| > 0 && turns != []
    requires forall a <- turns[0].answers :: a.queued != WouldBlock
    ensures var r := Write(vs, len, c, true, turns);
            && r == Write(vs, len, c, true, turns[..1])
            && (r.Returned? || (r.Blocked? && r.spins))
            && (r.Returned? && r.err == Err.Ok ==> r.cursor.offset > 0)
            && (r.Returned? && r.err == WouldBlock ==> r.cursor.offset == 0)
  {
    LoopStops(vs, c, true, turns[0].answers);
  }

  /** How the loop stops. */
  lemma {:induction false} LoopStops(vs: seq<seq<byte>>, c: Cursor, dontblock: bool, answers: seq<Answer>)
    requires CursorOk(vs, c) && c.cnt > 0 && |Flatten(vs)| > 0
    requires forall a <- answers :: a.queued != WouldBlock
    ensures var (d, out) := Loop(vs, c, dontblock, answers);
            && (out == Stop(Err.Ok) && dontblock ==> d.offset > 0)
            && (out == Stop(WouldBlock) ==> dontblock && d.offset == 0)
    decreases |answers|
  {
    if answers != [] {
      IterateOk(vs, c, dontblock, answers[0]);
      Total(vs, c.vec);
      var (d, out) := Iterate(vs, c, dontblock, answers[0]);
      if out.More? {
        LoopStops(vs, d, dontblock, answers[1..]);
      } else if c.cnt == 1 {
        FlattenSnoc(vs, c.vec);
        assert vs[c.vec + 1..] == [];
      }
    }
  }

  /** The assertions hold at every call of a blocking write, whatever TCP answers, if and only if
      the whole message is to be sent. (A message longer than SSIZE_MAX is cut to that length, but
      the loop writes on.) Empty vectors, the last one included, do no harm. It makes no difference
      whether the send buffer may do anything or only shrinks during a call. */
  lemma AssertionsHoldExactly(vs: seq<seq<byte>>, len: nat)
    requires vs != [] && 0 < len <= |Flatten(vs)| && CursorOk(vs, Start(vs))
    ensures (forall turns :: !Write(vs, len, Start(vs), false, turns).AssertionFails?) <==> len == |Flatten(vs)|
    ensures (forall turns :: WithinBuffer(vs, len, Start(vs), turns) ==> !Write(vs, len, Start(vs), false, turns).AssertionFails?)
            <==> len == |Flatten(vs)|
  {
    if len == |Flatten(vs)| {
      forall turns
        ensures !Write(vs, len, Start(vs), false, turns).AssertionFails?
      {
        AssertionsHold(vs, len, Start(vs), turns);
      }
    } else {
      var turns := FailingRun(vs, len, Start(vs));
    }
  }

  /** When tcp_write runs out of memory there are bytes left to write. */
  lemma {:induction false} MemLeaves(vs: seq<seq<byte>>, c: Cursor, answers: seq<Answer>)
    requires CursorOk(vs, c) && c.cnt > 0
    ensures var (d, out) := Loop(vs, c, false, answers); out == Stop(Mem) ==> d.offset < |Flatten(vs)| && d.cnt > 0
    decreases |answers|
  {
    if answers != [] {
      IterateOk(vs, c, false, answers[0]);
      FlattenSnoc(vs, c.vec);
      var (d, out) := Iterate(vs, c, false, answers[0]);
      if out.More? {
        MemLeaves(vs, d, answers[1..]);
      }
    }
  }

  lemma AllWritten(vs: seq<seq<byte>>, c: Cursor)
    requires CursorOk(vs, c)
    ensures c.offset <= |Flatten(vs)|
    ensures c.cnt == 0 ==> c.offset == |Flatten(vs)|
  {
    FlattenSnoc(vs, c.vec);
    if c.cnt == 0 {
      assert vs[c.vec + 1..] == [];
    }
  }

  lemma {:induction false} AssertionsHold(vs: seq<seq<byte>>, len: nat, c: Cursor, turns: seq<Turn>)
    requires CursorOk(vs, c) && len == |Flatten(vs)| && MayCall(len, c)
    ensures !Write(vs, len, c, false, turns).AssertionFails?
    decreases |turns|
  {
    if turns != [] {
      LoopOk(vs, c, false, turns[0].answers);
      MemLeaves(vs, c, turns[0].answers);
      var (d, result) := Call(vs, len, c, false, turns[0]);
      if result.Waiting? {
        AllWritten(vs, d);
        AssertionsHold(vs, len, d, turns[1..]);
      }
    }
  }

  /** Ends a call before another byte is written: behind empty vectors tcp_write has no memory. */
  lemma {:induction false} StopHere(vs: seq<seq<byte>>, c: Cursor) returns (room: nat, answers: seq<Answer>)
    requires CursorOk(vs, c) && c.cnt > 0
    ensures room <= 1 && answers != [] && answers[0].room == room && Shrinks(vs, c, room, answers)
    ensures var (d, out) := Loop(vs, c, false, answers); (out == Stop(Err.Ok) || out == Stop(Mem)) && d.offset == c.offset
    decreases c.cnt
  {
    if Left(vs, c) > 0 {
      room, answers := 1, [Answer(1, Mem)];
    } else {
      IterateOk(vs, c, false, Answer(1, Err.Ok));
      if c.cnt > 1 {
        var rest;
        room, rest := StopHere(vs, Iterate(vs, c, false, Answer(1, Err.Ok)).0);
        answers := [Answer(room, Err.Ok)] + rest;
        assert answers[1..] == rest;
      } else {
        room, answers := 1, [Answer(1, Err.Ok)];
      }
    }
  }

  /** How many bytes to write so that the loop does not go on and `len` is not hit. */
  function Stride(left: nat, offset: nat, len: nat): (s: nat)
    ensures s <= 3
    ensures s > 0 ==> s < left && s != left % U16 && offset + s != len
    ensures s == 0 && left > 0 ==> left == 1 || (left == 2 && offset + 1 == len)
  {
    if 1 < left && 1 != left % U16 && offset + 1 != len then 1
    else if 2 < left && 2 != left % U16 && offset + 2 != len then 2
    else if 3 < left && 3 != left % U16 && offset + 3 != len then 3
    else 0
  }

  /** A call that writes a few bytes and then waits, but not with exactly `len` bytes written. */
  lemma {:induction false} PassOver(vs: seq<seq<byte>>, c: Cursor, len: nat) returns (room: nat, answers: seq<Answer>)
    requires CursorOk(vs, c) && c.cnt > 0 && c.offset < |Flatten(vs)| && len < |Flatten(vs)|
    ensures room <= (if c.offset >= len then 4 else 8)
    ensures answers != [] && answers[0].room == room && Shrinks(vs, c, room, answers)
    ensures var (d, out) := Loop(vs, c, false, answers);
            (out == Stop(Err.Ok) || out == Stop(Mem)) && d.offset > c.offset && d.offset != len
    decreases c.cnt
  {
    var left := Left(vs, c);
    var s := Stride(left, c.offset, len);
    LastLeft(vs, c);
    if s > 0 {
      room, answers := s, [Answer(s, Err.Ok)];
    } else {
      // the rest of this vector, which is empty, one byte or two
      var d := VectorDone(vs, c);
      var more, rest := 0, [];
      if c.cnt > 1 {
        if left > 0 && d.offset != len {
          more, rest := StopHere(vs, d);
        } else {
          more, rest := PassOver(vs, d, len);
        }
      }
      room, answers := left + more, [Answer(left + more, Err.Ok)] + rest;
      assert answers[1..] == rest;
    }
  }

  lemma LastLeft(vs: seq<seq<byte>>, c: Cursor)
    requires CursorOk(vs, c) && c.cnt > 0
    ensures c.cnt == 1 ==> c.offset + Left(vs, c) == |Flatten(vs)|
    ensures c.offset + Left(vs, c) <= |Flatten(vs)|
  {
    FlattenSnoc(vs, c.vec);
    if c.cnt == 1 {
      assert vs[c.vec + 1..] == [];
    }
  }

  /** The cursor when the current vector is written to its end. */
  function VectorDone(vs: seq<seq<byte>>, c: Cursor): (d: Cursor)
    requires CursorOk(vs, c) && c.cnt > 0 && Left(vs, c) <= 3
    ensures CursorOk(vs, d) && d.offset == c.offset + Left(vs, c) && d.cnt == c.cnt - 1
    ensures forall room: nat :: room >= Left(vs, c) ==>
              Iterate(vs, c, false, Answer(room, Err.Ok)) == (d, if c.cnt > 1 then More else Stop(Err.Ok))
  {
    IterateOk(vs, c, false, Answer(3, Err.Ok));
    Advance(vs, c, Left(vs, c))
  }

  /** A message that is cut: call after call within the buffer, until the length is passed over. */
  lemma {:induction false} FailingRun(vs: seq<seq<byte>>, len: nat, c: Cursor) returns (turns: seq<Turn>)
    requires CursorOk(vs, c) && len < |Flatten(vs)| && c.offset != len
    ensures WithinBuffer(vs, len, c, turns) && Write(vs, len, c, false, turns).AssertionFails?
    decreases if c.offset < len then len - c.offset else 0
  {
    AllWritten(vs, c);
    if !MayCall(len, c) {
      turns := [Turn([], false)];
    } else {
      var room, answers := PassOver(vs, c, len);
      LoopOk(vs, c, false, answers);
      var d := Loop(vs, c, false, answers).0;
      var rest := FailingRun(vs, len, d);
      turns := [Turn(answers, false)] + rest;
      assert turns[1..] == rest;
    }
  }

  // ----- spinning within a send buffer that only shrinks -----

  /** A blocking write some call of which is still in its loop after `n` iterations or more, while
      its send buffer shrinks by what is written. */
  predicate SpinsFor(vs: seq<seq<byte>>, len: nat, c: Cursor, turns: seq<Turn>, n: nat)
    requires CursorOk(vs, c)
    decreases |turns|
  {
    turns != [] && MayCall(len, c) && turns[0].answers != [] && BufferShrinks(vs, c, turns[0].answers)
    && var (d, result) := Call(vs, len, c, false, turns[0]);
    LoopOk(vs, c, false, turns[0].answers);
    (result.Spinning? && |turns[0].answers| >= n) || (result.Waiting? && SpinsFor(vs, len, d, turns[1..], n))
  }

  lemma {:induction false} PrefixGrows(vs: seq<seq<byte>>, i: nat, j: nat)
    requires i <= j <= |vs|
    ensures |Flatten(vs[..i])| <= |Flatten(vs[..j])|
    decreases j - i
  {
    hide Flatten;
    if i < j {
      PrefixGrows(vs, i, j - 1);
      FlattenSnoc(vs, j - 1);
    }
  }

  /** The cursor has not come to the end of vector `i`. */
  predicate Before(vs: seq<seq<byte>>, c: Cursor, i: nat)
    requires CursorOk(vs, c)
  {
    c.cnt > 0 && c.vec <= i < |vs| - 1 && (if c.vec == i then Left(vs, c) else |vs[i]|) >= U16
  }

  lemma BeforeEnd(vs: seq<seq<byte>>, c: Cursor, i: nat)
    requires CursorOk(vs, c) && Before(vs, c, i)
    ensures c.offset < |Flatten(vs)|
  {
    hide Flatten;
    FlattenSnoc(vs, i);
    if c.vec < i {
      PrefixGrows(vs, c.vec + 1, i);
      FlattenSnoc(vs, c.vec);
    }
  }

  lemma {:induction false} SilenceShrinks(vs: seq<seq<byte>>, c: Cursor, n: nat)
    requires CursorOk(vs, c) && c.cnt > 1 && Left(vs, c) > 0 && Left(vs, c) % U16 == 0
    ensures Shrinks(vs, c, 0, Silence(n))
  {
    if n > 0 {
      assert Silence(n)[1..] == Silence(n - 1);
      StuckExactly(vs, c, false, Silence(n)[0]);
      SilenceShrinks(vs, c, n - 1);
    }
  }

  /** A first iteration that goes on, and then the rest of the call. */
  function WithFirst(a: Answer, rest: seq<Turn>): seq<Turn>
    requires rest != []
  {
    [Turn([a] + rest[0].answers, rest[0].noRoute)] + rest[1..]
  }

  lemma SpinsOn(vs: seq<seq<byte>>, len: nat, c: Cursor, a: Answer, rest: seq<Turn>, n: nat)
    requires CursorOk(vs, c) && MayCall(len, c) && a.room <= 0xffff && Iterate(vs, c, false, a).1.More?
    requires var d := Iterate(vs, c, false, a).0;
             CursorOk(vs, d) && SpinsFor(vs, len, d, rest, n)
             && rest[0].answers[0].room == a.room - Length(Left(vs, c), a.room)
    ensures SpinsFor(vs, len, c, WithFirst(a, rest), n)
  {
    var t, turns := rest[0], WithFirst(a, rest);
    assert ([a] + t.answers)[1..] == t.answers && turns[1..] == rest[1..];
  }

  /** A byte at a time, up to where what is left of a long vector is a multiple of 65536. `room` is
      what the send buffer still holds in the present call. */
  lemma {:induction false} SpinRun(vs: seq<seq<byte>>, c: Cursor, room: nat, i: nat, n: nat) returns (turns: seq<Turn>)
    requires CursorOk(vs, c) && Before(vs, c, i) && room <= 1 && n > 0
    requires room == 1 ==> Left(vs, c) % U16 != 0
    ensures SpinsFor(vs, |Flatten(vs)|, c, turns, n) && turns[0].answers[0].room == room
    decreases Measure(vs, c), 1 - room
  {
    var len, a, left := |Flatten(vs)|, Answer(room, Err.Ok), Left(vs, c);
    BeforeEnd(vs, c, i);
    if room == 0 && left > 0 && left % U16 == 0 {
      StuckForever(vs, c, n);
      SilenceShrinks(vs, c, n);
      turns := [Turn(Silence(n), false)];
    } else {
      IterateOk(vs, c, false, a);
      var (d, out) := Iterate(vs, c, false, a);
      ByteStep(vs, c, room, i);
      if out.More? {
        var rest := SpinRun(vs, d, 0, i, n);
        SpinsOn(vs, len, c, a, rest, n);
        turns := WithFirst(a, rest);
      } else {
        BeforeEnd(vs, d, i);
        var rest := SpinRun(vs, d, if Left(vs, d) % U16 == 0 then 0 else 1, i, n);
        turns := [Turn([a], false)] + rest;
        assert [a][1..] == [] && turns[1..] == rest;
      }
    }
  }

  /** One step of that run. */
  lemma ByteStep(vs: seq<seq<byte>>, c: Cursor, room: nat, i: nat)
    requires CursorOk(vs, c) && Before(vs, c, i) && room <= 1
    requires room == 1 ==> Left(vs, c) % U16 != 0
    requires !(room == 0 && Left(vs, c) > 0 && Left(vs, c) % U16 == 0)
    ensures var (d, out) := Iterate(vs, c, false, Answer(room, Err.Ok));
            && CursorOk(vs, d) && Before(vs, d, i) && room - Length(Left(vs, c), room) == 0
            && (out.More? ==> Measure(vs, d) < Measure(vs, c))
            && (!out.More? ==> out == Stop(Err.Ok) && (if room == 0 then d == c && Left(vs, c) % U16 != 0 else Measure(vs, d) < Measure(vs, c)))
  {
    IterateOk(vs, c, false, Answer(room, Err.Ok));
  }

  /** The same exact condition when TCP's send buffer only shrinks during a call: for every number
      of iterations there is a blocking write of the whole message that spins as long, if and only if
      some vector but the last has more than 65535 bytes. */
  lemma SpinsWithinBuffer(vs: seq<seq<byte>>)
    requires vs != [] && CursorOk(vs, Start(vs))
    ensures (forall n: nat :: SomeRunSpins(vs, n)) <==> !ShortVectors(vs)
  {
    if ShortVectors(vs) {
      var n := Measure(vs, Start(vs));
      forall turns
        ensures !SpinsFor(vs, |Flatten(vs)|, Start(vs), turns, n)
      {
        NeverSpins(vs, |Flatten(vs)|, Start(vs), turns, n);
      }
      assert !SomeRunSpins(vs, n);
    } else {
      var i :| 0 <= i < |vs| - 1 && |vs[i]| > 0xffff;
      forall n: nat
        ensures SomeRunSpins(vs, n)
      {
        var room := if Left(vs, Start(vs)) % U16 == 0 then 0 else 1;
        var turns := SpinRun(vs, Start(vs), room, i, n + 1);
        SpinsLess(vs, |Flatten(vs)|, Start(vs), turns, n + 1, n);
      }
    }
  }

  ghost predicate SomeRunSpins(vs: seq<seq<byte>>, n: nat)
    requires vs != []
  {
    StartOk(vs);
    exists turns :: SpinsFor(vs, |Flatten(vs)|, Start(vs), turns, n)
  }

  lemma {:induction false} SpinsLess(vs: seq<seq<byte>>, len: nat, c: Cursor, turns: seq<Turn>, n: nat, k: nat)
    requires CursorOk(vs, c) && SpinsFor(vs, len, c, turns, n) && k <= n
    ensures SpinsFor(vs, len, c, turns, k)
    decreases |turns|
  {
    LoopOk(vs, c, false, turns[0].answers);
    var (d, result) := Call(vs, len, c, false, turns[0]);
    if result.Waiting? {
      SpinsLess(vs, len, d, turns[1..], n, k);
    }
  }

  lemma {:induction false} NeverSpins(vs: seq<seq<byte>>, len: nat, c: Cursor, turns: seq<Turn>, n: nat)
    requires CursorOk(vs, c) && ShortVectors(vs) && n >= Measure(vs, c)
    ensures !SpinsFor(vs, len, c, turns, n)
    decreases |turns|
  {
    if turns != [] && MayCall(len, c) {
      var answers := turns[0].answers;
      LoopOk(vs, c, false, answers);
      var (d, result) := Call(vs, len, c, false, turns[0]);
      if |answers| >= n {
        LoopEnds(vs, c, false, answers);
      }
      if result.Waiting? {
        LoopMeasure(vs, c, answers);
        NeverSpins(vs, len, d, turns[1..], n);
      }
    }
  }

  lemma {:induction false} LoopMeasure(vs: seq<seq<byte>>, c: Cursor, answers: seq<Answer>)
    requires CursorOk(vs, c) && c.cnt > 0
    ensures var d := Loop(vs, c, false, answers).0; CursorOk(vs, d) && Measure(vs, d) <= Measure(vs, c)
    decreases |answers|
  {
    if answers != [] {
      IterateOk(vs, c, false, answers[0]);
      var (d, out) := Iterate(vs, c, false, answers[0]);
      if out.More? {
        LoopMeasure(vs, d, answers[1..]);
      }
    }
  }
}

/** The message of a write and the loop over it, updated in place. */
module NetconnWriter {
  import opened Options
  import opened Octets
  import opened NetconnProtocol
  import opened NetconnWrite

  class Writer {
    /** msg.w: the vectors, the cursor in them and the length to be sent. */
    var vectors: seq<seq<byte>>
    var vec: nat
    var cnt: nat
    var off: nat
    var offset: nat
    var len: nat
    /** All bytes that tcp_write has accepted on this connection. */
    var accepted: seq<byte>

    ghost function Cur(): Cursor
      reads this
    {
      Cursor(vec, cnt, off, offset)
    }

    constructor ()
      ensures accepted == []
    {
      vectors, vec, cnt, off, offset, len, accepted := [], 0, 0, 0, 0, 0, [];
    }

    /** After a successful tcp_write of `n` bytes. */
    method Accepted(n: nat)
      requires CursorOk(vectors, Cur()) && cnt > 0 && n <= Left(vectors, Cur())
      modifies this`vec, this`cnt, this`off, this`offset, this`accepted
      ensures Cur() == Advance(vectors, old(Cur()), n) && offset == old(offset) + n
      ensures accepted == old(accepted) + vectors[old(vec)][old(off)..old(off) + n]
    {
      accepted := accepted + vectors[vec][off..off + n];
      offset := offset + n;
      off := off + n;
      if off == |vectors[vec]| {
        cnt := cnt - 1;
        if cnt > 0 {
          vec := vec + 1;
          off := 0;
        }
      }
    }

    /** One iteration of the loop. */
    method WriteOnce(dontblock: bool, a: Answer) returns (out: Outcome)
      requires CursorOk(vectors, Cur()) && cnt > 0
      modifies this`vec, this`cnt, this`off, this`offset, this`accepted
      ensures (Cur(), out) == Iterate(vectors, old(Cur()), dontblock, a)
      ensures CursorOk(vectors, Cur()) && (out.More? ==> cnt > 0) && old(offset) <= offset <= |Flatten(vectors)|
      ensures accepted == old(accepted) + Flatten(vectors)[old(offset)..offset]
    {
      hide CursorOk, Flatten, Advance;
      ghost var c := Cur();
      AllWritten(vectors, c);
      IterateOk(vectors, c, dontblock, a);
      CurrentVector(vectors, c);
      var diff := |vectors[vec]| - off;
      var size := if diff > 0xffff then 0xffff else diff;
      if a.room < size {
        size := a.room;
        if dontblock && size == 0 {
          return Stop(if offset == 0 then WouldBlock else Err.Ok);
        }
      }
      var writeMore := (size == 0xffff && diff > 0xffff) || (size == diff % U16 && cnt > 1);
      var err := TcpWrite(a, size);
      if err != Err.Ok {
        return Stop(err);
      }
      NextBytes(vectors, c, size);
      Accepted(size);
      AllWritten(vectors, Cur());
      out := if writeMore then More else Stop(Err.Ok);
    }

    /** The do/while loop. */
    method WriteLoop(dontblock: bool, answers: seq<Answer>) returns (out: Outcome)
      requires CursorOk(vectors, Cur()) && cnt > 0
      modifies this`vec, this`cnt, this`off, this`offset, this`accepted
      ensures (Cur(), out) == Loop(vectors, old(Cur()), dontblock, answers)
      ensures CursorOk(vectors, Cur()) && old(offset) <= offset <= |Flatten(vectors)|
      ensures accepted == old(accepted) + Flatten(vectors)[old(offset)..offset]
    {
      hide CursorOk, Iterate, Flatten;
      ghost var c0 := Cur();
      var k := 0;
      AllWritten(vectors, c0);
      while k < |answers|
        invariant 0 <= k <= |answers|
        invariant CursorOk(vectors, Cur()) && cnt > 0 && c0.offset <= offset <= |Flatten(vectors)|
        invariant Loop(vectors, c0, dontblock, answers) == Loop(vectors, Cur(), dontblock, answers[k..])
        invariant accepted == old(accepted) + Flatten(vectors)[c0.offset..offset]
      {
        ghost var c := Cur();
        assert answers[k..][0] == answers[k] && answers[k..][1..] == answers[k + 1..];
        out := WriteOnce(dontblock, answers[k]);
        Joined(Flatten(vectors), c0.offset, c.offset, offset);
        if out != More {
          return out;
        }
        k := k + 1;
      }
      return More;
    }

    /** lwip_netconn_do_writemore */
    method WriteMore(dontblock: bool, turn: Turn) returns (result: Result)
      requires CursorOk(vectors, Cur()) && MayCall(len, Cur())
      modifies this`vec, this`cnt, this`off, this`offset, this`accepted
      ensures (Cur(), result) == Call(vectors, len, old(Cur()), dontblock, turn)
      ensures CursorOk(vectors, Cur()) && old(offset) <= offset <= |Flatten(vectors)|
      ensures accepted == old(accepted) + Flatten(vectors)[old(offset)..offset]
    {
      var out := WriteLoop(dontblock, turn.answers);
      if out == More {
        return Spinning;
      }
      var err := out.err;
      var finished := false;
      if err == Err.Ok {
        if offset == len || dontblock {
          finished := true;
        }
        if turn.noRoute {
          err, finished := Rte, true;
        }
      } else if err == Mem {
        if turn.noRoute {
          err, finished := Rte, true;
        } else if dontblock {
          err, finished := if offset == 0 then WouldBlock else Err.Ok, true;
        }
      } else {
        finished := true;
      }
      result := if finished then Finished(err) else Waiting;
    }

    /** netconn_write_vectors_partly: `refused` is what do_write answers without writing, ERR_OK if
        it writes; `turns` are the calls of the writer. What TCP accepts is the beginning of the
        vectors, cut where the result says; a blocking write that returns ERR_OK without being cut
        to SSIZE_MAX has delivered all of them. */
    method WriteVectorsPartly(vs: seq<seq<byte>>, dontblock: bool, wantsCount: bool, refused: Err, turns: seq<Turn>)
      returns (end: WriteEnd, count: Option<nat>)
      requires |vs| < U16 && forall v <- vs :: |v| <= SIZE_MAX
      modifies this
      ensures var total := |Flatten(vs)|;
              var noCount := !wantsCount && (dontblock || total > SSIZE_MAX);
              if noCount || total > SIZE_MAX then end == Returned(Start(vs), Val)
              else if total == 0 then end == Returned(Start(vs), Err.Ok)
              else if refused != Err.Ok then end == Returned(Start(vs), refused)
              else CursorOk(vs, Start(vs)) &&
                   end == Write(vs, if total > SSIZE_MAX then SSIZE_MAX else total, Start(vs), dontblock, turns)
      ensures end.cursor.offset <= |Flatten(vs)| && accepted == old(accepted) + Flatten(vs)[..end.cursor.offset]
      ensures end.Returned? && end.err == Err.Ok && !dontblock && |Flatten(vs)| <= SSIZE_MAX ==>
                accepted == old(accepted) + Flatten(vs)
      ensures count == if end.Returned? && end.err == Err.Ok && wantsCount && |Flatten(vs)| > 0
                       then Some(end.cursor.offset) else None
    {
      count := None;
      if dontblock && !wantsCount {
        return Returned(Start(vs), Val), None;
      }
      var size, overflow := SizeSum(vs);
      if overflow {
        return Returned(Start(vs), Val), None;
      }
      if size == 0 {
        return Returned(Start(vs), Err.Ok), None;
      } else if size > SSIZE_MAX {
        if !wantsCount {
          return Returned(Start(vs), Val), None;
        }
        size := SSIZE_MAX;
      }
      vectors, vec, cnt, off, offset, len := vs, 0, |vs|, 0, 0, size;
      if refused != Err.Ok {
        return Returned(Start(vs), refused), None;
      }
      end := RunWrite(dontblock, turns);
      WriteEndOk(vs, len, Start(vs), dontblock, turns);
      if end.Returned? && end.err == Err.Ok {
        if wantsCount {
          count := Some(offset);
        }
        assert !dontblock ==> offset == size;
      }
    }

    /** The size of all vectors in a size_t, and whether it overflowed. */
    method SizeSum(vs: seq<seq<byte>>) returns (size: nat, overflow: bool)
      requires forall v <- vs :: |v| <= SIZE_MAX
      ensures overflow <==> |Flatten(vs)| > SIZE_MAX
      ensures !overflow ==> size == |Flatten(vs)|
    {
      size, overflow := 0, false;
      var i := 0;
      assert vs[..|vs|] == vs;
      while i < |vs|
        invariant 0 <= i <= |vs|
        invariant size == |Flatten(vs[..i])| <= SIZE_MAX
      {
        FlattenSnoc(vs, i);
        assert vs[i] in vs;
        size := (size + |vs[i]|) % (SIZE_MAX + 1);
        if size < |vs[i]| {
          return size, true;
        }
        i := i + 1;
      }
    }

    /** The call from do_write and the callbacks of sent_tcp and poll_tcp. */
    method RunWrite(dontblock: bool, turns: seq<Turn>) returns (end: WriteEnd)
      requires CursorOk(vectors, Cur())
      modifies this`vec, this`cnt, this`off, this`offset, this`accepted
      ensures end == Write(vectors, len, old(Cur()), dontblock, turns) && end.cursor == Cur()
      ensures CursorOk(vectors, Cur()) && old(offset) <= offset <= |Flatten(vectors)|
      ensures accepted == old(accepted) + Flatten(vectors)[old(offset)..offset]
    {
      hide CursorOk, Flatten, Call;
      ghost var c0 := Cur();
      AllWritten(vectors, Cur());
      var k := 0;
      while k < |turns|
        invariant 0 <= k <= |turns|
        invariant CursorOk(vectors, Cur()) && c0.offset <= offset <= |Flatten(vectors)|
        invariant Write(vectors, len, c0, dontblock, turns) == Write(vectors, len, Cur(), dontblock, turns[k..])
        invariant accepted == old(accepted) + Flatten(vectors)[c0.offset..offset]
      {
        assert turns[k..][0] == turns[k] && turns[k..][1..] == turns[k + 1..];
        if offset >= len || cnt == 0 {
          return AssertionFails(Cursor(vec, cnt, off, offset));
        }
        ghost var c := Cur();
        var result := WriteMore(dontblock, turns[k]);
        Joined(Flatten(vectors), c0.offset, c.offset, offset);
        if result == Spinning {
          return Blocked(Cursor(vec, cnt, off, offset), true);
        }
        if result.Finished? {
          return Returned(Cursor(vec, cnt, off, offset), result.err);
        }
        k := k + 1;
      }
      return Blocked(Cursor(vec, cnt, off, offset), false);
    }
  }

  lemma CurrentVector(vs: seq<seq<byte>>, c: Cursor)
    requires CursorOk(vs, c)
    ensures c.vec < |vs| && c.off <= |vs[c.vec]|
  {
  }

  lemma Joined(s: seq<byte>, i: nat, j: nat, k: nat)
    requires i <= j <= k <= |s|
    ensures s[i..j] + s[j..k] == s[i..k]
  {
  }
}
