/**
 The host command protocol: a resynchronising parser of the fixed frames 77 44 DATA 44 77,
 its printer, and the TCP connection that answers each frame with a status frame.
 */
module HostProtocol {
  import opened Octets

  const HEADER_FIRST: byte := 0x77
  const HEADER_SECOND: byte := 0x44
  const TAIL_FIRST: byte := 0x44
  const TAIL_SECOND: byte := 0x77

  /** The values of parser->state; a byte above these is reset by the default branch. */
  const WAIT_HEADER_FIRST: byte := 0
  const WAIT_HEADER_SECOND: byte := 1
  const WAIT_COMMAND: byte := 2
  const WAIT_TAIL_FIRST: byte := 3
  const WAIT_TAIL_SECOND: byte := 4

  datatype Event = Nothing | Command(command: byte) | FrameError

  /** The two bytes of host_protocol_parser_t. */
  datatype Memory = Memory(state: byte, command: byte)

  const FRESH := Memory(WAIT_HEADER_FIRST, 0)

  function Frame(data: byte): seq<byte> {
    [HEADER_FIRST, HEADER_SECOND, data, TAIL_FIRST, TAIL_SECOND]
  }

  function Resynced(p: Memory, b: byte): Memory {
    p.(state := if b == HEADER_FIRST then WAIT_HEADER_SECOND else WAIT_HEADER_FIRST)
  }

  /** The parser after one byte, and the event it reports. */
  function Pushed(p: Memory, b: byte): (Memory, Event) {
    if p.state == WAIT_HEADER_FIRST then
      (if b == HEADER_FIRST then p.(state := WAIT_HEADER_SECOND) else p, Nothing)
    else if p.state == WAIT_HEADER_SECOND then
      (if b == HEADER_SECOND then p.(state := WAIT_COMMAND) else Resynced(p, b), Nothing)
    else if p.state == WAIT_COMMAND then
      (Memory(WAIT_TAIL_FIRST, b), Nothing)
    else if p.state == WAIT_TAIL_FIRST then
      if b == TAIL_FIRST then (p.(state := WAIT_TAIL_SECOND), Nothing) else (Resynced(p, b), FrameError)
    else if p.state == WAIT_TAIL_SECOND then
      if b == TAIL_SECOND then (FRESH, Command(p.command)) else (Resynced(p, b), FrameError)
    else (FRESH, Nothing)
  }

  /** The parser after a byte string. */
  function After(p: Memory, bytes: seq<byte>): Memory
    decreases |bytes|
  {
    if bytes == [] then p else After(Pushed(p, bytes[0]).0, bytes[1..])
  }

  /** The events of a byte string, one for each byte. */
  function Events(p: Memory, bytes: seq<byte>): (es: seq<Event>)
    ensures |es| == |bytes|
    decreases |bytes|
  {
    if bytes == [] then [] else var (p', e) := Pushed(p, bytes[0]); [e] + Events(p', bytes[1..])
  }

  class Parser {
    var state: byte
    var command: byte

    ghost function Mem(): Memory
      reads this
    {
      Memory(state, command)
    }

    constructor ()
      ensures Mem() == FRESH
    {
      state, command := WAIT_HEADER_FIRST, 0;
    }

    /** host_protocol_parser_reset */
    method Reset()
      modifies this
      ensures Mem() == FRESH
    {
      state := WAIT_HEADER_FIRST;
      command := 0;
    }

    /** host_protocol_resync */
    method Resync(b: byte)
      modifies this`state
      ensures Mem() == Resynced(old(Mem()), b)
    {
      if b == HEADER_FIRST {
        state := WAIT_HEADER_SECOND;
      } else {
        state := WAIT_HEADER_FIRST;
      }
    }

    /** host_protocol_byte_push */
    method BytePush(b: byte) returns (event: Event)
      modifies this
      ensures (Mem(), event) == Pushed(old(Mem()), b)
    {
      event := Nothing;
      if state == WAIT_HEADER_FIRST {
        if b == HEADER_FIRST {
          state := WAIT_HEADER_SECOND;
        }
      } else if state == WAIT_HEADER_SECOND {
        if b == HEADER_SECOND {
          state := WAIT_COMMAND;
        } else {
          Resync(b);
        }
      } else if state == WAIT_COMMAND {
        command := b;
        state := WAIT_TAIL_FIRST;
      } else if state == WAIT_TAIL_FIRST {
        if b == TAIL_FIRST {
          state := WAIT_TAIL_SECOND;
        } else {
          event := FrameError;
          Resync(b);
        }
      } else if state == WAIT_TAIL_SECOND {
        if b == TAIL_SECOND {
          event := Command(command);
          Reset();
        } else {
          event := FrameError;
          Resync(b);
        }
      } else {
        Reset();
      }
    }
  }

  /** host_protocol_response_build */
  method ResponseBuild(status: byte, frame: array<byte>)
    requires frame.Length == 5
    modifies frame
    ensures frame[..] == Frame(status)
  {
    frame[0] := HEADER_FIRST;
    frame[1] := HEADER_SECOND;
    frame[2] := status;
    frame[3] := TAIL_FIRST;
    frame[4] := TAIL_SECOND;
  }

  // ----- cutting the stream -----

  lemma {:induction false} AfterAppend(p: Memory, a: seq<byte>, b: seq<byte>)
    ensures After(p, a + b) == After(After(p, a), b)
    ensures Events(p, a + b) == Events(p, a) + Events(After(p, a), b)
    decreases |a|
  {
    if a == [] {
      assert a + b == b;
    } else {
      assert (a + b)[0] == a[0] && (a + b)[1..] == a[1..] + b;
      AfterAppend(Pushed(p, a[0]).0, a[1..], b);
    }
  }

  /** The bytes [i, j) of the stream. */
  lemma Slice(p: Memory, s: seq<byte>, i: nat, j: nat)
    requires i <= j <= |s|
    ensures After(p, s[..j]) == After(After(p, s[..i]), s[i..j])
    ensures Events(p, s)[i..j] == Events(After(p, s[..i]), s[i..j])
  {
    assert s == s[..i] + (s[i..j] + s[j..]) && s[..j] == s[..i] + s[i..j];
    AfterAppend(p, s[..i], s[i..j] + s[j..]);
    AfterAppend(p, s[..i], s[i..j]);
    AfterAppend(After(p, s[..i]), s[i..j], s[j..]);
  }

  /** The byte at `i`. */
  lemma At(p: Memory, s: seq<byte>, i: nat)
    requires i < |s|
    ensures s[..i + 1] == s[..i] + [s[i]]
    ensures (After(p, s[..i + 1]), Events(p, s)[i]) == Pushed(After(p, s[..i]), s[i])
  {
    Slice(p, s, i, i + 1);
    assert Events(p, s)[i] == Events(p, s)[i..i + 1][0];
    assert s[i..i + 1] == [s[i]];
    assert s[..i + 1] == s[..i] + [s[i]];
  }

  // ----- what an event means -----

  predicate Ends(s: seq<byte>, t: seq<byte>) {
    |t| <= |s| && s[|s| - |t|..] == t
  }

  lemma EndsPush(s: seq<byte>, t: seq<byte>, b: byte)
    requires Ends(s, t)
    ensures Ends(s + [b], t + [b])
  {
    assert (s + [b])[|s| - |t|..] == s[|s| - |t|..] + [b];
  }

  /** As much of a frame as the parser has seen. */
  function Seen(p: Memory): seq<byte> {
    if p.state == WAIT_HEADER_SECOND then [HEADER_FIRST]
    else if p.state == WAIT_COMMAND then [HEADER_FIRST, HEADER_SECOND]
    else if p.state == WAIT_TAIL_FIRST then [HEADER_FIRST, HEADER_SECOND, p.command]
    else if p.state == WAIT_TAIL_SECOND then [HEADER_FIRST, HEADER_SECOND, p.command, TAIL_FIRST]
    else []
  }

  /** What an event at the end of `s` tells about the last bytes. */
  predicate Means(e: Event, s: seq<byte>) {
    match e
    case Nothing => true
    case Command(c) => Ends(s, Frame(c))
    case FrameError =>
      || (exists c, x :: x != TAIL_FIRST && Ends(s, [HEADER_FIRST, HEADER_SECOND, c, x]))
      || (exists c, x :: x != TAIL_SECOND && Ends(s, [HEADER_FIRST, HEADER_SECOND, c, TAIL_FIRST, x]))
  }

  lemma PushTracks(p: Memory, s: seq<byte>, b: byte)
    requires Ends(s, Seen(p))
    ensures Ends(s + [b], Seen(Pushed(p, b).0))
    ensures Means(Pushed(p, b).1, s + [b])
  {
    EndsPush(s, Seen(p), b);
    EndsPush(s, [], b);
    if p.state == WAIT_TAIL_FIRST {
      assert Seen(p) + [b] == [HEADER_FIRST, HEADER_SECOND, p.command, b];
    } else if p.state == WAIT_TAIL_SECOND {
      assert Seen(p) + [b] == [HEADER_FIRST, HEADER_SECOND, p.command, TAIL_FIRST, b];
    }
  }

  /** From a reset parser, every event describes the bytes just pushed: a command `c` means that
      the last five were 77 44 c 44 77, an error that a header and a command byte were followed
      by a wrong tail. */
  lemma {:induction false} EventMeans(s: seq<byte>, i: nat)
    requires i < |s|
    ensures Ends(s[..i], Seen(After(FRESH, s[..i])))
    ensures Means(Events(FRESH, s)[i], s[..i + 1])
    decreases i
  {
    if i > 0 {
      EventMeans(s, i - 1);
      At(FRESH, s, i - 1);
      PushTracks(After(FRESH, s[..i - 1]), s[..i - 1], s[i - 1]);
    }
    At(FRESH, s, i);
    PushTracks(After(FRESH, s[..i]), s[..i], s[i]);
  }

  /** At least five bytes lie between two commands: their frames do not overlap. */
  lemma CommandsDisjoint(p: Memory, s: seq<byte>, i: nat, j: nat)
    requires i < j < |s| && Events(p, s)[i].Command? && Events(p, s)[j].Command?
    ensures j >= i + 5
  {
    At(p, s, i);
    Slice(p, s, i + 1, j + 1);
    assert Events(p, s)[i + 1..j + 1][j - i - 1] == Events(p, s)[j];
    NothingSoon(s[i + 1..j + 1]);
  }

  /** A reset parser reports no command for four bytes. */
  lemma NothingSoon(s: seq<byte>)
    ensures forall k :: 0 <= k < |s| && k < 4 ==> !Events(FRESH, s)[k].Command?
  {
    forall k | 0 <= k < |s| && k < 4
      ensures !Events(FRESH, s)[k].Command?
    {
      EventMeans(s, k);
    }
  }

  // ----- resynchronisation -----

  lemma OneStep(p: Memory, b: byte, s: seq<byte>)
    ensures After(p, [b] + s) == After(Pushed(p, b).0, s)
    ensures Events(p, [b] + s) == [Pushed(p, b).1] + Events(Pushed(p, b).0, s)
  {
    assert ([b] + s)[1..] == s;
  }

  /** The five steps of one frame. */
  lemma FiveSteps(p: Memory, c: byte)
    ensures var p1 := Pushed(p, HEADER_FIRST).0; var p2 := Pushed(p1, HEADER_SECOND).0;
            var p3 := Pushed(p2, c).0; var p4 := Pushed(p3, TAIL_FIRST).0;
            && After(p, Frame(c)) == Pushed(p4, TAIL_SECOND).0
            && Events(p, Frame(c)) == [Pushed(p, HEADER_FIRST).1, Pushed(p1, HEADER_SECOND).1,
                                       Pushed(p2, c).1, Pushed(p3, TAIL_FIRST).1, Pushed(p4, TAIL_SECOND).1]
  {
    var p1 := Pushed(p, HEADER_FIRST).0;
    var p2 := Pushed(p1, HEADER_SECOND).0;
    var p3 := Pushed(p2, c).0;
    var p4 := Pushed(p3, TAIL_FIRST).0;
    OneStep(p4, TAIL_SECOND, []);
    OneStep(p3, TAIL_FIRST, [TAIL_SECOND]);
    OneStep(p2, c, [TAIL_FIRST, TAIL_SECOND]);
    OneStep(p1, HEADER_SECOND, [c, TAIL_FIRST, TAIL_SECOND]);
    OneStep(p, HEADER_FIRST, [HEADER_SECOND, c, TAIL_FIRST, TAIL_SECOND]);
  }

  /** Where a frame may begin so that the parser recognises it. */
  predicate Ready(p: Memory) {
    p.state == WAIT_HEADER_FIRST || p.state == WAIT_HEADER_SECOND || p.state == WAIT_TAIL_FIRST
  }

  /** A well-formed frame is reported if and only if the parser waits neither for a command byte
      nor for the last tail byte when it begins; the parser is then as new. */
  lemma FrameReportedExactly(p: Memory, c: byte)
    ensures Events(p, Frame(c))[4] == Command(c) <==> Ready(p)
    ensures Ready(p) ==> After(p, Frame(c)) == FRESH
    ensures p == FRESH ==> Events(p, Frame(c)) == [Nothing, Nothing, Nothing, Nothing, Command(c)]
  {
    FiveSteps(p, c);
  }

  /** A broken frame is reported as soon as its tail differs, wherever a frame may begin, and the byte
      that broke it may begin the next one. */
  lemma WrongTail(p: Memory, c: byte, x: byte)
    requires Ready(p)
    ensures var s := [HEADER_FIRST, HEADER_SECOND, c, x];
            && (Events(p, s)[3] == FrameError <==> x != TAIL_FIRST)
            && (x != TAIL_FIRST ==> After(p, s).state == if x == HEADER_FIRST then WAIT_HEADER_SECOND else WAIT_HEADER_FIRST)
    ensures var s := [HEADER_FIRST, HEADER_SECOND, c, TAIL_FIRST, x];
            && (Events(p, s)[4] == FrameError <==> x != TAIL_SECOND)
            && (x != TAIL_SECOND ==> After(p, s).state == WAIT_HEADER_FIRST)
  {
    var p1 := Pushed(p, HEADER_FIRST).0;
    var p2 := Pushed(p1, HEADER_SECOND).0;
    var p3 := Pushed(p2, c).0;
    var p4 := Pushed(p3, TAIL_FIRST).0;
    OneStep(p, HEADER_FIRST, [HEADER_SECOND, c, x]);
    OneStep(p1, HEADER_SECOND, [c, x]);
    OneStep(p2, c, [x]);
    OneStep(p3, x, []);
    OneStep(p, HEADER_FIRST, [HEADER_SECOND, c, TAIL_FIRST, x]);
    OneStep(p1, HEADER_SECOND, [c, TAIL_FIRST, x]);
    OneStep(p2, c, [TAIL_FIRST, x]);
    OneStep(p3, TAIL_FIRST, [x]);
    OneStep(p4, x, []);
  }

  /** A broken header is passed over in silence, and so is a byte that finds the parser in no known
      state, which resets it. */
  lemma BrokenHeader(p: Memory, x: byte)
    ensures p.state == WAIT_HEADER_FIRST && x != HEADER_FIRST ==> Pushed(p, x) == (p, Nothing)
    ensures p.state == WAIT_HEADER_SECOND && x != HEADER_SECOND ==>
              && Pushed(p, x).1 == Nothing
              && Pushed(p, x).0.state == if x == HEADER_FIRST then WAIT_HEADER_SECOND else WAIT_HEADER_FIRST
    ensures p.state > WAIT_TAIL_SECOND ==> Pushed(p, x) == (FRESH, Nothing)
  {
  }

  /** The first frame of 77 44 77 44 c 44 77 hides the second one unless c is 77. */
  lemma FrameMissed(c: byte)
    requires c != HEADER_FIRST
    ensures forall k :: 0 <= k < 7 ==> !Events(FRESH, [HEADER_FIRST, HEADER_SECOND] + Frame(c))[k].Command?
  {
    var h := [HEADER_FIRST, HEADER_SECOND];
    AfterAppend(FRESH, h, Frame(c));
    OneStep(Memory(WAIT_HEADER_SECOND, 0), HEADER_SECOND, []);
    OneStep(FRESH, HEADER_FIRST, [HEADER_SECOND]);
    FiveSteps(After(FRESH, h), c);
  }

  /** One well-formed frame puts the parser into step, whatever its memory holds: the next one is
      always reported as its own command and leaves the parser as new. */
  lemma SelfSynchronises(p: Memory, first: byte, c: byte)
    ensures Ready(After(p, Frame(first)))
    ensures After(p, Frame(first) + Frame(c)) == FRESH
    ensures Events(p, Frame(first) + Frame(c))[9] == Command(c)
  {
    FiveSteps(p, first);
    AfterAppend(p, Frame(first), Frame(c));
    FrameReportedExactly(After(p, Frame(first)), c);
  }

  // ----- printing and parsing -----

  function Frames(data: seq<byte>): seq<byte> {
    if data == [] then [] else Frame(data[0]) + Frames(data[1..])
  }

  /** The commands among the events. */
  function Commands(es: seq<Event>): seq<byte> {
    if es == [] then [] else (match es[0] case Command(c) => [c] case _ => []) + Commands(es[1..])
  }

  lemma {:induction false} CommandsAppend(a: seq<Event>, b: seq<Event>)
    ensures Commands(a + b) == Commands(a) + Commands(b)
  {
    if a == [] {
      assert a + b == b;
    } else {
      assert (a + b)[0] == a[0] && (a + b)[1..] == a[1..] + b;
      CommandsAppend(a[1..], b);
    }
  }

  lemma OneCommand(c: byte)
    ensures Commands([Nothing, Nothing, Nothing, Nothing, Command(c)]) == [c]
  {
    assert [Nothing, Nothing, Nothing, Nothing, Command(c)] == [Nothing, Nothing] + ([Nothing, Nothing] + [Command(c)]);
    CommandsAppend([Nothing, Nothing], [Nothing, Nothing] + [Command(c)]);
    CommandsAppend([Nothing, Nothing], [Command(c)]);
    assert [Nothing, Nothing][1..] == [Nothing];
  }

  /** Parsing what was printed gives back exactly the data bytes, without any error. */
  lemma {:induction false} ParseFrames(data: seq<byte>)
    ensures var es := Events(FRESH, Frames(data));
            && After(FRESH, Frames(data)) == FRESH
            && Commands(es) == data
            && FrameError !in es
  {
    if data != [] {
      var f, rest := Frame(data[0]), Frames(data[1..]);
      AfterAppend(FRESH, f, rest);
      FrameReportedExactly(FRESH, data[0]);
      ParseFrames(data[1..]);
      CommandsAppend(Events(FRESH, f), Events(FRESH, rest));
      OneCommand(data[0]);
      assert data == [data[0]] + data[1..];
    }
  }
}

/** The TCP server's connections (lwip_port_main.c). host_command_execute is an arbitrary function
    from the motion state and the command to the new motion state and the status. */
module HostServer {
  import opened Octets
  import opened HostProtocol

  type Execute<!W> = (W, byte) -> (W, byte)

  const FRAME_ERROR: byte := 0x01

  datatype Session<W> = Session(parser: Memory, world: W)

  /** Handling one byte: the new session and the statuses to be sent, none or one. */
  function Handle<W>(exec: Execute<W>, s: Session<W>, b: byte): (Session<W>, seq<byte>) {
    var (p, e) := Pushed(s.parser, b);
    match e
    case Nothing => (Session(p, s.world), [])
    case Command(c) => var (w, status) := exec(s.world, c); (Session(p, w), [status])
    case FrameError => (Session(p, s.world), [FRAME_ERROR])
  }

  /** Handling a byte string. */
  function Served<W>(exec: Execute<W>, s: Session<W>, bytes: seq<byte>): (Session<W>, seq<byte>)
    decreases |bytes|
  {
    if bytes == [] then (s, [])
    else
      var (s1, a) := Handle(exec, s, bytes[0]);
      var (s2, b) := Served(exec, s1, bytes[1..]);
      (s2, a + b)
  }

  lemma {:induction false} ServedAppend<W>(exec: Execute<W>, s: Session<W>, a: seq<byte>, b: seq<byte>)
    ensures var (s1, x) := Served(exec, s, a); var (s2, y) := Served(exec, s1, b);
            Served(exec, s, a + b).0 == s2 && Served(exec, s, a + b).1 == x + y
    decreases |a|
  {
    if a == [] {
      assert a + b == b;
    } else {
      assert (a + b)[0] == a[0] && (a + b)[1..] == a[1..] + b;
      ServedAppend(exec, Handle(exec, s, a[0]).0, a[1..], b);
    }
  }

  lemma ServedOneMore<W>(exec: Execute<W>, s: Session<W>, bytes: seq<byte>, i: nat)
    requires i < |bytes|
    ensures var (s1, x) := Served(exec, s, bytes[..i]); var (s2, y) := Handle(exec, s1, bytes[i]);
            Served(exec, s, bytes[..i + 1]).0 == s2 && Served(exec, s, bytes[..i + 1]).1 == x + y
  {
    var s1 := Served(exec, s, bytes[..i]).0;
    assert bytes[..i + 1] == bytes[..i] + [bytes[i]];
    ServedAppend(exec, s, bytes[..i], [bytes[i]]);
    assert Served(exec, Handle(exec, s1, bytes[i]).0, [bytes[i]][1..]) == (Handle(exec, s1, bytes[i]).0, []);
  }

  lemma {:induction false} FramesAppend(a: seq<byte>, b: seq<byte>)
    ensures Frames(a + b) == Frames(a) + Frames(b)
  {
    if a == [] {
      assert a + b == b;
    } else {
      assert (a + b)[0] == a[0] && (a + b)[1..] == a[1..] + b;
      FramesAppend(a[1..], b);
    }
  }

  lemma NoFrames()
    ensures Frames([]) == []
  {
  }

  lemma OneFrame(data: byte)
    ensures Frames([data]) == Frame(data)
  {
  }

  class Connection<W> {
    const exec: Execute<W>
    const parser: Parser
    var world: W
    var isOpen: bool
    /** Every byte that lwip_send has taken. */
    var wire: seq<byte>

    ghost function State(): Session<W>
      reads this, parser
    {
      Session(parser.Mem(), world)
    }

    /** The accepted connection: its parser slot is reset. */
    constructor (exec: Execute<W>, parser: Parser, world: W)
      modifies parser
      ensures this.exec == exec && this.parser == parser && isOpen && wire == []
      ensures State() == Session(FRESH, world)
    {
      this.exec, this.parser, this.world := exec, parser, world;
      isOpen, wire := true, [];
      new;
      parser.Reset();
    }

    /** tcp_server_status_send: lwip_send may take any number of the bytes offered, or fail. */
    method StatusSend(status: byte) returns (ok: bool)
      modifies this`wire
      ensures ok ==> wire == old(wire) + Frame(status)
      ensures !ok ==> exists k :: 0 <= k < 5 && wire == old(wire) + Frame(status)[..k]
    {
      var response := new byte[5];
      ResponseBuild(status, response);
      var total := 0;
      while total < 5
        invariant 0 <= total <= 5 && response[..] == Frame(status)
        invariant wire == old(wire) + Frame(status)[..total]
      {
        var sent: int :| sent <= 5 - total;
        if sent <= 0 {
          return false;
        }
        wire := wire + response[total..total + sent];
        assert Frame(status)[..total] + response[total..total + sent] == Frame(status)[..total + sent];
        total := total + sent;
      }
      assert Frame(status)[..5] == Frame(status);
      return true;
    }

    /** The byte loop of tcp_server_handle_connected_socket over one receive. */
    method HandleBytes(buffer: array<byte>, size: nat) returns (ok: bool)
      requires size <= buffer.Length
      modifies this`wire, this`world, parser
      ensures ok ==> var (s, statuses) := Served(exec, old(State()), buffer[..size]);
                     State() == s && wire == old(wire) + Frames(statuses)
      ensures !ok ==> exists i, k ::
                        && 0 <= i < size && 0 <= k < 5
                        && Cut(exec, old(State()), old(wire), buffer[..size], i, k, State(), wire)
    {
      hide Pushed, Frames;
      NoFrames();
      var i := 0;
      ghost var input := buffer[..size];
      ghost var s0 := State();
      while i < size
        invariant 0 <= i <= size
        invariant var (s, statuses) := Served(exec, s0, input[..i]); State() == s && wire == old(wire) + Frames(statuses)
      {
        ghost var (s1, before) := Served(exec, s0, input[..i]);
        ServedOneMore(exec, s0, input, i);
        assert input[i] == buffer[i];
        var event := parser.BytePush(buffer[i]);
        if event == Nothing {
          assert before + [] == before;
          i := i + 1;
          continue;
        }
        var status := FRAME_ERROR;
        if event.Command? {
          var (w, r) := exec(world, event.command);
          world, status := w, r;
        }
        FramesAppend(before, [status]);
        OneFrame(status);
        var sent := StatusSend(status);
        if !sent {
          ghost var k :| 0 <= k < 5 && wire == old(wire) + Frames(before) + Frame(status)[..k];
          assert buffer[..size] == input;
          assert Cut(exec, old(State()), old(wire), buffer[..size], i, k, State(), wire);
          return false;
        }
        i := i + 1;
      }
      assert input[..size] == input;
      return true;
    }

    /** tcp_server_handle_connected_socket: `size` and `wouldBlock` are what lwip_recv answers,
        `closes` what lwip_close does. */
    method HandleConnectedSocket(buffer: array<byte>, size: int, wouldBlock: bool, closes: bool) returns (ok: bool)
      requires size <= buffer.Length
      modifies this, parser
      ensures size > 0 ==> isOpen == old(isOpen)
      ensures size > 0 && ok ==> var (s, statuses) := Served(exec, old(State()), buffer[..size]);
                                 State() == s && wire == old(wire) + Frames(statuses)
      ensures size > 0 && !ok ==> exists i, k ::
                && 0 <= i < size && 0 <= k < 5
                && Cut(exec, old(State()), old(wire), buffer[..size], i, k, State(), wire)
      ensures size <= 0 ==> wire == old(wire) && ok == ((size < 0 && wouldBlock) || closes)
      ensures size <= 0 && ((size < 0 && wouldBlock) || !closes) ==> State() == old(State()) && isOpen == old(isOpen)
      ensures size <= 0 && !(size < 0 && wouldBlock) && closes ==> State() == Session(FRESH, old(world)) && !isOpen
    {
      if size <= 0 {
        if size < 0 && wouldBlock {
          return true;
        }
        if !closes {
          return false;
        }
        isOpen := false;
        parser.Reset();
        return true;
      }
      ok := HandleBytes(buffer, size);
    }
  }

  /** Sending failed at byte `i` of a receive: that byte and those before it were handled, and all
      but the last status went out, with `k` bytes of the last. */
  ghost predicate Cut<W>(exec: Execute<W>, s0: Session<W>, wire0: seq<byte>, input: seq<byte>, i: int, k: int,
                         s: Session<W>, wire: seq<byte>)
    requires 0 <= i < |input| && 0 <= k < 5
  {
    var (s1, before) := Served(exec, s0, input[..i]);
    var (s2, last) := Handle(exec, s1, input[i]);
    |last| == 1 && s == s2 && wire == wire0 + Frames(before) + Frame(last[0])[..k]
  }

  /** Handling one receive after the other. */
  function ServedAll<W>(exec: Execute<W>, s: Session<W>, receives: seq<seq<byte>>): (Session<W>, seq<byte>)
    decreases |receives|
  {
    if receives == [] then (s, [])
    else
      var (s1, a) := Served(exec, s, receives[0]);
      var (s2, b) := ServedAll(exec, s1, receives[1..]);
      (s2, a + b)
  }

  /** The replies depend on the received stream only, not on how TCP cuts it. */
  lemma {:induction false} SplitIndependent<W>(exec: Execute<W>, s: Session<W>, receives: seq<seq<byte>>)
    ensures ServedAll(exec, s, receives) == Served(exec, s, Flatten(receives))
    decreases |receives|
  {
    if receives != [] {
      ServedAppend(exec, s, receives[0], Flatten(receives[1..]));
      SplitIndependent(exec, Served(exec, s, receives[0]).0, receives[1..]);
    }
  }

  /** What the server answers to a list of events. */
  function Answers<W>(exec: Execute<W>, world: W, es: seq<Event>): seq<byte> {
    if es == [] then []
    else
      match es[0]
      case Nothing => Answers(exec, world, es[1..])
      case Command(c) => var (w, status) := exec(world, c); [status] + Answers(exec, w, es[1..])
      case FrameError => [FRAME_ERROR] + Answers(exec, world, es[1..])
  }

  function Reports(es: seq<Event>): nat {
    if es == [] then 0 else (if es[0].Nothing? then 0 else 1) + Reports(es[1..])
  }

  /** The replies are those to the parser's events in order, one five-byte frame for each event. */
  lemma {:induction false} OneReplyPerEvent<W>(exec: Execute<W>, s: Session<W>, bytes: seq<byte>)
    ensures var es := Events(s.parser, bytes);
            var statuses := Served(exec, s, bytes).1;
            && Served(exec, s, bytes).0.parser == After(s.parser, bytes)
            && statuses == Answers(exec, s.world, es)
            && |Frames(statuses)| == 5 * Reports(es)
    decreases |bytes|
  {
    var statuses := Served(exec, s, bytes).1;
    if bytes != [] {
      var (s1, a) := Handle(exec, s, bytes[0]);
      OneReplyPerEvent(exec, s1, bytes[1..]);
      FramesAppend(a, Served(exec, s1, bytes[1..]).1);
      assert Events(s.parser, bytes)[1..] == Events(s1.parser, bytes[1..]);
    }
  }

  /** The statuses of commands executed one after the other. */
  function Statuses<W>(exec: Execute<W>, world: W, commands: seq<byte>): seq<byte> {
    if commands == [] then []
    else var (w, status) := exec(world, commands[0]); [status] + Statuses(exec, w, commands[1..])
  }

  lemma {:induction false} FramesServed<W>(exec: Execute<W>, world: W, commands: seq<byte>)
    ensures Served(exec, Session(FRESH, world), Frames(commands)).1 == Statuses(exec, world, commands)
    decreases |commands|
  {
    if commands != [] {
      var c, s := commands[0], Session(FRESH, world);
      var (w, status) := exec(world, c);
      OneReplyPerEvent(exec, s, Frame(c));
      FrameReportedExactly(FRESH, c);
      FrameServed(exec, world, c);
      ServedAppend(exec, s, Frame(c), Frames(commands[1..]));
      FramesServed(exec, w, commands[1..]);
    }
  }

  lemma FrameServed<W>(exec: Execute<W>, world: W, c: byte)
    ensures var (w, status) := exec(world, c);
            var r := Served(exec, Session(FRESH, world), Frame(c));
            r.0 == Session(FRESH, w) && r.1 == [status]
  {
    var s := Session(FRESH, world);
    var f := Frame(c);
    forall i | 0 <= i < 5
      ensures f[..i] + [f[i]] == f[..i + 1]
    {
    }
    ServedOneMore(exec, s, f, 0);
    ServedOneMore(exec, s, f, 1);
    ServedOneMore(exec, s, f, 2);
    ServedOneMore(exec, s, f, 3);
    ServedOneMore(exec, s, f, 4);
    assert f[..5] == f;
  }

  /** A frame with a wrong tail is answered with status 1 and executes nothing. */
  lemma BadFrameServed<W>(exec: Execute<W>, world: W, c: byte, x: byte, whole: bool)
    requires x != if whole then TAIL_SECOND else TAIL_FIRST
    ensures var f := [HEADER_FIRST, HEADER_SECOND, c] + (if whole then [TAIL_FIRST, x] else [x]);
            var r := Served(exec, Session(FRESH, world), f);
            r.0.world == world && r.1 == [0x01]
  {
    var s := Session(FRESH, world);
    var f := [HEADER_FIRST, HEADER_SECOND, c] + (if whole then [TAIL_FIRST, x] else [x]);
    forall i | 0 <= i < |f|
      ensures f[..i] + [f[i]] == f[..i + 1]
    {
    }
    ServedOneMore(exec, s, f, 0);
    ServedOneMore(exec, s, f, 1);
    ServedOneMore(exec, s, f, 2);
    ServedOneMore(exec, s, f, 3);
    if whole {
      ServedOneMore(exec, s, f, 4);
    }
    assert f[..|f|] == f;
  }

  /** From a host's command list over the wire and back: however the frames and the replies are
      cut, a client that parses the replies sees exactly the status of each command in turn. */
  lemma Exchange<W>(exec: Execute<W>, world: W, commands: seq<byte>, receives: seq<seq<byte>>, replies: seq<seq<byte>>)
    requires Flatten(receives) == Frames(commands)
    requires Flatten(replies) == Frames(ServedAll(exec, Session(FRESH, world), receives).1)
    ensures Commands(Events(FRESH, Flatten(replies))) == Statuses(exec, world, commands)
    ensures FrameError !in Events(FRESH, Flatten(replies))
  {
    SplitIndependent(exec, Session(FRESH, world), receives);
    FramesServed(exec, world, commands);
    ParseFrames(Statuses(exec, world, commands));
  }
}
