/** DNS packets (dns.c): the query that dns_send builds and what dns_recv reads out of a response. */
module DnsMessage {
  import opened Octets
  import opened DnsName

  const HDR: nat := 12
  const QUERY: nat := 4
  const ANSWER: nat := 10

  function Bytes16(n: nat): seq<byte>
    requires n < 0x10000
  {
    [(n / 256) as byte, (n % 256) as byte]
  }

  function Bytes32(n: nat): seq<byte>
    requires n < 0x1_0000_0000
  {
    Bytes16(n / 0x10000) + Bytes16(n % 0x10000)
  }

  function Word(p: seq<byte>, at: nat): nat
    requires at + 2 <= |p|
  {
    256 * p[at] as nat + p[at + 1] as nat
  }

  /** An address query for `name`. */
  function Query(txid: nat, name: seq<byte>): seq<byte>
    requires txid < 0x10000 && Short(Labels(name))
  {
    Bytes16(txid) + [1, 0, 0, 1, 0, 0, 0, 0, 0, 0] + Wire(Labels(name)) + [0, 1, 0, 1]
  }

  /** The packet of dns_send: the memory reserved for it is filled to the last byte. */
  method BuildQuery(txid: nat, name: seq<byte>) returns (p: array<byte>)
    requires txid < 0x10000 && |name| <= MAX_NAME && Short(Labels(name))
    ensures fresh(p) && p.Length == HDR + |name| + 2 + QUERY && p[..] == Query(txid, name)
  {
    hide Labels, Wire, Short;
    p := new byte[HDR + |name| + 2 + QUERY](i => 0);
    p[0], p[1] := (txid / 256) as byte, (txid % 256) as byte;
    p[2] := 1;
    p[5] := 1;
    assert p[..HDR] == Bytes16(txid) + [1, 0, 0, 1, 0, 0, 0, 0, 0, 0];
    ghost var was := p[..];
    var at := EncodeName(p, HDR, name);
    ghost var wire := Wire(Labels(name));
    assert p[..at] == was[..HDR] + wire;
    assert was[..HDR] == Bytes16(txid) + [1, 0, 0, 1, 0, 0, 0, 0, 0, 0];
    p[at], p[at + 1], p[at + 2], p[at + 3] := 0, 1, 0, 1;
    assert p[..at] == was[..HDR] + wire && p[at..] == [0, 1, 0, 1];
    assert p[..] == p[..at] + p[at..];
  }

  /** What a response says to the entry it is for. */
  datatype Verdict = Ignore | ServerError | NoAddress | Address(bytes: seq<byte>, ttl: nat)

  /** Walking through `n` answer records from `at` on. */
  function Answers(p: Packet, at: nat, n: nat): Verdict
    decreases n
  {
    if n == 0 || at >= |p| then NoAddress
    else
      var a := Skip(p, at);
      if a == NONE || a + ANSWER > |p| then Ignore
      else
        var typ, cls, len := Word(p, a), Word(p, a + 2), Word(p, a + 8);
        var data := a + ANSWER;
        if cls == 1 && typ == 1 && len == 4 then
          if data + 4 > |p| then Ignore
          else Address(p[data..data + 4], 0x10000 * Word(p, a + 4) + Word(p, a + 6))
        else if data + len > 0xffff then Ignore
        else Answers(p, data + len, n - 1)
  }

  /** What dns_recv makes of a response to the query for the name in `mem`. */
  function Judge(mem: Memory, p: Packet): Verdict
    requires |p| >= HDR + QUERY
  {
    if p[2] < 0x80 || Word(p, 4) != 1 then Ignore
    else
      var q := Compare(mem, 0, p, HDR);
      if q == NONE || q + QUERY > |p| || Word(p, q + 2) != 1 || Word(p, q) != 1 then Ignore
      else if p[3] % 16 != 0 then ServerError
      else Answers(p, q + QUERY, Word(p, 6))
  }

  /** The answer loop of dns_recv. */
  method FindAddress(p: Packet, start: nat, count: nat) returns (v: Verdict)
    requires start <= 0xffff
    ensures v == Answers(p, start, count)
  {
    hide Skip;
    var at: nat, left := start, count;
    while left > 0 && at < |p|
      invariant 0 <= left && at <= 0xffff && Answers(p, start, count) == Answers(p, at, left)
      decreases left
    {
      at := SkipName(p, at);
      if at == NONE {
        return Ignore;
      }
      if at + ANSWER > |p| {
        return Ignore;
      }
      var typ, cls, len := Word(p, at), Word(p, at + 2), Word(p, at + 8);
      var ttl := 0x10000 * Word(p, at + 4) + Word(p, at + 6);
      if at + ANSWER > 0xffff {
        return Ignore;
      }
      at := at + ANSWER;
      if cls == 1 {
        if typ == 1 && len == 4 {
          if at + 4 > |p| {
            return Ignore;
          }
          return Address(p[at..at + 4], ttl);
        }
      }
      if at + len > 0xffff {
        return Ignore;
      }
      at := at + len;
      left := left - 1;
    }
    return NoAddress;
  }

  /** The body of dns_recv for the entry that the response is for. */
  method ReadResponse(mem: Memory, p: Packet) returns (v: Verdict)
    requires |p| >= HDR + QUERY
    ensures v == Judge(mem, p)
  {
    if p[2] < 0x80 {
      return Ignore;
    }
    if Word(p, 4) != 1 {
      return Ignore;
    }
    var at := CompareName(mem, p, HDR);
    if at == NONE {
      return Ignore;
    }
    if at + QUERY > |p| {
      return Ignore;
    }
    if Word(p, at + 2) != 1 || Word(p, at) != 1 {
      return Ignore;
    }
    if at + QUERY > 0xffff {
      return Ignore;
    }
    at := at + QUERY;
    if p[3] % 16 != 0 {
      return ServerError;
    }
    v := FindAddress(p, at, Word(p, 6));
  }

  // ----- what a server may answer -----

  /** A resource record (section 4.1.3 of RFC 1035). */
  datatype Record = Record(owner: Owner, typ: nat, cls: nat, ttl: nat, data: seq<byte>)

  /** A record that is not owned by the root. */
  predicate RecordOk(r: Record) {
    && OwnerOk(r.owner) && !(r.owner.labels == [] && r.owner.pointer == [])
    && r.typ < 0x10000 && r.cls < 0x10000 && r.ttl < 0x1_0000_0000 && |r.data| < 0x10000
  }

  function Fixed(r: Record): seq<byte>
    requires RecordOk(r)
  {
    Bytes16(r.typ) + Bytes16(r.cls) + Bytes32(r.ttl) + Bytes16(|r.data|)
  }

  function RecordBytes(r: Record): seq<byte>
    requires RecordOk(r)
  {
    OwnerBytes(r.owner) + Fixed(r) + r.data
  }

  predicate AllOk(rs: seq<Record>) {
    forall i :: 0 <= i < |rs| ==> RecordOk(rs[i])
  }

  function RecordsBytes(rs: seq<Record>): seq<byte>
    requires AllOk(rs)
  {
    if rs == [] then [] else RecordBytes(rs[0]) + RecordsBytes(rs[1..])
  }

  /** The first IPv4 address of class Internet. */
  function FirstAddress(rs: seq<Record>): Verdict {
    if rs == [] then NoAddress
    else if rs[0].cls == 1 && rs[0].typ == 1 && |rs[0].data| == 4 then Address(rs[0].data, rs[0].ttl)
    else FirstAddress(rs[1..])
  }

  /** `s` lies in the packet at `at`. */
  predicate At(p: Packet, at: nat, s: seq<byte>) {
    at + |s| <= |p| && p[at..at + |s|] == s
  }

  lemma AtSplit(p: Packet, at: nat, s: seq<byte>, t: seq<byte>)
    ensures At(p, at, s + t) <==> At(p, at, s) && At(p, at + |s|, t)
  {
    var i, j, k := at, at + |s|, at + |s| + |t|;
    if k <= |p| {
      var u := s + t;
      assert p[i..k] == p[i..j] + p[j..k];
      assert u[..|s|] == s && u[|s|..] == t;
      assert p[i..k][..|s|] == p[i..j] && p[i..k][|s|..] == p[j..k];
    }
  }

  lemma AtWord(p: Packet, at: nat, n: nat)
    requires n < 0x10000 && At(p, at, Bytes16(n))
    ensures Word(p, at) == n
  {
    var s := p[at..at + 2];
    assert s[0] == p[at] && s[1] == p[at + 1];
  }

  lemma FixedFields(p: Packet, at: nat, r: Record)
    requires RecordOk(r) && At(p, at, Fixed(r))
    ensures Word(p, at) == r.typ && Word(p, at + 2) == r.cls && Word(p, at + 8) == |r.data|
    ensures 0x10000 * Word(p, at + 4) + Word(p, at + 6) == r.ttl
  {
    var t, c, u, l := Bytes16(r.typ), Bytes16(r.cls), Bytes32(r.ttl), Bytes16(|r.data|);
    AtSplit(p, at, t + c + u, l);
    AtSplit(p, at, t + c, u);
    AtSplit(p, at, t, c);
    AtSplit(p, at + 4, Bytes16(r.ttl / 0x10000), Bytes16(r.ttl % 0x10000));
    AtWord(p, at, r.typ);
    AtWord(p, at + 2, r.cls);
    AtWord(p, at + 4, r.ttl / 0x10000);
    AtWord(p, at + 6, r.ttl % 0x10000);
    AtWord(p, at + 8, |r.data|);
  }

  /** The answer loop finds the first address among well-formed records. */
  lemma {:induction false} AnswersRead(p: Packet, at: nat, rs: seq<Record>)
    requires AllOk(rs) && At(p, at, RecordsBytes(rs)) && |p| < NONE
    ensures Answers(p, at, |rs|) == FirstAddress(rs)
    decreases |rs|
  {
    hide RecordBytes, Fixed, Skip, At, RecordOk;
    if rs != [] {
      var r := rs[0];
      assert RecordOk(r);
      AtSplit(p, at, RecordBytes(r), RecordsBytes(rs[1..]));
      RecordRead(p, at, r);
      AnswersRead(p, at + |RecordBytes(r)|, rs[1..]);
    }
  }

  /** One record: its name is skipped and its fields are where they should be. */
  lemma RecordRead(p: Packet, at: nat, r: Record)
    requires RecordOk(r) && At(p, at, RecordBytes(r)) && |p| < NONE
    ensures var a, k := Skip(p, at), at + |RecordBytes(r)|;
            && at < a && a + ANSWER <= k <= |p| && k == a + ANSWER + |r.data|
            && Word(p, a) == r.typ && Word(p, a + 2) == r.cls && Word(p, a + 8) == |r.data|
            && 0x10000 * Word(p, a + 4) + Word(p, a + 6) == r.ttl && p[a + ANSWER..k] == r.data
  {
    hide Skip, OwnerBytes;
    var owner := OwnerBytes(r.owner);
    AtSplit(p, at, owner + Fixed(r), r.data);
    AtSplit(p, at, owner, Fixed(r));
    SkipsOwnersExactly(p, at, r.owner);
    FixedFields(p, at + |owner|, r);
    SkipForward(p, at);
    assert |Fixed(r)| == ANSWER;
  }

  /** A response to the query for `name`: any flags behind the response bit, the question repeated,
      the records `rs` and any further sections. */
  function Response(txid: nat, flags1: byte, flags2: byte, tail: seq<byte>, name: seq<byte>, rs: seq<Record>, more: seq<byte>): seq<byte>
    requires txid < 0x10000 && |rs| < 0x10000 && Short(Labels(name)) && AllOk(rs)
  {
    Bytes16(txid) + [flags1, flags2] + Bytes16(1) + Bytes16(|rs|) + tail
    + (Wire(Labels(name)) + (Bytes16(1) + Bytes16(1) + (RecordsBytes(rs) + more)))
  }

  lemma ResponseParts(p: Packet, txid: nat, flags1: byte, flags2: byte, tail: seq<byte>, name: seq<byte>, rs: seq<Record>, more: seq<byte>)
    requires txid < 0x10000 && |rs| < 0x10000 && |name| <= MAX_NAME && Short(Labels(name)) && AllOk(rs) && |tail| == 4
    requires p == Response(txid, flags1, flags2, tail, name, rs, more)
    ensures |p| >= HDR + QUERY && Word(p, 0) == txid && p[2] == flags1 && p[3] == flags2
    ensures Word(p, 4) == 1 && Word(p, 6) == |rs|
    ensures Lies(p, HDR, Labels(name))
    ensures var q := HDR + |name| + 2;
            q + QUERY <= |p| && Word(p, q) == 1 && Word(p, q + 2) == 1 && At(p, q + QUERY, RecordsBytes(rs))
  {
    hide Labels, Encoded, RecordsBytes, At, Short;
    EncodedLength(name);
    var head := Bytes16(txid) + [flags1, flags2] + Bytes16(1) + Bytes16(|rs|) + tail;
    var wire, question, rest := Wire(Labels(name)), Bytes16(1) + Bytes16(1), RecordsBytes(rs) + more;
    assert p == head + (wire + (question + rest));
    assert p[..12] == head;
    assert At(p, 0, p) by {
      AtStart(p);
    }
    AtSplit(p, 0, head, wire + (question + rest));
    AtSplit(p, 12, wire, question + rest);
    AtLies(p, 12, Labels(name));
    QuestionRead(p, HDR + |name| + 2, rest);
    AtSplit(p, HDR + |name| + 2 + QUERY, RecordsBytes(rs), more);
  }

  lemma AtStart(p: Packet)
    ensures At(p, 0, p)
  {
  }

  lemma AtLies(p: Packet, at: nat, ls: seq<seq<byte>>)
    requires Short(ls)
    ensures At(p, at, Wire(ls)) <==> Lies(p, at, ls)
  {
  }

  lemma QuestionRead(p: Packet, q: nat, rest: seq<byte>)
    requires At(p, q, Bytes16(1) + Bytes16(1) + rest)
    ensures q + QUERY <= |p| && Word(p, q) == 1 && Word(p, q + 2) == 1 && At(p, q + QUERY, rest)
  {
    AtSplit(p, q, Bytes16(1) + Bytes16(1), rest);
    AtSplit(p, q, Bytes16(1), Bytes16(1));
    AtWord(p, q, 1);
    AtWord(p, q + 2, 1);
  }

  /** Query and response fit together: for every name that survives the encoding, whatever the case
      of the letters the server repeats, the response is read as the server meant it: as an error
      if it says so, and otherwise as the first IPv4 address among its records, if there is one. */
  lemma ResponseUnderstood(mem: Memory, name: seq<byte>, p: Packet, txid: nat, flags1: byte, flags2: byte,
                           tail: seq<byte>, rs: seq<Record>, more: seq<byte>)
    requires txid < 0x10000 && |rs| < 0x10000 && |name| <= MAX_NAME && |tail| == 4 && AllOk(rs)
    requires Plain(Labels(name)) && Holds(mem, name) && flags1 >= 0x80 && |p| < NONE
    requires p == Response(txid, flags1, flags2, tail, name, rs, more)
    ensures |p| >= HDR + QUERY && Word(p, 0) == txid
    ensures Judge(mem, p) == if flags2 % 16 != 0 then ServerError else FirstAddress(rs)
  {
    hide Labels, RecordsBytes, Lies, Compare, Answers, FirstAddress, Response;
    ResponseParts(p, txid, flags1, flags2, tail, name, rs, more);
    RoundTripExactly(mem, name, p, HDR);
    AnswersRead(p, HDR + |name| + 2 + QUERY, rs);
  }

  /** The query reads back: its id, a standard query that asks for recursion, one question and no
      records, and behind the labels of the name, at the end of the packet, type A and class Internet. */
  lemma QueryReadsBack(txid: nat, name: seq<byte>)
    requires txid < 0x10000 && |name| <= MAX_NAME && Short(Labels(name))
    ensures var p, q := Query(txid, name), HDR + |name| + 2;
            && |p| == q + QUERY && Word(p, 0) == txid && p[2] == 1 && p[3] == 0
            && Word(p, 4) == 1 && Word(p, 6) == 0 && Word(p, 8) == 0 && Word(p, 10) == 0
            && Lies(p, HDR, Labels(name)) && Word(p, q) == 1 && Word(p, q + 2) == 1
  {
    hide Labels, Encoded, Short, Lies;
    EncodedLength(name);
    var p, wire := Query(txid, name), Wire(Labels(name));
    var head := Bytes16(txid) + [1, 0, 0, 1, 0, 0, 0, 0, 0, 0];
    assert p == head + (wire + [0, 1, 0, 1]);
    assert p[0] == head[0] && p[1] == head[1];
    AtStart(p);
    AtSplit(p, 0, head, wire + [0, 1, 0, 1]);
    AtSplit(p, HDR, wire, [0, 1, 0, 1]);
    AtLies(p, HDR, Labels(name));
    assert p[HDR + |name| + 2..] == [0, 1, 0, 1];
  }

  /** The header of a response and a question for the name in memory. */
  ghost predicate Repeats(mem: Memory, p: Packet)
    requires |p| >= HDR + QUERY
  {
    && p[2] >= 0x80 && Word(p, 4) == 1
    && exists ls :: Plain(ls) && Matches(mem, 0, ls) && Lies(p, HDR, ls)
                 && HDR + |Wire(ls)| + QUERY <= |p| && Word(p, HDR + |Wire(ls)|) == 1 && Word(p, HDR + |Wire(ls)| + 2) == 1
  }

  /** Everything else is ignored, our own query among it, and it is exactly the response code of such
      a packet that makes it an error. */
  lemma JudgedExactly(mem: Memory, p: Packet)
    requires HDR + QUERY <= |p| < NONE
    ensures !Repeats(mem, p) ==> Judge(mem, p) == Ignore
    ensures Judge(mem, p) == ServerError <==> Repeats(mem, p) && p[3] % 16 != 0
  {
    hide Matches, Lies, Compare, Answers;
    var q := Compare(mem, 0, p, HDR);
    if q < NONE {
      AcceptsExactly(mem, p, HDR, q);
    }
    forall ls | Plain(ls) && Matches(mem, 0, ls) && Lies(p, HDR, ls) && HDR + |Wire(ls)| + QUERY <= |p|
      ensures q == HDR + |Wire(ls)|
    {
      AcceptsExactly(mem, p, HDR, HDR + |Wire(ls)|);
    }
    AnswersNoError(p, q + QUERY, Word(p, 6));
  }

  lemma {:induction false} AnswersNoError(p: Packet, at: nat, n: nat)
    ensures !Answers(p, at, n).ServerError?
    decreases n
  {
    hide Skip;
    if n > 0 && at < |p| {
      var a := Skip(p, at);
      if a + ANSWER <= |p| {
        AnswersNoError(p, a + ANSWER + Word(p, a + 8), n - 1);
      }
    }
  }

  /** Behind a record that is no address the loop reads on. */
  lemma AnswersNext(p: Packet, at: nat, r: Record, n: nat)
    requires RecordOk(r) && At(p, at, RecordBytes(r)) && |p| < NONE
    requires !(r.cls == 1 && r.typ == 1 && |r.data| == 4)
    ensures Answers(p, at, n + 1) == Answers(p, at + |RecordBytes(r)|, n)
  {
    hide RecordBytes, Fixed, Skip, At, RecordOk;
    RecordRead(p, at, r);
  }

  /** Behind records without an address it reads on where they end. */
  lemma {:induction false} AnswersRest(p: Packet, at: nat, rs: seq<Record>, n: nat)
    requires AllOk(rs) && At(p, at, RecordsBytes(rs)) && |p| < NONE && FirstAddress(rs).NoAddress?
    ensures Answers(p, at, |rs| + n) == Answers(p, at + |RecordsBytes(rs)|, n)
    decreases |rs|
  {
    hide RecordBytes, Fixed, Skip, At, RecordOk, Answers;
    if rs != [] {
      var r := rs[0];
      assert RecordOk(r);
      AtSplit(p, at, RecordBytes(r), RecordsBytes(rs[1..]));
      AnswersNext(p, at, r, |rs| - 1 + n);
      AnswersRest(p, at + |RecordBytes(r)|, rs[1..], n);
    }
  }

  /** When fewer records follow than the header says, and no address is among them, a packet that ends
      with the last of them holds no address, and one that ends inside a further record is ignored. */
  lemma RecordsCut(p: Packet, at: nat, rs: seq<Record>, n: nat)
    requires AllOk(rs) && At(p, at, RecordsBytes(rs)) && |p| < NONE && FirstAddress(rs).NoAddress? && n > 0
    ensures var end := at + |RecordsBytes(rs)|;
            && (end == |p| ==> Answers(p, at, |rs| + n) == NoAddress)
            && (end < |p| && (Skip(p, end) == NONE || Skip(p, end) + ANSWER > |p|) ==> Answers(p, at, |rs| + n) == Ignore)
  {
    hide At, RecordsBytes, FirstAddress, Skip;
    AnswersRest(p, at, rs, n);
  }
}
