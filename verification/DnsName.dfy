/**
 Host names in DNS packets (dns.c): the encoder of dns_send, dns_compare_name and
 dns_skip_name. A name is the text of a C string; a packet is a pbuf of at most 65535 bytes.
 */
module DnsName {
  import opened Octets

  const DOT: byte := 46
  /** The error result of dns_compare_name and dns_skip_name. */
  const NONE: nat := 0xffff
  const MAX_NAME: nat := 255

  type Packet = p: seq<byte> | |p| <= 0xffff

  /** The labels between the dots. */
  function Labels(name: seq<byte>): (ls: seq<seq<byte>>)
    ensures |ls| > 0
  {
    if name == [] then [[]]
    else
      var rest := Labels(name[1..]);
      if name[0] == DOT then [[]] + rest else [[name[0]] + rest[0]] + rest[1..]
  }

  predicate Short(ls: seq<seq<byte>>) {
    forall i :: 0 <= i < |ls| ==> |ls[i]| <= MAX_NAME
  }

  /** Labels in wire format, each behind its length. */
  function Encoded(ls: seq<seq<byte>>): seq<byte>
    requires Short(ls)
  {
    if ls == [] then [] else [|ls[0]| as byte] + ls[0] + Encoded(ls[1..])
  }

  /** A whole name in wire format. */
  function Wire(ls: seq<seq<byte>>): seq<byte>
    requires Short(ls)
  {
    Encoded(ls) + [0]
  }

  predicate NoDot(s: seq<byte>) {
    forall i :: 0 <= i < |s| ==> s[i] != DOT
  }

  /** The first label ends at the first dot. */
  lemma {:induction false} FirstLabel(name: seq<byte>, e: nat)
    requires e <= |name| && NoDot(name[..e]) && (e < |name| ==> name[e] == DOT)
    ensures Labels(name) == [name[..e]] + if e == |name| then [] else Labels(name[e + 1..])
    decreases e
  {
    if e > 0 {
      assert name[0] == name[..e][0];
      assert name[1..][..e - 1] == name[..e][1..];
      assert forall i :: 0 <= i < e - 1 ==> name[..e][1..][i] == name[..e][i + 1];
      FirstLabel(name[1..], e - 1);
      assert e < |name| ==> name[1..][e..] == name[e + 1..];
      assert name[..e] == [name[0]] + name[1..][..e - 1];
    } else if name != [] {
      assert name[..0] == [];
    }
  }

  /** The position of the first dot. */
  function FirstDot(name: seq<byte>): (e: nat)
    ensures e <= |name| && NoDot(name[..e]) && (e < |name| ==> name[e] == DOT)
  {
    if name == [] || name[0] == DOT then 0
    else
      var e := FirstDot(name[1..]);
      assert name[..e + 1] == [name[0]] + name[1..][..e];
      e + 1
  }

  lemma {:induction false} LabelsShort(name: seq<byte>)
    requires |name| <= MAX_NAME
    ensures Short(Labels(name))
    ensures forall i :: 0 <= i < |Labels(name)| ==> NoDot(Labels(name)[i])
    decreases |name|
  {
    var e := FirstDot(name);
    FirstLabel(name, e);
    if e < |name| {
      LabelsShort(name[e + 1..]);
    }
  }

  /** A name and its labels determine each other. */
  function Joined(ls: seq<seq<byte>>): seq<byte>
    requires |ls| > 0
  {
    if |ls| == 1 then ls[0] else ls[0] + [DOT] + Joined(ls[1..])
  }

  lemma {:induction false} JoinLabels(name: seq<byte>)
    ensures Joined(Labels(name)) == name
    decreases |name|
  {
    hide Labels, NoDot;
    var e := FirstDot(name);
    FirstLabel(name, e);
    if e < |name| {
      JoinLabels(name[e + 1..]);
      assert Labels(name)[1..] == Labels(name[e + 1..]);
      assert name == name[..e] + [DOT] + name[e + 1..];
    } else {
      assert name[..e] == name;
    }
  }

  /** The encoder fills exactly the |name| + 2 bytes that dns_send reserves for it. */
  lemma {:induction false} EncodedLength(name: seq<byte>)
    requires |name| <= MAX_NAME && Short(Labels(name))
    ensures |Encoded(Labels(name))| == |name| + 1
    decreases |name|
  {
    var e := FirstDot(name);
    FirstLabel(name, e);
    if e < |name| {
      assert Labels(name)[1..] == Labels(name[e + 1..]);
      LabelsShort(name[e + 1..]);
      EncodedLength(name[e + 1..]);
    }
  }

  /** A label list on the wire is its first label and the rest. */
  lemma EncodedStep(ls: seq<seq<byte>>, head: seq<byte>, tail: seq<seq<byte>>)
    requires Short(ls) && |head| <= MAX_NAME && ls == [head] + tail
    ensures Short(tail) && Encoded(ls) == [|head| as byte] + head + Encoded(tail)
    ensures tail == [] ==> Encoded(tail) == []
  {
    assert forall i :: 0 <= i < |tail| ==> tail[i] == ls[i + 1];
    assert ls[1..] == tail;
  }

  /** The buffer `s` with `t` written at `at`. */
  function Put(s: seq<byte>, at: nat, t: seq<byte>): (r: seq<byte>)
    requires at + |t| <= |s|
    ensures |r| == |s|
  {
    s[..at] + t + s[at + |t|..]
  }

  lemma PutPut(s: seq<byte>, at: nat, t: seq<byte>, u: seq<byte>)
    requires at + |t| + |u| <= |s|
    ensures Put(Put(s, at, t), at + |t|, u) == Put(s, at, t + u)
  {
  }

  /** The name loop of dns_send: writes the wire format of `name` at `start` and nothing else. */
  method EncodeName(p: array<byte>, start: nat, name: seq<byte>) returns (end: nat)
    requires |name| <= MAX_NAME && Short(Labels(name)) && start + |name| + 2 <= p.Length <= 0xffff
    modifies p
    ensures end == start + |name| + 2 == start + |Wire(Labels(name))|
    ensures p[..] == Put(old(p[..]), start, Wire(Labels(name)))
  {
    hide Labels, Encoded, Short, Put, NoDot, Wire;
    EncodedLength(name);
    ghost var was, wire, done := p[..], Encoded(Labels(name)), [];
    var queryIdx, part, more := start, 0, true;
    assert name[0..] == name && p[..] == Put(was, start, []) by {
      PutNothing(was, start);
    }
    while more
      invariant 0 <= part <= |name| && |done| == queryIdx - start <= |name| + 1
      invariant p[..] == Put(was, start, done)
      invariant more ==> queryIdx == start + part && Short(Labels(name[part..])) && wire == done + Encoded(Labels(name[part..]))
      invariant !more ==> wire == done
      decreases |name| - part, more
    {
      var host, n := LabelEnd(name, part);
      ghost var rest := name[part..];
      NoDotPart(name, part, host);
      FirstLabel(rest, host - part);
      ghost var tail := if host < |name| then Labels(name[host + 1..]) else [];
      EncodedStep(Labels(rest), name[part..host], tail);
      ghost var piece := [n] + name[part..host];
      PutText(p, queryIdx, n, name[part..host]);
      PutPut(was, start, done, piece);
      done := done + piece;
      queryIdx := queryIdx + (host - part) + 1;
      if host == |name| {
        more := false;
      } else {
        part := host + 1;
      }
    }
    ghost var q := p[..];
    p[queryIdx] := 0;
    PutByte(q, p[..], queryIdx, 0);
    PutPut(was, start, done, [0]);
    WireIs(Labels(name));
    end := queryIdx + 1;
  }

  lemma WireIs(ls: seq<seq<byte>>)
    requires Short(ls)
    ensures Wire(ls) == Encoded(ls) + [0]
  {
  }

  lemma NoDotPart(name: seq<byte>, part: nat, host: nat)
    requires part <= host <= |name| && NoDot(name[part..host]) && (host < |name| ==> name[host] == DOT)
    ensures var rest := name[part..];
            rest[..host - part] == name[part..host] && NoDot(rest[..host - part]) && (host < |name| ==> rest[host - part] == DOT)
    ensures host < |name| ==> name[part..][host - part + 1..] == name[host + 1..]
  {
    assert name[part..][..host - part] == name[part..host];
  }

  lemma PutNothing(s: seq<byte>, at: nat)
    requires at <= |s|
    ensures Put(s, at, []) == s
  {
  }

  lemma PutByte(s: seq<byte>, t: seq<byte>, at: nat, b: byte)
    requires at < |s| && t == s[at := b]
    ensures t == Put(s, at, [b])
  {
  }

  /** The for loop over one label. */
  method LabelEnd(name: seq<byte>, part: nat) returns (host: nat, n: byte)
    requires part <= |name| <= MAX_NAME
    ensures part <= host <= |name| && n as int == host - part && NoDot(name[part..host]) && (host < |name| ==> name[host] == DOT)
  {
    host, n := part, 0;
    while host < |name| && name[host] != DOT
      invariant part <= host <= |name| && n as int == host - part
      invariant forall i :: part <= i < host ==> name[i] != DOT
    {
      n := n + 1;
      host := host + 1;
    }
  }

  /** pbuf_put_at of the length and pbuf_take_at of the text of a label. */
  method PutText(p: array<byte>, at: nat, n: byte, text: seq<byte>)
    requires at + |text| + 1 <= p.Length
    modifies p
    ensures p[..] == Put(old(p[..]), at, [n] + text)
  {
    ghost var was := p[..];
    p[at] := n;
    forall k | 0 <= k < |text| {
      p[at + 1 + k] := text[k];
    }
    assert p[..] == Put(was, at, [n] + text);
  }

  // ----- dns_compare_name -----

  /** The memory from the first character of a name on: its text, a zero, and whatever follows. */
  type Memory = nat -> byte

  function Lower(b: byte): byte {
    if 65 <= b <= 90 then b + 32 else b
  }

  /** Two characters count as the same exactly when they are equal or the two cases of one letter. */
  lemma SameButForCase(a: byte, b: byte)
    ensures Lower(a) == Lower(b) <==> a == b || (65 <= a <= 90 && b as int == a as int + 32) || (65 <= b <= 90 && a as int == b as int + 32)
  {
  }

  /** pbuf_try_get_at */
  function TryGet(p: Packet, at: nat): int {
    if at < |p| then p[at] as int else -1
  }

  /** The `n` bytes of the packet at `at` are those of the name at `q`, but for their case. */
  predicate SameText(mem: Memory, q: nat, p: Packet, at: nat, n: nat) {
    at + n <= |p| && forall i :: at <= i < at + n ==> Lower(p[i]) == Lower(mem(q + (i - at)))
  }

  /** dns_compare_name from the label at `at` on, where the name has been read up to `q`. */
  function Compare(mem: Memory, q: nat, p: Packet, at: nat): (r: nat)
    ensures r <= NONE
    decreases |p| - at
  {
    if at >= |p| then NONE
    else
      var n := p[at] as nat;
      if n >= 192 || !SameText(mem, q, p, at + 1, n) then NONE
      else
        var next := at + 1 + n;
        if next >= |p| then NONE
        else if p[next] == 0 then next + 1
        else Compare(mem, q + n + 1, p, next)
  }

  /** dns_compare_name; its 16-bit offset never wraps around. */
  method CompareName(mem: Memory, p: Packet, start: nat) returns (r: nat)
    requires start <= 0xffff
    ensures r == Compare(mem, 0, p, start)
  {
    var at, query := start, 0;
    while true
      invariant at <= 0xffff && Compare(mem, 0, p, start) == Compare(mem, query, p, at)
      decreases 0xffff - at
    {
      var n := TryGet(p, at);
      if n < 0 || at == 0xffff {
        return NONE;
      }
      ghost var first, q0 := at, query;
      at := at + 1;
      if n >= 0xc0 {
        return NONE;
      }
      var left := n;
      while left > 0
        invariant 0 <= left <= n && at == first + 1 + (n - left) <= |p| && query == q0 + (n - left)
        invariant SameText(mem, q0, p, first + 1, n - left)
      {
        var c := TryGet(p, at);
        if c < 0 {
          return NONE;
        }
        if Lower(mem(query)) != Lower(c as byte) {
          assert !SameText(mem, q0, p, first + 1, n) by {
            assert mem(q0 + (at - (first + 1))) == mem(query);
          }
          return NONE;
        }
        if at == 0xffff {
          return NONE;
        }
        at := at + 1;
        query := query + 1;
        left := left - 1;
      }
      query := query + 1;
      n := TryGet(p, at);
      if n < 0 {
        return NONE;
      }
      if n == 0 {
        break;
      }
    }
    if at == 0xffff {
      return NONE;
    }
    return at + 1;
  }

  /** Label lists that survive in a packet: a first label may be empty, the others not; a length of
      192 or more would be taken for a compressed name. */
  predicate Plain(ls: seq<seq<byte>>) {
    |ls| > 0 && (forall i :: 0 <= i < |ls| ==> |ls[i]| < 192) && forall i :: 0 < i < |ls| ==> ls[i] != []
  }

  /** The text is that of the name at `q`, but for its case. */
  predicate Alike(text: seq<byte>, mem: Memory, q: nat) {
    forall i :: 0 <= i < |text| ==> Lower(text[i]) == Lower(mem(q + i))
  }

  /** The labels are the pieces of the name from `q` on, with one character between them. */
  predicate Matches(mem: Memory, q: nat, ls: seq<seq<byte>>)
    decreases |ls|
  {
    ls == [] || (Alike(ls[0], mem, q) && Matches(mem, q + |ls[0]| + 1, ls[1..]))
  }

  /** The wire format of `ls` lies in the packet at `at`. */
  predicate Lies(p: Packet, at: nat, ls: seq<seq<byte>>)
    requires Short(ls)
  {
    at + |Wire(ls)| <= |p| && p[at..at + |Wire(ls)|] == Wire(ls)
  }

  lemma Cons(p: seq<byte>, at: nat, n: nat, m: nat)
    requires at + 1 + n + m <= |p|
    ensures p[at..at + 1 + n + m] == [p[at]] + p[at + 1..at + 1 + n] + p[at + 1 + n..at + 1 + n + m]
  {
  }

  lemma Same3(a: byte, b: seq<byte>, c: seq<byte>, x: byte, y: seq<byte>, z: seq<byte>)
    requires |b| == |y|
    ensures [a] + b + c == [x] + y + z <==> a == x && b == y && c == z
  {
    var s, t := [a] + b + c, [x] + y + z;
    if s == t {
      assert s[0] == t[0] && s[1..1 + |b|] == b && t[1..1 + |b|] == y && s[1 + |b|..] == c && t[1 + |b|..] == z;
    }
  }

  /** A list lies at `at` if its first label does and the rest lies behind it. */
  lemma LiesStep(p: Packet, at: nat, ls: seq<seq<byte>>)
    requires Short(ls) && ls != []
    ensures |Wire(ls)| == 1 + |ls[0]| + |Wire(ls[1..])| && |Wire(ls[1..])| >= 1
    ensures var n := |ls[0]|;
            Lies(p, at, ls) <==>
              at + 1 + n < |p| && p[at] as nat == n && p[at + 1..at + 1 + n] == ls[0] && Lies(p, at + 1 + n, ls[1..])
  {
    hide Encoded;
    var n, rest := |ls[0]|, Wire(ls[1..]);
    assert Wire(ls) == [n as byte] + ls[0] + rest by {
      WireStep(ls);
    }
    if at + 1 + n + |rest| <= |p| {
      Cons(p, at, n, |rest|);
      Same3(p[at], p[at + 1..at + 1 + n], p[at + 1 + n..at + 1 + n + |rest|], n as byte, ls[0], rest);
    }
  }

  lemma WireStep(ls: seq<seq<byte>>)
    requires Short(ls) && ls != []
    ensures Wire(ls) == [|ls[0]| as byte] + ls[0] + Wire(ls[1..])
  {
  }

  lemma LiesEnd(p: Packet, at: nat)
    ensures Wire([]) == [0] && (Lies(p, at, []) <==> at < |p| && p[at] == 0)
  {
  }

  lemma PlainTail(ls: seq<seq<byte>>)
    requires |ls| > 1 && |ls[0]| < 192 && ls[1] != []
    ensures Plain(ls) <==> Plain(ls[1..])
  {
    var rest := ls[1..];
    assert forall i :: 0 <= i < |rest| ==> rest[i] == ls[i + 1];
    assert forall i :: 0 < i < |ls| ==> ls[i] == rest[i - 1];
  }

  /** Whatever is accepted is a list of plain labels that match the name. */
  lemma {:induction false} AcceptedLabels(mem: Memory, q: nat, p: Packet, at: nat) returns (ls: seq<seq<byte>>)
    requires Compare(mem, q, p, at) < NONE
    ensures Plain(ls) && Matches(mem, q, ls) && Lies(p, at, ls) && Compare(mem, q, p, at) == at + |Wire(ls)|
    decreases |p| - at
  {
    hide Lies, Wire, Encoded;
    var n := p[at] as nat;
    var next, text := at + 1 + n, p[at + 1..at + 1 + n];
    SameMatches(mem, q, p, at + 1, n);
    if p[next] == 0 {
      ls := [text];
      LiesEnd(p, next);
      assert ls[1..] == [];
    } else {
      var rest := AcceptedLabels(mem, q + n + 1, p, next);
      LiesStep(p, next, rest);
      ls := [text] + rest;
      assert ls[1..] == rest;
      PlainTail(ls);
    }
    LiesStep(p, at, ls);
  }

  lemma SameMatches(mem: Memory, q: nat, p: Packet, at: nat, n: nat)
    requires at + n <= |p|
    ensures SameText(mem, q, p, at, n) <==> Alike(p[at..at + n], mem, q)
  {
    var text := p[at..at + n];
    assert forall i :: at <= i < at + n ==> p[i] == text[i - at];
    if SameText(mem, q, p, at, n) {
      forall i | 0 <= i < n
        ensures Lower(text[i]) == Lower(mem(q + i))
      {
        assert text[i] == p[at + i];
        assert at + i - at == i;
      }
    }
  }

  /** One label that matches. */
  lemma CompareStep(mem: Memory, q: nat, p: Packet, at: nat)
    requires at < |p| && p[at] < 192 && SameText(mem, q, p, at + 1, p[at] as nat) && at + 1 + p[at] as nat < |p|
    ensures var next := at + 1 + p[at] as nat;
            Compare(mem, q, p, at) == if p[next] == 0 then next + 1 else Compare(mem, q + p[at] as nat + 1, p, next)
  {
    hide SameText;
  }

  /** Every list of plain labels that match the name is accepted. */
  lemma {:induction false} MatchingAccepted(mem: Memory, q: nat, p: Packet, at: nat, ls: seq<seq<byte>>)
    requires Plain(ls) && Matches(mem, q, ls) && Lies(p, at, ls)
    ensures Compare(mem, q, p, at) == at + |Wire(ls)|
    decreases |ls|
  {
    hide Lies, Wire, Encoded, SameText, Alike, Compare;
    var n := |ls[0]|;
    LiesStep(p, at, ls);
    SameMatches(mem, q, p, at + 1, n);
    CompareStep(mem, q, p, at);
    if |ls| == 1 {
      assert ls[1..] == [];
      LiesEnd(p, at + 1 + n);
    } else {
      LiesStep(p, at + 1 + n, ls[1..]);
      assert ls[1..][0] == ls[1] && p[at + 1 + n] != 0;
      MatchingAccepted(mem, q + n + 1, p, at + 1 + n, ls[1..]);
    }
  }

  /** Exactly what dns_compare_name accepts: a packet that holds plain labels which are the pieces
      of the name, in any case, separated by any one character each. It asks neither for a dot
      between them nor for the end of the name behind them. */
  lemma AcceptsExactly(mem: Memory, p: Packet, start: nat, end: nat)
    requires end < NONE
    ensures Compare(mem, 0, p, start) == end <==>
              exists ls :: Plain(ls) && Matches(mem, 0, ls) && Lies(p, start, ls) && end == start + |Wire(ls)|
  {
    if Compare(mem, 0, p, start) == end {
      var ls := AcceptedLabels(mem, 0, p, start);
    }
    if ls :| Plain(ls) && Matches(mem, 0, ls) && Lies(p, start, ls) && end == start + |Wire(ls)| {
      MatchingAccepted(mem, 0, p, start, ls);
    }
  }

  /** The memory holds `name`, in any case, and then a zero. */
  predicate Holds(mem: Memory, name: seq<byte>) {
    mem(|name|) == 0 && forall i :: 0 <= i < |name| ==> Lower(name[i]) == Lower(mem(i))
  }

  lemma {:induction false} LabelsMatch(mem: Memory, q: nat, name: seq<byte>)
    requires forall i :: 0 <= i < |name| ==> Lower(name[i]) == Lower(mem(q + i))
    ensures Matches(mem, q, Labels(name))
    decreases |name|
  {
    hide Labels;
    var e := FirstDot(name);
    FirstLabel(name, e);
    var ls := Labels(name);
    assert forall i :: 0 <= i < |ls[0]| ==> ls[0][i] == name[i];
    if e < |name| {
      assert ls[1..] == Labels(name[e + 1..]);
      var rest := name[e + 1..];
      forall i | 0 <= i < |rest|
        ensures Lower(rest[i]) == Lower(mem(q + e + 1 + i))
      {
        assert rest[i] == name[e + 1 + i];
      }
      LabelsMatch(mem, q + e + 1, name[e + 1..]);
    } else {
      assert ls[1..] == [];
    }
  }

  /** Labels that are not plain are not read to their end. */
  lemma {:induction false} NotPlain(mem: Memory, q: nat, p: Packet, at: nat, ls: seq<seq<byte>>)
    requires Short(ls) && ls != [] && !Plain(ls) && Lies(p, at, ls) && at + |Wire(ls)| < NONE
    ensures Compare(mem, q, p, at) != at + |Wire(ls)| && Skip(p, at) != at + |Wire(ls)|
    decreases |ls|
  {
    hide Lies, Wire, Encoded;
    LiesStep(p, at, ls);
    var next := at + 1 + |ls[0]|;
    if |ls[0]| >= 192 {
      SkipForward(p, at);
    } else if |ls| > 1 {
      LiesStep(p, next, ls[1..]);
      assert ls[1..][0] == ls[1];
      if ls[1] != [] {
        PlainTail(ls);
        NotPlain(mem, q + |ls[0]| + 1, p, next, ls[1..]);
      }
    }
  }

  /** dns_compare_name and dns_skip_name both return the offset behind a name that dns_send has
      encoded, whatever the case of its letters, if and only if every label but the first is
      non-empty and none has 192 bytes or more. */
  lemma RoundTripExactly(mem: Memory, name: seq<byte>, p: Packet, start: nat)
    requires |name| <= MAX_NAME && Holds(mem, name) && start + |name| + 2 < NONE
    requires Short(Labels(name)) && Lies(p, start, Labels(name))
    ensures Compare(mem, 0, p, start) == start + |name| + 2 <==> Plain(Labels(name))
    ensures Skip(p, start) == start + |name| + 2 <==> Plain(Labels(name))
  {
    hide Labels, Encoded, Lies;
    EncodedLength(name);
    if Plain(Labels(name)) {
      LabelsMatch(mem, 0, name);
      MatchingAccepted(mem, 0, p, start, Labels(name));
      SkipAgrees(mem, 0, p, start);
    } else {
      NotPlain(mem, 0, p, start, Labels(name));
    }
  }

  /** The host names of section 2.3.4 of RFC 1035 are among those. */
  lemma HostNamesArePlain(ls: seq<seq<byte>>)
    requires ls != [] && forall i :: 0 <= i < |ls| ==> 0 < |ls[i]| <= 63
    ensures Plain(ls)
  {
  }

  /** Acceptance is not equality: the name a.b also accepts the single label "a.b". */
  lemma AcceptanceIsNotEquality(mem: Memory)
    requires mem(0) == 97 && mem(1) == DOT && mem(2) == 98 && mem(3) == 0
    ensures Compare(mem, 0, [3, 97, DOT, 98, 0], 0) == 5
    ensures Labels([97, DOT, 98]) == [[97], [98]] != [[97, DOT, 98]]
  {
    var p: Packet := [3, 97, DOT, 98, 0];
    assert SameText(mem, 0, p, 1, 3);
    var name: seq<byte> := [97, DOT, 98];
    assert name[..1] == [97] && name[2..] == [98];
    assert [98 as byte][..1] == [98];
    FirstLabel(name, 1);
    FirstLabel([98], 1);
    assert Labels(name)[0] == [97];
  }

  // ----- dns_skip_name -----

  /** dns_skip_name from the label at `at` on. */
  function Skip(p: Packet, at: nat): (r: nat)
    ensures r <= NONE
    decreases |p| - at
  {
    if at >= |p| then NONE
    else
      var n := p[at] as nat;
      if n >= 192 then if at + 1 == NONE then NONE else at + 2
      else
        var next := at + 1 + n;
        if next >= |p| then NONE
        else if p[next] == 0 then next + 1
        else Skip(p, next)
  }

  /** dns_skip_name; its 16-bit offset never wraps around. */
  method SkipName(p: Packet, queryIdx: nat) returns (r: nat)
    requires queryIdx <= 0xffff
    ensures r == Skip(p, queryIdx)
  {
    var at := queryIdx;
    while true
      invariant at <= 0xffff && Skip(p, queryIdx) == Skip(p, at)
      decreases 0xffff - at
    {
      var n := TryGet(p, at);
      at := (at + 1) % 0x10000;
      if n < 0 || at == 0 {
        return NONE;
      }
      if n >= 0xc0 {
        break;
      }
      if at + n >= |p| {
        return NONE;
      }
      at := (at + n) % 0x10000;
      n := TryGet(p, at);
      if n < 0 {
        return NONE;
      }
      if n == 0 {
        break;
      }
    }
    if at == 0xffff {
      return NONE;
    }
    return at + 1;
  }

  /** Skipping always moves on. */
  lemma {:induction false} SkipForward(p: Packet, at: nat)
    ensures Skip(p, at) == NONE || Skip(p, at) >= at + 2
    ensures at < |p| && p[at] >= 192 && at + 2 < NONE ==> Skip(p, at) == at + 2
    decreases |p| - at
  {
    if at < |p| && p[at] < 192 && at + 1 + (p[at] as nat) < |p| {
      SkipForward(p, at + 1 + p[at] as nat);
    }
  }

  /** Whatever is accepted as a name is skipped alike. */
  lemma {:induction false} SkipAgrees(mem: Memory, q: nat, p: Packet, at: nat)
    requires Compare(mem, q, p, at) < NONE
    ensures Skip(p, at) == Compare(mem, q, p, at)
    decreases |p| - at
  {
    var n := p[at] as nat;
    if p[at + 1 + n] != 0 {
      SkipAgrees(mem, q + n + 1, p, at + 1 + n);
    }
  }

  /** The name of a resource record: labels that end in a zero or in a pointer (section 4.1.4 of
      RFC 1035). */
  datatype Owner = Owner(labels: seq<seq<byte>>, pointer: seq<byte>)

  predicate OwnerOk(o: Owner) {
    && (forall i :: 0 <= i < |o.labels| ==> 0 < |o.labels[i]| < 192)
    && (o.pointer == [] || (|o.pointer| == 2 && o.pointer[0] >= 192))
  }

  function OwnerBytes(o: Owner): seq<byte>
    requires OwnerOk(o)
  {
    Encoded(o.labels) + if o.pointer == [] then [0] else o.pointer
  }

  /** The root is the one name that is skipped wrongly: its zero is taken for an empty first label. */
  lemma {:induction false} SkipsOwnersExactly(p: Packet, at: nat, o: Owner)
    requires OwnerOk(o)
    requires at + |OwnerBytes(o)| <= |p| && at + |OwnerBytes(o)| < NONE && p[at..at + |OwnerBytes(o)|] == OwnerBytes(o)
    ensures Skip(p, at) == at + |OwnerBytes(o)| <==> !(o.labels == [] && o.pointer == [])
    decreases |o.labels|
  {
    hide Encoded, OwnerBytes;
    var m := |OwnerBytes(o)|;
    OwnerStart(o);
    assert p[at..at + m][0] == p[at];
    if o.labels == [] {
      SkipForward(p, at);
    } else {
      var rest := OwnerStep(o);
      var n, k := |o.labels[0]|, |OwnerBytes(rest)|;
      Cons(p, at, n, k);
      Same3(p[at], p[at + 1..at + 1 + n], p[at + 1 + n..at + m], n as byte, o.labels[0], OwnerBytes(rest));
      assert p[at + 1 + n..at + m][0] == p[at + 1 + n];
      if rest.labels != [] || rest.pointer != [] {
        SkipsOwnersExactly(p, at + 1 + n, rest);
      }
    }
  }

  lemma OwnerStart(o: Owner)
    requires OwnerOk(o)
    ensures OwnerBytes(o) != []
    ensures o.labels == [] ==> OwnerBytes(o) == if o.pointer == [] then [0] else o.pointer
  {
  }

  lemma OwnerStep(o: Owner) returns (rest: Owner)
    requires OwnerOk(o) && o.labels != []
    ensures rest == o.(labels := o.labels[1..]) && OwnerOk(rest)
    ensures OwnerBytes(o) == [|o.labels[0]| as byte] + o.labels[0] + OwnerBytes(rest)
    ensures OwnerBytes(rest) != []
    ensures OwnerBytes(rest)[0] == 0 <==> rest.labels == [] && rest.pointer == []
    ensures rest.labels == [] && rest.pointer == [] ==> OwnerBytes(rest) == [0]
  {
    rest := o.(labels := o.labels[1..]);
    assert forall i :: 0 <= i < |rest.labels| ==> rest.labels[i] == o.labels[i + 1];
  }
}
