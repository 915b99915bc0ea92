/**
 Ones'-complement arithmetic of the Internet checksum (RFC 1071): residues modulo 65535
 that tell an empty sum (0) from a full one (0xffff).
 */
module OnesComplement {
  const M: nat := 0xffff
  const U32: nat := 0x1_0000_0000

  /** The 16-bit ones'-complement value of a sum: its residue in 1..65535, or 0 for 0 itself. */
  function Canon(n: nat): (c: nat)
    ensures c <= M
  {
    if n == 0 then 0 else 1 + (n - 1) % M
  }

  /** Two sums stand for the same ones'-complement value. */
  predicate Same(a: nat, b: nat) {
    a % M == b % M && (a == 0 <==> b == 0)
  }

  lemma SameTrans(a: nat, b: nat, c: nat)
    ensures Same(a, a)
    ensures Same(a, b) && Same(b, c) ==> Same(a, c)
  {
  }

  lemma SameSym(a: nat, b: nat)
    ensures Same(a, b) <==> Same(b, a)
  {
  }

  lemma CanonSame(n: nat)
    ensures Same(Canon(n), n)
  {
  }

  /** `Canon` picks one representative of each value. */
  lemma CanonUnique(x: nat, n: nat)
    requires x <= M && Same(x, n)
    ensures x == Canon(n)
  {
    CanonSame(n);
    assert Canon(n) % M == x % M;
  }

  lemma SameAdd(a: nat, b: nat, c: nat, d: nat)
    requires Same(a, b) && Same(c, d)
    ensures Same(a + c, b + d)
  {
    var k, l := a / M - b / M, c / M - d / M;
    assert a - b == M * k && c - d == M * l;
    assert a + c - (b + d) == M * (k + l);
    Multiple(a + c, b + d, k + l);
  }

  lemma SameScale(a: nat, b: nat)
    requires Same(a, b)
    ensures Same(256 * a, 256 * b)
  {
    var k := a / M - b / M;
    assert a - b == M * k;
    assert 256 * a - 256 * b == M * (256 * k);
    Multiple(256 * a, 256 * b, 256 * k);
  }

  /** 256 * 256 is 1 modulo 65535. */
  lemma SameTwice(a: nat)
    ensures Same(65536 * a, a)
  {
    Multiple(65536 * a, a, a);
  }

  lemma Multiple(x: nat, y: nat, k: int)
    requires x - y == M * k
    ensures x % M == y % M
  {
    var d := x / M - y / M - k;
    assert x % M - y % M == -(M * d);
    assert d == 0;
  }

  /** FOLD_U32T. */
  function Fold(u: nat): nat {
    u / 65536 + u % 65536
  }

  lemma FoldSame(u: nat)
    ensures Same(Fold(u), u)
    ensures u < U32 ==> Fold(u) <= 2 * M
    ensures u <= 2 * M ==> Fold(u) <= M
  {
    SameTwice(u / 65536);
    SameAdd(65536 * (u / 65536), u / 65536, u % 65536, u % 65536);
  }

  /** Folding a 32-bit sum twice gives its ones'-complement value. */
  lemma FoldTwice(u: nat)
    requires u < U32
    ensures Fold(Fold(u)) == Canon(u)
  {
    FoldSame(u);
    FoldSame(Fold(u));
    CanonUnique(Fold(Fold(u)), u);
  }

  /** SWAP_BYTES_IN_WORD, which drops everything above the low 16 bits. */
  function Swap(w: nat): (r: nat)
    ensures r <= M
  {
    w % 256 * 256 + w / 256 % 256
  }

  /** On 16-bit values swapping is multiplication by 256. */
  lemma SwapSame(w: nat)
    requires w <= M
    ensures Swap(w) <= M && Same(Swap(w), 256 * w)
  {
    var h, l := w / 256, w % 256;
    Halves(w, h, l);
    SwapHalves(h, l);
  }

  lemma Halves(w: nat, h: nat, l: nat)
    requires w <= M && h == w / 256 && l == w % 256
    ensures Swap(w) == h + 256 * l && 256 * w == 65536 * h + 256 * l && h < 256
  {
  }

  lemma SwapHalves(h: nat, l: nat)
    ensures Same(h + 256 * l, 65536 * h + 256 * l)
  {
    hide Same;
    SameTwice(h);
    SameTrans(256 * l, 0, 0);
    SameAdd(65536 * h, h, 256 * l, 256 * l);
    SameSym(65536 * h + 256 * l, h + 256 * l);
  }

  /** A 32-bit addition with the end-around carry of algorithm 3. */
  function AddCarry(a: nat, b: nat): nat {
    var t := (a + b) % U32;
    if t < a then t + 1 else t
  }

  lemma AddCarrySame(a: nat, b: nat)
    requires a < U32 && b < U32
    ensures AddCarry(a, b) < U32 && Same(AddCarry(a, b), a + b)
  {
    if a + b >= U32 {
      Multiple(a + b, a + b - U32 + 1, 65537);
    }
  }
}

/** The sum a checksum stands for. */
module ByteSum {
  import opened Octets
  import opened OnesComplement

  /** Sum of the 16-bit words of `s`; `low` tells whether the first byte of a word is its low
      byte (little endian hosts) or its high byte (network order). A last odd byte is padded. */
  function Sum(s: seq<byte>, low: bool): nat {
    if s == [] then 0 else (if low then s[0] as nat else 256 * s[0] as nat) + Sum(s[1..], !low)
  }

  /** RFC 1071, section 2 (B): summing in the other byte order swaps the bytes of the sum. */
  lemma {:induction false} ByteOrder(s: seq<byte>, low: bool)
    ensures Same(256 * Sum(s, low), Sum(s, !low))
  {
    if s == [] {
    } else {
      ByteOrder(s[1..], !low);
      var w := s[0] as nat;
      SameTwice(w);
      if low {
        SameAdd(256 * w, 256 * w, 256 * Sum(s[1..], false), Sum(s[1..], true));
      } else {
        SameAdd(65536 * w, w, 256 * Sum(s[1..], true), Sum(s[1..], false));
      }
    }
  }

  lemma ByteOrderCanon(s: seq<byte>)
    ensures Canon(Sum(s, true)) == Swap(Canon(Sum(s, false)))
  {
    SwapsTo(s, false, Canon(Sum(s, false)));
  }

  /** Swapping the value of one byte order gives the value of the other. */
  lemma SwapsTo(s: seq<byte>, low: bool, c: nat)
    requires c == Canon(Sum(s, low))
    ensures Swap(c) == Canon(Sum(s, !low))
  {
    var n := Sum(s, low);
    CanonSame(n);
    SwapSame(c);
    SameScale(c, n);
    ByteOrder(s, low);
    CanonUnique(Swap(c), Sum(s, !low));
  }

  lemma {:induction false} SumAppend(a: seq<byte>, b: seq<byte>, low: bool)
    ensures Sum(a + b, low) == Sum(a, low) + Sum(b, if |a| % 2 == 0 then low else !low)
  {
    if a == [] {
      assert a + b == b;
    } else {
      assert (a + b)[1..] == a[1..] + b;
      SumAppend(a[1..], b, !low);
    }
  }

  /** A 16-bit load. */
  function Word(b0: byte, b1: byte, low: bool): (w: nat)
    ensures w <= M
  {
    if low then b0 as nat + 256 * b1 as nat else 256 * b0 as nat + b1 as nat
  }

  lemma SumWord(s: seq<byte>, low: bool)
    requires |s| >= 2
    ensures Sum(s, low) == Word(s[0], s[1], low) + Sum(s[2..], low)
  {
    assert s[1..][0] == s[1] && s[1..][1..] == s[2..];
  }

  lemma SumHead(s: seq<byte>, low: bool)
    requires |s| > 0
    ensures Sum(s, low) == (if low then s[0] as nat else 256 * s[0] as nat) + Sum(s[1..], !low)
  {
  }

  lemma SumEmpty(low: bool)
    ensures Sum([], low) == 0
  {
  }

  lemma SumByte(s: seq<byte>, low: bool)
    requires |s| == 1
    ensures Sum(s, low) == if low then s[0] as nat else 256 * s[0] as nat
  {
    assert s[1..] == [];
  }

  lemma {:induction false} SumBound(s: seq<byte>, low: bool)
    ensures Sum(s, low) <= |s| / 2 * M + if |s| % 2 == 0 then 0 else if low then 255 else 65280
    decreases |s|
  {
    if |s| >= 2 {
      SumWord(s, low);
      SumBound(s[2..], low);
      assert |s| / 2 == |s[2..]| / 2 + 1;
    } else if |s| == 1 {
      SumByte(s, low);
    }
  }

  function Ones(n: nat): (s: seq<byte>)
    ensures |s| == n
  {
    seq(n, _ => 255)
  }

  lemma {:induction false} SumOnes(n: nat, low: bool)
    ensures Sum(Ones(n), low) == n / 2 * M + if n % 2 == 0 then 0 else if low then 255 else 65280
    decreases n
  {
    if n >= 2 {
      SumWord(Ones(n), low);
      assert Ones(n)[2..] == Ones(n - 2);
      SumOnes(n - 2, low);
      assert n / 2 == (n - 2) / 2 + 1;
    } else if n == 1 {
      SumByte(Ones(1), low);
    }
  }

  const LIMIT: nat := 0x20002

  /** A 32-bit accumulator holds the sum of every buffer of n bytes exactly when n is at most
      0x20002: two bytes more than the comment of algorithm 2 promises. */
  lemma AccumulatorLimit(n: nat, low: bool)
    ensures (forall s: seq<byte> :: |s| == n ==> Sum(s, low) < U32) <==> n <= LIMIT
  {
    if n <= LIMIT {
      forall s: seq<byte> | |s| == n
        ensures Sum(s, low) < U32
      {
        SumBound(s, low);
      }
    } else {
      SumOnes(n, low);
      assert n / 2 >= 0x10001;
      assert |Ones(n)| == n && Sum(Ones(n), low) >= U32;
    }
  }
}

/** inet_chksum.c. Host byte order is a parameter: `le` holds on little endian hosts. */
module Checksum {
  import opened Octets
  import opened OnesComplement
  import opened ByteSum

  /** The non-inverted checksum all three algorithms return. */
  function Value(s: seq<byte>, le: bool): (c: nat)
    ensures c <= M
  {
    Canon(Sum(s, le))
  }

  /** lwip_htons. */
  function Htons(w: nat, le: bool): nat {
    if le then Swap(w) else w
  }

  /** What a 32-bit accumulator makes of the sum in the byte order `low`, in host order. */
  function Value32(s: seq<byte>, low: bool, le: bool): nat {
    var c := Canon(Sum(s, low) % U32);
    if low == le then c else Swap(c)
  }

  lemma WrapAdd(x: nat, y: nat)
    ensures (x % U32 + y) % U32 == (x + y) % U32
  {
  }

  lemma FewEnough(s: seq<byte>, low: bool, le: bool)
    requires |s| <= LIMIT
    ensures Value32(s, low, le) == Value(s, le)
  {
    hide Same, Canon, Sum, Swap;
    AccumulatorLimit(|s|, low);
    if low != le {
      SwapsTo(s, low, Canon(Sum(s, low)));
    }
  }

  /** Algorithm 1: sum words in network order, fold, reorder. */
  method StandardChksum1(s: seq<byte>, le: bool) returns (r: nat)
    ensures r == Value32(s, false, le)
    ensures |s| <= LIMIT ==> r == Value(s, le)
  {
    hide Same, Canon, Sum, Swap;
    var acc: nat, i: nat := 0, 0;
    SumEmpty(false);
    if |s| <= LIMIT {
      FewEnough(s, false, le);
    }
    while |s| - i > 1
      invariant 0 <= i <= |s| && acc < U32
      invariant (acc + Sum(s[i..], false)) % U32 == Sum(s, false) % U32
    {
      SumWord(s[i..], false);
      assert s[i..][2..] == s[i + 2..];
      var src := s[i] as nat * 256;
      src := src + s[i + 1] as nat;
      WrapAdd(acc + src, Sum(s[i + 2..], false));
      acc := (acc + src) % U32;
      i := i + 2;
    }
    if |s| - i > 0 {
      SumByte(s[i..], false);
      acc := (acc + s[i] as nat * 256) % U32;
    } else {
      assert s[i..] == [];
    }
    assert acc == Sum(s, false) % U32;
    FoldTwice(acc);
    FoldSame(acc);
    acc := Fold(acc);
    if acc > M {
      acc := Fold(acc);
    }
    r := Htons(acc, le);
  }

  /** Algorithm 2: sum host-order words from the first even address on. */
  method StandardChksum2(s: seq<byte>, addr: nat, le: bool) returns (r: nat)
    ensures r == Value32(s, if addr % 2 == 1 then !le else le, le)
    ensures |s| <= LIMIT ==> r == Value(s, le)
  {
    hide Same, Canon, Sum, Fold, Swap;
    var odd := addr % 2 == 1;
    var i: nat, sum: nat := 0, 0;
    var t0, t1: byte := 0, 0;
    ghost var low := if odd then !le else le;
    SumEmpty(le);
    SumEmpty(!le);
    if |s| <= LIMIT {
      FewEnough(s, low, le);
    }
    if odd && |s| > 0 {
      // the byte before the first even address belongs to the other half of a word
      SumHead(s, low);
      t1 := s[0];
      i := 1;
    }
    ghost var head := Word(0, t1, le);
    assert head + Sum(s[i..], le) == Sum(s, low);
    while |s| - i > 1
      invariant 0 <= i <= |s| && sum < U32
      invariant (sum + (head + Sum(s[i..], le))) % U32 == Sum(s, low) % U32
    {
      SumWord(s[i..], le);
      assert s[i..][2..] == s[i + 2..];
      WrapAdd(sum + Word(s[i], s[i + 1], le), head + Sum(s[i + 2..], le));
      sum := (sum + Word(s[i], s[i + 1], le)) % U32;
      i := i + 2;
    }
    if |s| - i > 0 {
      SumByte(s[i..], le);
      t0 := s[i];
    }
    // one halfword for the odd bytes of both ends
    assert head + Sum(s[i..], le) == Word(t0, t1, le);
    sum := (sum + Word(t0, t1, le)) % U32;
    assert sum == Sum(s, low) % U32;
    FoldTwice(sum);
    sum := Fold(Fold(sum));
    if odd {
      sum := Swap(sum);
    }
    r := sum;
  }

  /** Dropping carries changes the value of a sum, unless it drops a multiple of 65535 of them. */
  lemma CarriesMatter(n: nat)
    requires n < M * U32
    ensures Canon(n % U32) == Canon(n) <==> n < U32
  {
    if n >= U32 {
      var q, y := n / U32, n % U32;
      assert 0 < q < M && n == U32 * q + y;
      CanonSame(n);
      CanonSame(y);
      if Canon(y) == Canon(n) {
        var d := n / M - y / M;
        assert U32 * q == M * d;
        assert q == M * (d - 65537 * q);
        Nonzero(q, d - 65537 * q);
      }
    }
  }

  lemma Nonzero(q: nat, k: int)
    requires 0 < q < M
    ensures q != M * k
  {
    if k >= 1 {
      assert M * k >= M;
    } else {
      assert M * k <= 0;
    }
  }

  lemma SwapBack(w: nat)
    requires w <= M
    ensures Swap(Swap(w)) == w
  {
    hide Swap;
    var h, l := w / 256, w % 256;
    Halves(w, h, l);
    Quotients(h, l);
    Halves(h + 256 * l, l, h);
  }

  lemma Quotients(h: nat, l: nat)
    requires h < 256
    ensures (h + 256 * l) / 256 == l && (h + 256 * l) % 256 == h
  {
  }

  /** Algorithms 1 and 2 return the right value exactly when the sum in their byte order fits into
      the accumulator (the length is an int). */
  lemma RightExactly(s: seq<byte>, low: bool, le: bool)
    requires |s| < 0x8000_0000
    ensures Value32(s, low, le) == Value(s, le) <==> Sum(s, low) < U32
  {
    hide Same, Canon, Sum, Swap;
    SumBound(s, low);
    assert Sum(s, low) < M * U32;
    CarriesMatter(Sum(s, low));
    var c, d := Canon(Sum(s, low)), Canon(Sum(s, low) % U32);
    SwapsTo(s, low, c);
    SwapBack(c);
    SwapBack(d);
  }

  /** Beyond 0x20002 bytes there is, for every length, a buffer whose checksum comes out wrong. */
  lemma WrongBeyondLimit(n: nat, low: bool, le: bool)
    requires LIMIT < n < 0x8000_0000
    ensures Value32(Ones(n), low, le) != Value(Ones(n), le)
  {
    hide Value32, Value;
    SumOnes(n, low);
    assert n / 2 >= 0x10001;
    RightExactly(Ones(n), low, le);
  }

  /** A 32-bit load. */
  function Long(s: seq<byte>, i: nat, le: bool): (l: nat)
    requires i + 4 <= |s|
    ensures l < U32
  {
    var w0, w1 := Word(s[i], s[i + 1], le), Word(s[i + 2], s[i + 3], le);
    if le then w0 + 65536 * w1 else 65536 * w0 + w1
  }

  lemma LongSum(s: seq<byte>, i: nat, le: bool)
    requires i + 4 <= |s|
    ensures Same(Long(s, i, le) + Sum(s[i + 4..], le), Sum(s[i..], le))
  {
    var w0, w1 := Word(s[i], s[i + 1], le), Word(s[i + 2], s[i + 3], le);
    SumWord(s[i..], le);
    assert s[i..][2..] == s[i + 2..];
    SumWord(s[i + 2..], le);
    assert s[i + 2..][2..] == s[i + 4..];
    var rest := Sum(s[i + 4..], le);
    if le {
      SameTwice(w1);
      SameAdd(65536 * w1, w1, w0 + rest, w0 + rest);
    } else {
      SameTwice(w0);
      SameAdd(65536 * w0, w0, w1 + rest, w1 + rest);
    }
  }

  /** Adding a 32-bit load with end-around carry keeps the value of the whole sum. */
  lemma LongStep(sum: nat, s: seq<byte>, i: nat, le: bool)
    requires i + 4 <= |s| && sum < U32
    ensures var sum' := AddCarry(sum, Long(s, i, le));
            sum' < U32 && Same(sum' + Sum(s[i + 4..], le), sum + Sum(s[i..], le))
  {
    hide Same, Sum, AddCarry, Word;
    var l, rest := Long(s, i, le), Sum(s[i + 4..], le);
    AddCarrySame(sum, l);
    LongSum(s, i, le);
    SameTrans(rest, 0, 0);
    SameTrans(sum, 0, 0);
    SameAdd(AddCarry(sum, l), sum + l, rest, rest);
    SameAdd(sum, sum, l + rest, Sum(s[i..], le));
    SameTrans(AddCarry(sum, l) + rest, sum + l + rest, sum + Sum(s[i..], le));
  }

  /** The unrolled loop of algorithm 3. */
  method AddLongs(s: seq<byte>, start: nat, sum0: nat, le: bool) returns (sum: nat, i: nat)
    requires start <= |s| && sum0 < U32
    ensures start <= i <= |s| && |s| - i <= 7 && sum < U32
    ensures Same(sum + Sum(s[i..], le), sum0 + Sum(s[start..], le))
  {
    hide Same, Sum, Long;
    sum, i := sum0, start;
    SameTrans(sum0 + Sum(s[start..], le), 0, 0);
    while |s| - i > 7
      invariant start <= i <= |s| && sum < U32
      invariant Same(sum + Sum(s[i..], le), sum0 + Sum(s[start..], le))
    {
      ghost var total, before := sum0 + Sum(s[start..], le), sum + Sum(s[i..], le);
      LongStep(sum, s, i, le);
      var tmp: nat := (sum + Long(s, i, le)) % U32;
      if tmp < sum {
        tmp := tmp + 1;
      }
      SameTrans(tmp + Sum(s[i + 4..], le), before, total);
      LongStep(tmp, s, i + 4, le);
      sum := (tmp + Long(s, i + 4, le)) % U32;
      if sum < tmp {
        sum := sum + 1;
      }
      SameTrans(sum + Sum(s[i + 8..], le), tmp + Sum(s[i + 4..], le), total);
      i := i + 8;
    }
  }

  /** The words behind the unrolled loop, at most three of them. */
  method AddWords(s: seq<byte>, start: nat, sum0: nat, le: bool) returns (sum: nat, i: nat)
    requires start <= |s| && |s| - start <= 7 && sum0 <= 2 * M
    ensures start <= i <= |s| && |s| - i <= 1 && sum <= 5 * M
    ensures sum + Sum(s[i..], le) == sum0 + Sum(s[start..], le)
  {
    hide Sum;
    sum, i := sum0, start;
    while |s| - i > 1
      invariant start <= i <= |s| && sum <= 2 * M + (i - start) / 2 * M
      invariant sum + Sum(s[i..], le) == sum0 + Sum(s[start..], le)
    {
      SumWord(s[i..], le);
      assert s[i..][2..] == s[i + 2..];
      sum := (sum + Word(s[i], s[i + 1], le)) % U32;
      i := i + 2;
    }
  }

  /** The end of algorithm 3: fold, add the last words and the two end bytes, fold twice. */
  method SumTail(s: seq<byte>, start: nat, sum0: nat, t1: byte, le: bool) returns (r: nat)
    requires start <= |s| && |s| - start <= 7 && sum0 < U32
    ensures r == Canon(sum0 + Sum(s[start..], le) + Word(0, t1, le))
  {
    hide Same, Canon, Sum, Fold, Word;
    var t0: byte := 0;
    ghost var tail := Sum(s[start..], le);
    // from here on the 32-bit sum cannot wrap
    FoldSame(sum0);
    var sum, i := AddWords(s, start, Fold(sum0), le);
    if |s| - i > 0 {
      SumByte(s[i..], le);
      t0 := s[i];
    } else {
      assert s[i..] == [];
      SumEmpty(le);
    }
    EndBytes(t0, t1, le);
    var last := sum + Word(t0, t1, le);
    assert last == Fold(sum0) + (tail + Word(0, t1, le));
    FoldTwice(last);
    KeepAdding(Fold(sum0), sum0, tail + Word(0, t1, le));
    SameValue(last, sum0 + (tail + Word(0, t1, le)));
    r := last;
    r := Fold(r);
    r := Fold(r);
  }

  /** Algorithm 3: eight bytes at a time with end-around carry. It has no length limit. */
  method StandardChksum3(s: seq<byte>, addr: nat, le: bool) returns (r: nat)
    ensures r == Value(s, le)
  {
    hide Same, Canon, Sum, Fold, Swap, Word;
    var odd := addr % 2 == 1;
    var i: nat, sum: nat := 0, 0;
    var t1: byte := 0;
    ghost var low := if odd then !le else le;
    SumEmpty(le);
    SumEmpty(low);
    assert s[0..] == s && (|s| == 0 ==> s == []);
    EndBytes(0, 0, le);
    if odd && |s| > 0 {
      SumHead(s, low);
      EndBytes(0, s[0], le);
      t1 := s[0];
      i := 1;
    }
    ghost var rest := Sum(s[i..], le);
    assert rest + Word(0, t1, le) == Sum(s, low);
    if (addr + i) % 4 != 0 && |s| - i > 1 {
      SumWord(s[i..], le);
      assert s[i..][2..] == s[i + 2..];
      sum := sum + Word(s[i], s[i + 1], le);
      i := i + 2;
    }
    sum, i := AddLongs(s, i, sum, le);
    r := SumTail(s, i, sum, t1, le);
    KeepAdding(sum + Sum(s[i..], le), rest, Word(0, t1, le));
    SameValue(sum + Sum(s[i..], le) + Word(0, t1, le), Sum(s, low));
    if odd {
      SwapsTo(s, low, r);
      r := Swap(r);
    }
  }

  /** What each byte of the halfword of end bytes contributes. */
  lemma EndBytes(t0: byte, t1: byte, le: bool)
    ensures Word(0, t1, le) == (if !le then t1 as nat else 256 * t1 as nat)
    ensures Word(t0, t1, le) == Word(0, t1, le) + if le then t0 as nat else 256 * t0 as nat
  {
  }

  lemma KeepAdding(a: nat, b: nat, t: nat)
    requires Same(a, b)
    ensures Same(a + t, b + t)
  {
    SameAdd(a, b, t, t);
  }

  lemma SameValue(a: nat, b: nat)
    requires Same(a, b)
    ensures Canon(a) == Canon(b)
  {
    CanonSame(a);
    CanonUnique(Canon(a), b);
  }

  /** inet_chksum. */
  method InetChksum(s: seq<byte>, addr: nat, le: bool) returns (r: nat)
    requires |s| <= 0xffff
    ensures r == M - Value(s, le)
  {
    var c := StandardChksum2(s, addr, le);
    r := M - c;
  }

  /** RFC 1071, section 1: a checksum stored in its own zeroed field makes the check give 0,
      and so does no other stored value except the other representation of zero. */
  lemma Recheck(s: seq<byte>, k: nat, c: nat, le: bool)
    requires k % 2 == 0 && k + 1 < |s| && s[k] == s[k + 1] == 0 && c <= M
    ensures var stored := s[k := FirstByte(c, le)][k + 1 := SecondByte(c, le)];
            Sum(stored, le) == Sum(s, le) + c
    ensures var stored := s[k := FirstByte(c, le)][k + 1 := SecondByte(c, le)];
            M - Value(stored, le) == 0 <==> c == M - Value(s, le) || (Value(s, le) == M && (c == 0 || c == M))
  {
    hide Sum, Canon, FirstByte, SecondByte;
    StoredSum(s, k, c, le);
    FullValue(Sum(s, le), c);
  }

  lemma StoredSum(s: seq<byte>, k: nat, c: nat, le: bool)
    requires k % 2 == 0 && k + 1 < |s| && s[k] == s[k + 1] == 0 && c <= M
    ensures Sum(s[k := FirstByte(c, le)][k + 1 := SecondByte(c, le)], le) == Sum(s, le) + c
  {
    hide Sum;
    var stored := s[k := FirstByte(c, le)][k + 1 := SecondByte(c, le)];
    var a, b := s[..k], s[k + 2..];
    var mid, mid' := s[k..k + 2], [FirstByte(c, le), SecondByte(c, le)];
    assert s == a + (mid + b) && stored == a + (mid' + b);
    SumAppend(a, mid + b, le);
    SumAppend(a, mid' + b, le);
    SumWord(mid + b, le);
    SumWord(mid' + b, le);
    assert (mid + b)[2..] == b && (mid' + b)[2..] == b;
  }

  /** When adding `c` to a sum gives the full value 0xffff. */
  lemma FullValue(n: nat, c: nat)
    requires c <= M
    ensures Canon(n + c) == M <==> c == M - Canon(n) || (Canon(n) == M && (c == 0 || c == M))
  {
    hide Same;
    var v := Canon(n);
    CanonSame(n);
    SameTrans(c, 0, 0);
    SameAdd(v, n, c, c);
    CanonSame(v + c);
    SameSym(Canon(v + c), v + c);
    SameTrans(Canon(v + c), v + c, n + c);
    CanonUnique(Canon(v + c), n + c);
    FullCanon(v, c);
  }

  lemma FullCanon(v: nat, c: nat)
    requires v <= M && c <= M
    ensures Canon(v + c) == M <==> v + c == M || (v == M && c == M)
  {
  }

  /** The bytes of a 16-bit value in memory. */
  function FirstByte(c: nat, le: bool): byte
    requires c <= M
  {
    if le then (c % 256) as byte else (c / 256) as byte
  }

  function SecondByte(c: nat, le: bool): byte
    requires c <= M
  {
    if le then (c / 256) as byte else (c % 256) as byte
  }

  // ----- pbuf chains -----

  /** One element of a pbuf chain: its payload and the address it lies at. */
  datatype Pbuf = Pbuf(payload: seq<byte>, addr: nat)

  predicate Lengths16(p: seq<Pbuf>) {
    forall q :: q in p ==> |q.payload| <= 0xffff
  }

  function Bytes(p: seq<Pbuf>): seq<byte> {
    if p == [] then [] else Bytes(p[..|p| - 1]) + p[|p| - 1].payload
  }

  /** `acc` is a 16-bit accumulator for the sum `n`, with its bytes swapped when `swapped`. */
  ghost predicate Stands(acc: nat, n: nat, swapped: bool) {
    acc <= M && Same(acc, if swapped then 256 * n else n)
  }

  lemma StandsStart(base: nat, le: bool)
    requires base <= M
    ensures Stands(base, base + Sum([], le), false) && Stands(base, base, false)
  {
  }

  /** Swapping the accumulator turns the flag, and undoes itself: the accumulator always has
      16 bits when it is swapped, so nothing is dropped. */
  lemma Turn(acc: nat, n: nat, swapped: bool)
    requires Stands(acc, n, swapped)
    ensures Stands(Swap(acc), n, !swapped)
  {
    SwapSame(acc);
    if swapped {
      SameScale(acc, 256 * n);
      SameTwice(n);
    } else {
      SameScale(acc, n);
    }
  }

  /** One piece added behind `done`. */
  lemma AddPiece(acc: nat, base: nat, done: seq<byte>, swapped: bool, q: seq<byte>, le: bool)
    requires Stands(acc, base + Sum(done, le), swapped) && (swapped <==> |done| % 2 == 1)
    ensures Stands(Fold(acc + Value(q, le)), base + Sum(done + q, le), swapped)
  {
    hide Same, Canon, Sum, Fold, Swap;
    var n, d := base + Sum(done, le), Sum(q, if swapped then !le else le);
    SumAppend(done, q, le);
    FoldSame(acc + Value(q, le));
    CanonSame(Sum(q, le));
    if swapped {
      ByteOrder(q, !le);
      SameSym(256 * d, Sum(q, le));
      SameTrans(Value(q, le), Sum(q, le), 256 * d);
      SameAdd(acc, 256 * n, Value(q, le), 256 * d);
      SameTrans(Fold(acc + Value(q, le)), acc + Value(q, le), 256 * (n + d));
    } else {
      SameAdd(acc, n, Value(q, le), d);
      SameTrans(Fold(acc + Value(q, le)), acc + Value(q, le), n + d);
    }
  }

  /** The final byte swap after a chain. */
  lemma Unswap(acc: nat, n: nat, swapped: bool)
    requires Stands(acc, n, swapped)
    ensures (if swapped then Swap(acc) else acc) == Canon(n)
  {
    if swapped {
      Turn(acc, n, true);
      CanonUnique(Swap(acc), n);
    } else {
      CanonUnique(acc, n);
    }
  }

  /** inet_chksum_pbuf: the same as inet_chksum of the concatenation, however it is split. */
  method InetChksumPbuf(p: seq<Pbuf>, le: bool) returns (r: nat)
    requires Lengths16(p)
    ensures r == M - Value(Bytes(p), le)
  {
    hide Same, Canon, Sum, Fold, Swap, Stands, Bytes;
    NoBytes(p);
    SumEmpty(le);
    var acc: nat, swapped := 0, false;
    StandsStart(0, le);
    for i := 0 to |p|
      invariant Stands(acc, Sum(Bytes(p[..i]), le), swapped) && (swapped <==> |Bytes(p[..i])| % 2 == 1)
    {
      OnePiece(p, i);
      var q := p[i];
      assert q in p;
      var chk := StandardChksum2(q.payload, q.addr, le);
      AddPiece(acc, 0, Bytes(p[..i]), swapped, q.payload, le);
      acc := Fold(acc + chk);
      if |q.payload| % 2 != 0 {
        Turn(acc, Sum(Bytes(p[..i + 1]), le), swapped);
        swapped := !swapped;
        acc := Swap(acc);
      }
    }
    assert p[..|p|] == p;
    Unswap(acc, Sum(Bytes(p), le), swapped);
    if swapped {
      acc := Swap(acc);
    }
    r := M - acc % 65536;
  }

  /** What the pseudo header adds behind the addresses. */
  function ProtoSum(proto: byte, protoLen: nat, le: bool): nat {
    Htons(proto as nat, le) + Htons(protoLen, le)
  }

  /** inet_cksum_pseudo_base. */
  method PseudoBase(p: seq<Pbuf>, proto: byte, protoLen: nat, base: nat, le: bool) returns (r: nat)
    requires Lengths16(p) && protoLen <= M && base <= M
    ensures r == M - Canon(base + Sum(Bytes(p), le) + ProtoSum(proto, protoLen, le))
  {
    hide Same, Canon, Sum, Fold, Swap, Stands, Bytes, ProtoSum;
    NoBytes(p);
    SumEmpty(le);
    var acc: nat, swapped := base, false;
    StandsStart(base, le);
    for i := 0 to |p|
      invariant Stands(acc, base + Sum(Bytes(p[..i]), le), swapped) && (swapped <==> |Bytes(p[..i])| % 2 == 1)
    {
      OnePiece(p, i);
      var q := p[i];
      assert q in p;
      var chk := StandardChksum2(q.payload, q.addr, le);
      AddPiece(acc, base, Bytes(p[..i]), swapped, q.payload, le);
      acc := Fold(acc + chk);
      if |q.payload| % 2 != 0 {
        Turn(acc, base + Sum(Bytes(p[..i + 1]), le), swapped);
        swapped := !swapped;
        acc := Swap(acc);
      }
    }
    assert p[..|p|] == p;
    Unswap(acc, base + Sum(Bytes(p), le), swapped);
    if swapped {
      acc := Swap(acc);
    }
    r := AddProto(acc, base + Sum(Bytes(p), le), proto, protoLen, le);
  }

  /** The common end of both pseudo-header functions. */
  method AddProto(chain: nat, ghost n: nat, proto: byte, protoLen: nat, le: bool) returns (r: nat)
    requires chain == Canon(n) && protoLen <= M
    ensures r == M - Canon(n + ProtoSum(proto, protoLen, le))
  {
    hide Canon, Fold, Swap;
    var acc := chain + Htons(proto as nat, le);
    acc := acc + Htons(protoLen, le);
    FoldTwice(acc);
    AddToCanon(n, ProtoSum(proto, protoLen, le));
    acc := Fold(acc);
    acc := Fold(acc);
    r := M - acc % 65536;
  }

  lemma AddToCanon(n: nat, d: nat)
    ensures Canon(Canon(n) + d) == Canon(n + d)
  {
    CanonSame(n);
    SameAdd(Canon(n), n, d, d);
    CanonSame(Canon(n) + d);
    CanonUnique(Canon(Canon(n) + d), n + d);
  }

  function Prefix(s: seq<byte>, n: nat): seq<byte> {
    if n <= |s| then s[..n] else s
  }

  lemma NoBytes(p: seq<Pbuf>)
    ensures Bytes(p[..0]) == []
  {
  }

  lemma OnePiece(p: seq<Pbuf>, i: nat)
    requires i < |p|
    ensures Bytes(p[..i + 1]) == Bytes(p[..i]) + p[i].payload
  {
    assert p[..i + 1][..i] == p[..i];
  }

  lemma PrefixStep(done: seq<byte>, payload: seq<byte>, n: nat, chklen: nat)
    requires |done| < n && chklen == if |payload| > n - |done| then n - |done| else |payload|
    ensures Prefix(done, n) == done && Prefix(done + payload, n) == done + payload[..chklen]
  {
  }

  lemma PrefixEmpty(n: nat)
    ensures Prefix([], n) == []
  {
  }

  /** inet_cksum_pseudo_partial_base: only the first `chksumLen` bytes of the chain count. The
      accumulator is swapped by the whole length of the last piece, although only a part of it
      was summed; the final swap makes up for it. `asserts` tells whether the assertion inside
      the loop, that less than 0x7fff bytes remain, holds in every iteration. */
  method PseudoPartialBase(p: seq<Pbuf>, proto: byte, protoLen: nat, chksumLen: nat, base: nat, le: bool)
    returns (r: nat, asserts: bool)
    requires Lengths16(p) && protoLen <= M && chksumLen <= M && base <= M
    ensures r == M - Canon(base + Sum(Prefix(Bytes(p), chksumLen), le) + ProtoSum(proto, protoLen, le))
    ensures asserts <==> chksumLen == 0 || p == [] || chksumLen - |p[0].payload| < 0x7fff
  {
    hide Same, Canon, Sum, Fold, Swap, Stands, Prefix, ProtoSum, Bytes;
    var acc: nat, swapped, left: nat, i: nat := base, false, chksumLen, 0;
    asserts := true;
    PrefixEmpty(chksumLen);
    NoBytes(p);
    StandsStart(base, le);
    while i < |p| && left > 0
      invariant i <= |p|
      invariant left == if |Bytes(p[..i])| <= chksumLen then chksumLen - |Bytes(p[..i])| else 0
      invariant Stands(acc, base + Sum(Prefix(Bytes(p[..i]), chksumLen), le), swapped)
      invariant left > 0 ==> (swapped <==> |Bytes(p[..i])| % 2 == 1)
      invariant i == 0 ==> left == chksumLen
      invariant i > 0 ==> left <= chksumLen - |p[0].payload| || left == 0
      invariant asserts <==> i == 0 || chksumLen - |p[0].payload| < 0x7fff
    {
      OnePiece(p, i);
      var q := p[i];
      assert q in p;
      ghost var done := Bytes(p[..i]);
      var chklen := |q.payload|;
      if chklen > left {
        chklen := left;
      }
      ghost var part := q.payload[..chklen];
      PrefixStep(done, q.payload, chksumLen, chklen);
      var chk := StandardChksum2(q.payload[..chklen], q.addr, le);
      AddPiece(acc, base, done, swapped, part, le);
      left := left - chklen;
      asserts := asserts && left < 0x7fff;
      acc := Fold(acc + chk);
      if |q.payload| % 2 != 0 {
        Turn(acc, base + Sum(done + part, le), swapped);
        swapped := !swapped;
        acc := Swap(acc);
      }
      i := i + 1;
    }
    ghost var total := Prefix(Bytes(p), chksumLen);
    ChainPrefix(p, i, chksumLen);
    Unswap(acc, base + Sum(total, le), swapped);
    if swapped {
      acc := Swap(acc);
    }
    r := AddProto(acc, base + Sum(total, le), proto, protoLen, le);
  }

  /** What lies behind the first `n` bytes of a chain does not change them. */
  lemma {:induction false} ChainPrefix(p: seq<Pbuf>, i: nat, n: nat)
    requires i <= |p| && (i == |p| || |Bytes(p[..i])| >= n)
    ensures Prefix(Bytes(p[..i]), n) == Prefix(Bytes(p), n)
    ensures |Bytes(p[..i])| <= |Bytes(p)|
    decreases |p|
  {
    if i == |p| {
      assert p[..i] == p;
    } else {
      var k := |p| - 1;
      assert p[..k][..i] == p[..i];
      ChainPrefix(p[..k], i, n);
    }
  }

  /** The 12 bytes of the IPv4 pseudo header of TCP and UDP (section 3.1 of RFC 793). */
  function PseudoHeader(src: seq<byte>, dest: seq<byte>, proto: byte, protoLen: nat): seq<byte>
    requires protoLen <= M
  {
    src + dest + [0, proto, (protoLen / 256) as byte, (protoLen % 256) as byte]
  }

  /** Two 16-bit halves of an IPv4 address as they lie in memory. */
  function AddrSum(a: seq<byte>, le: bool): nat
    requires |a| == 4
  {
    Word(a[0], a[1], le) + Word(a[2], a[3], le)
  }

  lemma AddrIsSum(a: seq<byte>, le: bool)
    requires |a| == 4
    ensures Sum(a, le) == AddrSum(a, le)
  {
    SumWord(a, le);
    SumWord(a[2..], le);
    assert a[2..][2..] == [];
  }

  lemma PseudoHeaderSum(src: seq<byte>, dest: seq<byte>, proto: byte, protoLen: nat, le: bool)
    requires |src| == 4 && |dest| == 4 && protoLen <= M
    ensures Sum(PseudoHeader(src, dest, proto, protoLen), le) == AddrSum(src, le) + AddrSum(dest, le) + ProtoSum(proto, protoLen, le)
  {
    var tail: seq<byte> := [0, proto, (protoLen / 256) as byte, (protoLen % 256) as byte];
    SumAppend(src + dest, tail, le);
    SumAppend(src, dest, le);
    AddrIsSum(src, le);
    AddrIsSum(dest, le);
    AddrIsSum(tail, le);
    assert Htons(proto as nat, le) == Word(0, proto, le);
  }

  /** inet_chksum_pseudo: the checksum of the pseudo header followed by the data. */
  method InetChksumPseudo(p: seq<Pbuf>, proto: byte, protoLen: nat, src: seq<byte>, dest: seq<byte>, le: bool) returns (r: nat)
    requires Lengths16(p) && protoLen <= M && |src| == 4 && |dest| == 4
    ensures r == M - Value(PseudoHeader(src, dest, proto, protoLen) + Bytes(p), le)
  {
    var acc := FoldAddresses(src, dest, le);
    r := PseudoBase(p, proto, protoLen, acc, le);
    PseudoFlat(src, dest, proto, protoLen, Bytes(p), le);
  }

  /** inet_chksum_pseudo_partial: the same for the first `chksumLen` bytes of the data. */
  method InetChksumPseudoPartial(p: seq<Pbuf>, proto: byte, protoLen: nat, chksumLen: nat, src: seq<byte>, dest: seq<byte>, le: bool)
    returns (r: nat, asserts: bool)
    requires Lengths16(p) && protoLen <= M && chksumLen <= M && |src| == 4 && |dest| == 4
    ensures r == M - Value(PseudoHeader(src, dest, proto, protoLen) + Prefix(Bytes(p), chksumLen), le)
    ensures asserts <==> chksumLen == 0 || p == [] || chksumLen - |p[0].payload| < 0x7fff
  {
    var acc := FoldAddresses(src, dest, le);
    r, asserts := PseudoPartialBase(p, proto, protoLen, chksumLen, acc, le);
    PseudoFlat(src, dest, proto, protoLen, Prefix(Bytes(p), chksumLen), le);
  }

  method FoldAddresses(src: seq<byte>, dest: seq<byte>, le: bool) returns (acc: nat)
    requires |src| == 4 && |dest| == 4
    ensures acc == Canon(AddrSum(src, le) + AddrSum(dest, le))
  {
    acc := Word(src[0], src[1], le);
    acc := acc + Word(src[2], src[3], le);
    acc := acc + Word(dest[0], dest[1], le);
    acc := acc + Word(dest[2], dest[3], le);
    FoldTwice(acc);
    acc := Fold(acc);
    acc := Fold(acc);
  }

  lemma PseudoFlat(src: seq<byte>, dest: seq<byte>, proto: byte, protoLen: nat, data: seq<byte>, le: bool)
    requires |src| == 4 && |dest| == 4 && protoLen <= M
    ensures var a := AddrSum(src, le) + AddrSum(dest, le);
            Canon(Canon(a) + Sum(data, le) + ProtoSum(proto, protoLen, le)) == Value(PseudoHeader(src, dest, proto, protoLen) + data, le)
  {
    hide Same, Canon, Sum, Fold, Swap, Htons, Word;
    SumAppend(PseudoHeader(src, dest, proto, protoLen), data, le);
    PseudoHeaderSum(src, dest, proto, protoLen, le);
    AddToCanon(AddrSum(src, le) + AddrSum(dest, le), Sum(data, le) + ProtoSum(proto, protoLen, le));
  }
}
