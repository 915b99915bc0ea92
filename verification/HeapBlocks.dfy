/**
 The block list behind the lwIP heap: what `mem_malloc`, `mem_free` and `mem_trim`
 do to the sequence of blocks that the `next` links thread through the arena, and
 what any run of these calls keeps.
 */
module HeapBlocks {

  /** Alignment, aligned header size and aligned minimum payload, in bytes. */
  const ALIGN: nat := 4
  const HDR: nat := 8
  const MIN: nat := 12

  /** One block: the offset of its header and whether it is allocated. */
  datatype Block = Block(off: nat, used: bool)

  /** MEM_SIZE_ALIGNED of a build in which mem_size_t has 16 bits. */
  predicate ValidSize(m: nat) {
    m % ALIGN == 0 && HDR + MIN <= m <= 64000
  }

  /** Offset of block `i`; the end marker stands behind the last block. */
  function OffAt(bs: seq<Block>, i: nat, m: nat): nat
    requires i <= |bs|
  {
    if i < |bs| then bs[i].off else m
  }

  function Next(bs: seq<Block>, i: nat, m: nat): nat
    requires i < |bs|
  {
    OffAt(bs, i + 1, m)
  }

  function Prev(bs: seq<Block>, i: nat): nat
    requires i < |bs|
  {
    if i == 0 then 0 else bs[i - 1].off
  }

  /** User bytes of block `i`. */
  function Cap(bs: seq<Block>, i: nat, m: nat): int
    requires i < |bs|
  {
    Next(bs, i, m) - bs[i].off - HDR
  }

  /** The blocks tile [0, m): aligned, ascending, each with room for a minimal payload. */
  ghost predicate Tiled(bs: seq<Block>, m: nat) {
    && ValidSize(m)
    && |bs| > 0
    && bs[0].off == 0
    && (forall i :: 0 <= i < |bs| ==> bs[i].off % ALIGN == 0 && bs[i].off + HDR + MIN <= m)
    && (forall i, j :: 0 <= i < j < |bs| ==> bs[i].off + HDR + MIN <= bs[j].off)
  }

  lemma TiledAt(bs: seq<Block>, i: nat, m: nat)
    requires Tiled(bs, m)
    ensures ValidSize(m) && |bs| > 0
    ensures i < |bs| ==> bs[i].off % ALIGN == 0 && bs[i].off + HDR + MIN <= m
  {
  }

  /** No two neighbouring blocks are both free. */
  ghost predicate NoTwoFree(bs: seq<Block>) {
    forall i, j :: 0 <= i < |bs| && j == i + 1 && j < |bs| ==> bs[i].used || bs[j].used
  }

  ghost predicate WellFormed(bs: seq<Block>, m: nat) {
    Tiled(bs, m) && NoTwoFree(bs)
  }

  /** Lowest free block, or m (the end marker) when every block is allocated. */
  function FirstFree(bs: seq<Block>, m: nat): nat {
    if bs == [] then m else if !bs[0].used then bs[0].off else FirstFree(bs[1..], m)
  }

  /** Sum of the spans, header included, of the blocks from `k` on with the given status. */
  function Span(bs: seq<Block>, k: nat, m: nat, used: bool): int
    requires k <= |bs|
    decreases |bs| - k
  {
    if k == |bs| then 0
    else (if bs[k].used == used then Next(bs, k, m) - bs[k].off else 0) + Span(bs, k + 1, m, used)
  }

  // ----- the operations on the list -----

  function SetUsed(bs: seq<Block>, i: nat, used: bool): seq<Block>
    requires i < |bs|
  {
    bs[i := bs[i].(used := used)]
  }

  function Drop(bs: seq<Block>, i: nat): seq<Block>
    requires i < |bs|
  {
    bs[..i] + bs[i + 1..]
  }

  function InsertAfter(bs: seq<Block>, i: nat, b: Block): seq<Block>
    requires i < |bs|
  {
    bs[..i + 1] + [b] + bs[i + 1..]
  }

  /** plug_holes: join free block `i` with a free right and then a free left neighbour. */
  function Plugged(bs: seq<Block>, i: nat): seq<Block>
    requires i < |bs|
  {
    var fwd := Forward(bs, i);
    if i > 0 && !fwd[i - 1].used then Drop(fwd, i) else fwd
  }

  function Freed(bs: seq<Block>, i: nat): seq<Block>
    requires i < |bs|
  {
    Plugged(SetUsed(bs, i, false), i)
  }

  /** Allocate `size` bytes in block `i`, splitting when a minimal block is left over. */
  function Allocated(bs: seq<Block>, i: nat, size: nat, m: nat): seq<Block>
    requires i < |bs|
  {
    var taken := SetUsed(bs, i, true);
    if Cap(bs, i, m) >= size + HDR + MIN
    then InsertAfter(taken, i, Block(bs[i].off + HDR + size, false))
    else taken
  }

  /** Shrink block `i` to `size` bytes: move a free right neighbour down, or split. */
  function Trimmed(bs: seq<Block>, i: nat, size: nat, m: nat): seq<Block>
    requires i < |bs|
  {
    var rest := Block(bs[i].off + HDR + size, false);
    if size == Cap(bs, i, m) then bs
    else if i + 1 < |bs| && !bs[i + 1].used then bs[i + 1 := rest]
    else if size + HDR + MIN <= Cap(bs, i, m) then InsertAfter(bs, i, rest)
    else bs
  }

  /** Index of the lowest free block at or after `k` with room for `size` bytes, or |bs|. */
  function Fit(bs: seq<Block>, k: nat, size: nat, m: nat): (i: nat)
    requires k <= |bs|
    ensures k <= i <= |bs|
    ensures i < |bs| ==> !bs[i].used && Cap(bs, i, m) >= size
    ensures forall j :: k <= j < i ==> bs[j].used || Cap(bs, j, m) < size
    decreases |bs| - k
  {
    if k == |bs| then k
    else if !bs[k].used && Cap(bs, k, m) >= size then k
    else Fit(bs, k + 1, size, m)
  }

  // ----- request sizes -----

  const U16: nat := 0x1_0000

  /** LWIP_MEM_ALIGN_SIZE followed by the cast to the 16-bit mem_size_t. */
  function Aligned(size: nat): nat {
    (size + ALIGN - 1) / ALIGN * ALIGN % U16
  }

  /** The payload size a request is rounded to. */
  function Rounded(size: nat): nat {
    if Aligned(size) < MIN then MIN else Aligned(size)
  }

  /** The guard of mem_malloc and mem_trim that lets a request through. */
  predicate Legal(size: nat, m: nat) {
    Rounded(size) <= m && Rounded(size) >= size
  }

  /** For a 16-bit request the guard rejects exactly what cannot fit the arena: the
      wrapped sizes 65533..65535 and everything whose rounded size exceeds m. */
  lemma LegalExactly(size: nat, m: nat)
    requires ValidSize(m) && size < U16
    ensures Legal(size, m) <==> size <= m
    ensures Legal(size, m) ==> Rounded(size) % ALIGN == 0 && MIN <= Rounded(size) && size <= Rounded(size) < size + MIN + ALIGN
  {
    if size <= 65532 {
      assert (size + ALIGN - 1) / ALIGN * ALIGN < U16;
    } else {
      assert (size + ALIGN - 1) / ALIGN * ALIGN == U16;
    }
  }

  // ----- what each operation keeps -----

  lemma DropTiled(bs: seq<Block>, k: nat, m: nat)
    requires Tiled(bs, m) && 0 < k < |bs|
    ensures Tiled(Drop(bs, k), m)
  {
    var r := Drop(bs, k);
    assert forall i :: 0 <= i < |r| ==> r[i] == bs[if i < k then i else i + 1];
  }

  lemma InsertTiled(bs: seq<Block>, k: nat, b: Block, m: nat)
    requires Tiled(bs, m) && k < |bs| && b.off % ALIGN == 0
    requires bs[k].off + HDR + MIN <= b.off && b.off + HDR + MIN <= Next(bs, k, m)
    ensures Tiled(InsertAfter(bs, k, b), m)
  {
    var r := InsertAfter(bs, k, b);
    assert r[k + 1] == b;
    forall i | 0 <= i < |r| && i != k + 1
      ensures r[i] == bs[if i <= k then i else i - 1]
    {
    }
    forall i, j | 0 <= i < j < |r|
      ensures r[i].off + HDR + MIN <= r[j].off
    {
      var i0, j0 := if i <= k then i else i - 1, if j <= k then j else j - 1;
      if j == k + 1 {
        assert i < k ==> bs[i].off + HDR + MIN <= bs[k].off;
      } else if i == k + 1 {
        assert j0 >= k + 1;
        assert j0 > k + 1 ==> bs[k + 1].off + HDR + MIN <= bs[j0].off;
      } else {
        assert r[i] == bs[i0] && r[j] == bs[j0];
      }
    }
  }

  /** Replacing the status of a block moves nothing. */
  lemma SetUsedTiled(bs: seq<Block>, k: nat, used: bool, m: nat)
    requires Tiled(bs, m) && k < |bs|
    ensures Tiled(SetUsed(bs, k, used), m)
  {
    var r := SetUsed(bs, k, used);
    assert forall i :: 0 <= i < |r| ==> r[i].off == bs[i].off;
  }

  /** Moving a block's start strictly between its neighbours keeps the tiling. */
  lemma MoveTiled(bs: seq<Block>, k: nat, b: Block, m: nat)
    requires Tiled(bs, m) && 0 < k < |bs| && b.off % ALIGN == 0
    requires bs[k - 1].off + HDR + MIN <= b.off && b.off + HDR + MIN <= Next(bs, k, m)
    ensures Tiled(bs[k := b], m)
  {
    var r := bs[k := b];
    forall i, j | 0 <= i < j < |r|
      ensures r[i].off + HDR + MIN <= r[j].off
    {
      if j == k {
        assert i < k - 1 ==> bs[i].off + HDR + MIN <= bs[k - 1].off;
      } else if i == k {
        assert j > k + 1 ==> bs[k + 1].off + HDR + MIN <= bs[j].off;
      }
    }
  }

  /** No free neighbours except perhaps pairs that contain block `x`. */
  ghost predicate NoTwoFreeAround(bs: seq<Block>, x: nat) {
    forall i, j :: 0 <= i < |bs| && j == i + 1 && j < |bs| && i != x && j != x ==> bs[i].used || bs[j].used
  }

  /** No free neighbours except perhaps block `x` and its left neighbour. */
  ghost predicate NoTwoFreeBut(bs: seq<Block>, x: nat) {
    forall i, j :: 0 <= i < |bs| && j == i + 1 && j < |bs| && j != x ==> bs[i].used || bs[j].used
  }

  /** plug_holes, first half. */
  function Forward(bs: seq<Block>, i: nat): seq<Block>
    requires i < |bs|
  {
    if i + 1 < |bs| && !bs[i + 1].used then Drop(bs, i + 1) else bs
  }

  lemma ForwardKeeps(bs: seq<Block>, i: nat, m: nat)
    requires Tiled(bs, m) && i < |bs| && NoTwoFreeAround(bs, i)
    ensures Tiled(Forward(bs, i), m) && NoTwoFreeBut(Forward(bs, i), i) && i < |Forward(bs, i)|
    ensures forall j :: 0 <= j <= i ==> Forward(bs, i)[j] == bs[j]
  {
    hide Tiled;
    if i + 1 < |bs| && !bs[i + 1].used {
      DropTiled(bs, i + 1, m);
      var r := Drop(bs, i + 1);
      assert forall j :: 0 <= j < |r| ==> r[j] == bs[if j < i + 1 then j else j + 1];
      assert i + 2 < |bs| ==> bs[i + 2].used;
    }
  }

  lemma BackwardKeeps(bs: seq<Block>, i: nat, m: nat)
    requires Tiled(bs, m) && 0 < i < |bs| && NoTwoFreeBut(bs, i) && !bs[i].used && !bs[i - 1].used
    ensures WellFormed(Drop(bs, i), m)
  {
    DropTiled(bs, i, m);
    var r := Drop(bs, i);
    assert forall j :: 0 <= j < |r| ==> r[j] == bs[if j < i then j else j + 1];
    assert i + 1 < |bs| ==> bs[i + 1].used;
  }

  lemma PluggedKeeps(bs: seq<Block>, i: nat, m: nat)
    requires Tiled(bs, m) && i < |bs| && NoTwoFreeAround(bs, i) && !bs[i].used
    ensures WellFormed(Plugged(bs, i), m)
  {
    ForwardKeeps(bs, i, m);
    var fwd := Forward(bs, i);
    if i > 0 && !fwd[i - 1].used {
      BackwardKeeps(fwd, i, m);
    }
  }

  lemma FreedKeeps(bs: seq<Block>, i: nat, m: nat)
    requires WellFormed(bs, m) && i < |bs|
    ensures WellFormed(Freed(bs, i), m)
  {
    SetUsedTiled(bs, i, false, m);
    PluggedKeeps(SetUsed(bs, i, false), i, m);
  }

  lemma TakenKeeps(bs: seq<Block>, i: nat, m: nat)
    requires WellFormed(bs, m) && i < |bs|
    ensures WellFormed(SetUsed(bs, i, true), m)
  {
    hide Tiled;
    SetUsedTiled(bs, i, true, m);
  }

  lemma AlignedSum(off: nat, size: nat)
    requires off % ALIGN == 0 && size % ALIGN == 0
    ensures (off + HDR + size) % ALIGN == 0
  {
    var x, y := off / ALIGN, size / ALIGN;
    assert off == ALIGN * x;
    assert size == ALIGN * y;
    Multiples(x + 2 + y);
  }

  lemma Multiples(k: nat)
    ensures (ALIGN * k) % ALIGN == 0
  {
  }

  lemma InsertLonger(bs: seq<Block>, i: nat, b: Block)
    requires i < |bs|
    ensures |InsertAfter(bs, i, b)| == |bs| + 1
  {
  }

  /** Where the blocks are after an insertion. */
  lemma InsertedAt(bs: seq<Block>, i: nat, b: Block)
    requires i < |bs|
    ensures var r := InsertAfter(bs, i, b);
            && |r| == |bs| + 1 && r[i + 1] == b
            && (forall j :: 0 <= j < |r| && j != i + 1 ==> r[j] == bs[if j <= i then j else j - 1])
  {
  }

  lemma NextUsed(bs: seq<Block>, i: nat)
    requires NoTwoFree(bs) && i + 1 < |bs| && !bs[i].used
    ensures bs[i + 1].used
  {
  }

  lemma AllocatedKeeps(bs: seq<Block>, i: nat, size: nat, m: nat)
    requires WellFormed(bs, m) && i < |bs| && !bs[i].used
    requires size % ALIGN == 0 && MIN <= size <= Cap(bs, i, m)
    ensures WellFormed(Allocated(bs, i, size, m), m)
  {
    hide Tiled, NoTwoFree;
    TiledAt(bs, i, m);
    TakenKeeps(bs, i, m);
    if Cap(bs, i, m) >= size + HDR + MIN {
      if i + 1 < |bs| {
        NextUsed(bs, i);
      }
      AlignedSum(bs[i].off, size);
      SplitKeeps(SetUsed(bs, i, true), i, Block(bs[i].off + HDR + size, false), m);
    }
  }

  lemma MovedKeeps(bs: seq<Block>, i: nat, b: Block, m: nat)
    requires WellFormed(bs, m) && i + 1 < |bs| && bs[i].used && !bs[i + 1].used && !b.used
    requires b.off % ALIGN == 0 && bs[i].off + HDR + MIN <= b.off <= bs[i + 1].off
    ensures WellFormed(bs[i + 1 := b], m)
  {
    assert i + 2 < |bs| ==> bs[i + 1].off + HDR + MIN <= bs[i + 2].off;
    MoveTiled(bs, i + 1, b, m);
  }

  lemma SplitKeeps(bs: seq<Block>, i: nat, b: Block, m: nat)
    requires WellFormed(bs, m) && i < |bs| && bs[i].used && (i + 1 < |bs| ==> bs[i + 1].used)
    requires b.off % ALIGN == 0 && bs[i].off + HDR + MIN <= b.off && b.off + HDR + MIN <= Next(bs, i, m)
    ensures WellFormed(InsertAfter(bs, i, b), m)
  {
    hide Tiled;
    InsertTiled(bs, i, b, m);
    var r := InsertAfter(bs, i, b);
    assert forall j :: 0 <= j < |r| && j != i + 1 ==> r[j] == bs[if j <= i then j else j - 1];
  }

  lemma TrimmedKeeps(bs: seq<Block>, i: nat, size: nat, m: nat)
    requires WellFormed(bs, m) && i < |bs| && bs[i].used
    requires size % ALIGN == 0 && MIN <= size <= Cap(bs, i, m)
    ensures WellFormed(Trimmed(bs, i, size, m), m)
  {
    hide NoTwoFree;
    var rest := Block(bs[i].off + HDR + size, false);
    if size != Cap(bs, i, m) {
      if i + 1 < |bs| && !bs[i + 1].used {
        MovedKeeps(bs, i, rest, m);
      } else if size + HDR + MIN <= Cap(bs, i, m) {
        SplitKeeps(bs, i, rest, m);
      }
    }
  }

  // ----- conservation -----

  /** Allocated and free spans together are the whole arena. */
  lemma {:induction false} SpansFill(bs: seq<Block>, k: nat, m: nat)
    requires k <= |bs|
    ensures Span(bs, k, m, true) + Span(bs, k, m, false) == m - OffAt(bs, k, m)
    decreases |bs| - k
  {
    if k < |bs| {
      SpansFill(bs, k + 1, m);
    }
  }

  /** Equal suffixes, at possibly different indices, have equal spans. */
  lemma {:induction false} SpanSuffix(a: seq<Block>, i: nat, b: seq<Block>, j: nat, m: nat, used: bool)
    requires i <= |a| && j <= |b| && a[i..] == b[j..]
    ensures Span(a, i, m, used) == Span(b, j, m, used)
    decreases |a| - i
  {
    assert |a| - i == |a[i..]| == |b[j..]| == |b| - j;
    if i < |a| {
      assert a[i] == a[i..][0] == b[j..][0] == b[j];
      assert a[i + 1..] == a[i..][1..] == b[j..][1..] == b[j + 1..];
      if i + 1 < |a| {
        assert a[i + 1] == a[i + 1..][0] == b[j + 1..][0] == b[j + 1];
      }
      SpanSuffix(a, i + 1, b, j + 1, m, used);
    }
  }

  /** Lists that agree before `k`, and on where `k` starts, differ in span only from `k` on. */
  lemma {:induction false} SpanPrefix(a: seq<Block>, b: seq<Block>, lo: nat, k: nat, m: nat, used: bool)
    requires lo <= k <= |a| && k <= |b| && a[..k] == b[..k] && OffAt(a, k, m) == OffAt(b, k, m)
    ensures Span(a, lo, m, used) - Span(a, k, m, used) == Span(b, lo, m, used) - Span(b, k, m, used)
    decreases k - lo
  {
    if lo < k {
      assert a[lo] == a[..k][lo] == b[..k][lo] == b[lo];
      assert lo + 1 < k ==> a[lo + 1] == a[..k][lo + 1] == b[..k][lo + 1] == b[lo + 1];
      SpanPrefix(a, b, lo + 1, k, m, used);
    }
  }

  lemma SetUsedSpan(bs: seq<Block>, i: nat, used: bool, m: nat)
    requires i < |bs| && bs[i].used != used
    ensures Span(SetUsed(bs, i, used), 0, m, used) == Span(bs, 0, m, used) + Next(bs, i, m) - bs[i].off
    ensures Span(SetUsed(bs, i, used), 0, m, !used) == Span(bs, 0, m, !used) - (Next(bs, i, m) - bs[i].off)
  {
    var r := SetUsed(bs, i, used);
    forall u: bool
      ensures Span(r, 0, m, u) - Span(r, i, m, u) == Span(bs, 0, m, u) - Span(bs, i, m, u)
      ensures Span(r, i + 1, m, u) == Span(bs, i + 1, m, u)
    {
      SpanPrefix(bs, r, 0, i, m, u);
      SpanSuffix(bs, i + 1, r, i + 1, m, u);
    }
  }

  /** Joining a free block to a free left neighbour changes no allocated span. */
  lemma DropSpan(bs: seq<Block>, i: nat, m: nat)
    requires 0 < i < |bs| && !bs[i].used && !bs[i - 1].used
    ensures Span(Drop(bs, i), 0, m, true) == Span(bs, 0, m, true)
  {
    var r := Drop(bs, i);
    SpanPrefix(bs, r, 0, i - 1, m, true);
    assert r[i..] == bs[i + 1..];
    SpanSuffix(bs, i + 1, r, i, m, true);
    assert r[i - 1] == bs[i - 1];
  }

  /** A free block carved from the end of block `i` takes its span from it. */
  lemma InsertSpan(bs: seq<Block>, i: nat, b: Block, m: nat)
    requires i < |bs| && bs[i].used && !b.used
    ensures Span(InsertAfter(bs, i, b), 0, m, true) == Span(bs, 0, m, true) - (Next(bs, i, m) - b.off)
  {
    var r := InsertAfter(bs, i, b);
    assert r[..i] == bs[..i] && r[i] == bs[i] && r[i + 1] == b;
    SpanPrefix(bs, r, 0, i, m, true);
    assert r[i + 2..] == bs[i + 1..];
    SpanSuffix(bs, i + 1, r, i + 2, m, true);
    assert Span(r, i, m, true) == b.off - bs[i].off + Span(r, i + 2, m, true);
  }

  lemma FreedSpan(bs: seq<Block>, i: nat, m: nat)
    requires i < |bs| && bs[i].used
    ensures Span(Freed(bs, i), 0, m, true) == Span(bs, 0, m, true) - (Next(bs, i, m) - bs[i].off)
  {
    var s := SetUsed(bs, i, false);
    SetUsedSpan(bs, i, false, m);
    var fwd := Forward(s, i);
    if i + 1 < |s| && !s[i + 1].used {
      DropSpan(s, i + 1, m);
    }
    assert forall j :: 0 <= j <= i ==> fwd[j] == s[j];
    if i > 0 && !fwd[i - 1].used {
      DropSpan(fwd, i, m);
    }
  }

  lemma AllocatedSpan(bs: seq<Block>, i: nat, size: nat, m: nat)
    requires i < |bs| && !bs[i].used
    ensures Span(Allocated(bs, i, size, m), 0, m, true) == Span(bs, 0, m, true)
              + if Cap(bs, i, m) >= size + HDR + MIN then size + HDR else Next(bs, i, m) - bs[i].off
  {
    SetUsedSpan(bs, i, true, m);
    if Cap(bs, i, m) >= size + HDR + MIN {
      InsertSpan(SetUsed(bs, i, true), i, Block(bs[i].off + HDR + size, false), m);
    }
  }

  lemma TrimmedSpan(bs: seq<Block>, i: nat, size: nat, m: nat)
    requires i < |bs| && bs[i].used
    ensures Span(Trimmed(bs, i, size, m), 0, m, true) == Span(bs, 0, m, true)
              - if Trimmed(bs, i, size, m) == bs then 0 else Cap(bs, i, m) - size
  {
    var rest := Block(bs[i].off + HDR + size, false);
    var r := Trimmed(bs, i, size, m);
    if size != Cap(bs, i, m) {
      if i + 1 < |bs| && !bs[i + 1].used {
        assert r[..i] == bs[..i] && r[i] == bs[i] && r[i + 1] == rest;
        SpanPrefix(bs, r, 0, i, m, true);
        assert r[i + 2..] == bs[i + 2..];
        SpanSuffix(bs, i + 2, r, i + 2, m, true);
        assert Span(bs, i, m, true) == Next(bs, i, m) - bs[i].off + Span(bs, i + 2, m, true);
        assert Span(r, i, m, true) == rest.off - bs[i].off + Span(r, i + 2, m, true);
        assert rest.off != bs[i + 1].off;
      } else if size + HDR + MIN <= Cap(bs, i, m) {
        InsertSpan(bs, i, rest, m);
        assert |r| != |bs|;
      }
    }
  }

  /** A well-formed list without allocated blocks is the single block mem_init builds. */
  lemma AllFreeIsInitial(bs: seq<Block>, m: nat)
    requires WellFormed(bs, m)
    ensures (forall k :: 0 <= k < |bs| ==> !bs[k].used) <==> bs == [Block(0, false)]
    ensures bs == [Block(0, false)] <==> Span(bs, 0, m, true) == 0
  {
    assert |bs| > 1 ==> bs[0].used || bs[1].used;
    if exists k :: 0 <= k < |bs| && bs[k].used {
      var k :| 0 <= k < |bs| && bs[k].used;
      SpanCovers(bs, 0, k, m);
    }
  }

  lemma {:induction false} SpanCovers(bs: seq<Block>, lo: nat, k: nat, m: nat)
    requires Tiled(bs, m) && lo <= |bs|
    ensures Span(bs, lo, m, true) >= 0
    ensures lo <= k < |bs| && bs[k].used ==> Span(bs, lo, m, true) > 0
    decreases |bs| - lo
  {
    if lo < |bs| {
      SpanCovers(bs, lo + 1, k, m);
      assert lo + 1 < |bs| ==> bs[lo].off + HDR + MIN <= bs[lo + 1].off;
    }
  }

  /** mem_free of the block just allocated undoes mem_malloc completely. */
  lemma FreeUndoesAllocate(bs: seq<Block>, i: nat, size: nat, m: nat)
    requires WellFormed(bs, m) && i < |bs| && !bs[i].used
    ensures Freed(Allocated(bs, i, size, m), i) == bs
  {
    var r := Allocated(bs, i, size, m);
    var s := SetUsed(r, i, false);
    assert i > 0 ==> bs[i - 1].used;
    assert i + 1 < |bs| ==> bs[i + 1].used;
    if Cap(bs, i, m) >= size + HDR + MIN {
      assert s[i + 1] == Block(bs[i].off + HDR + size, false);
      assert Drop(s, i + 1) == bs;
    } else {
      assert s == bs;
    }
  }

  // ----- runs -----

  datatype Op = Malloc(size: nat) | Free(off: nat) | Trim(off: nat, size: nat)

  /** Index of the allocated block whose header is at `off`, or |bs|. */
  function LiveAt(bs: seq<Block>, off: nat): (i: nat)
    ensures i <= |bs|
    ensures i < |bs| ==> bs[i].off == off && bs[i].used
    ensures i == |bs| ==> forall k :: 0 <= k < |bs| ==> !(bs[k].off == off && bs[k].used)
  {
    if bs == [] then 0
    else if bs[0].off == off && bs[0].used then 0
    else
      var i := LiveAt(bs[1..], off);
      assert forall k :: 0 < k < |bs| ==> bs[k] == bs[1..][k - 1];
      i + 1
  }

  /** One call by a client that frees and trims only blocks it owns. */
  function Step(bs: seq<Block>, op: Op, m: nat): seq<Block> {
    match op
    case Malloc(size) =>
      var i := Fit(bs, 0, Rounded(size), m);
      if size > 0 && Legal(size, m) && i < |bs| then Allocated(bs, i, Rounded(size), m) else bs
    case Free(off) =>
      var i := LiveAt(bs, off);
      if i < |bs| then Freed(bs, i) else bs
    case Trim(off, size) =>
      var i := LiveAt(bs, off);
      if i < |bs| && Legal(size, m) && Rounded(size) <= Cap(bs, i, m) then Trimmed(bs, i, Rounded(size), m) else bs
  }

  function Run(bs: seq<Block>, ops: seq<Op>, m: nat): seq<Block>
    decreases |ops|
  {
    if ops == [] then bs else Run(Step(bs, ops[0], m), ops[1..], m)
  }

  const INITIAL: seq<Block> := [Block(0, false)]

  predicate Sized(op: Op) {
    match op
    case Malloc(size) => size < U16
    case Free(_) => true
    case Trim(_, size) => size < U16
  }

  lemma StepKeeps(bs: seq<Block>, op: Op, m: nat)
    requires WellFormed(bs, m) && Sized(op)
    ensures WellFormed(Step(bs, op, m), m)
  {
    match op
    case Malloc(size) =>
      LegalExactly(size, m);
      var i := Fit(bs, 0, Rounded(size), m);
      if size > 0 && Legal(size, m) && i < |bs| {
        AllocatedKeeps(bs, i, Rounded(size), m);
      }
    case Free(off) =>
      var i := LiveAt(bs, off);
      if i < |bs| {
        FreedKeeps(bs, i, m);
      }
    case Trim(off, size) =>
      LegalExactly(size, m);
      var i := LiveAt(bs, off);
      if i < |bs| && Legal(size, m) && Rounded(size) <= Cap(bs, i, m) {
        TrimmedKeeps(bs, i, Rounded(size), m);
      }
  }

  /** Every run from mem_init keeps the heap tiled, aligned and coalesced, its spans add
      up to the arena, and it is back in the initial state exactly when nothing is live. */
  lemma {:induction false} RunKeeps(bs: seq<Block>, ops: seq<Op>, m: nat)
    requires WellFormed(bs, m) && forall op :: op in ops ==> Sized(op)
    ensures WellFormed(Run(bs, ops, m), m)
    decreases |ops|
  {
    if ops != [] {
      StepKeeps(bs, ops[0], m);
      RunKeeps(Step(bs, ops[0], m), ops[1..], m);
    }
  }

  lemma EveryRun(ops: seq<Op>, m: nat)
    requires ValidSize(m) && forall op :: op in ops ==> Sized(op)
    ensures WellFormed(Run(INITIAL, ops, m), m)
    ensures Span(Run(INITIAL, ops, m), 0, m, true) + Span(Run(INITIAL, ops, m), 0, m, false) == m
    ensures (forall b :: b in Run(INITIAL, ops, m) ==> !b.used) ==> Run(INITIAL, ops, m) == INITIAL
  {
    RunKeeps(INITIAL, ops, m);
    SpansFill(Run(INITIAL, ops, m), 0, m);
    AllFreeIsInitial(Run(INITIAL, ops, m), m);
  }

  // ----- live payloads -----

  /** [off, end) is the range of an allocated block. */
  ghost predicate Live(bs: seq<Block>, off: nat, end: nat, m: nat) {
    exists k :: 0 <= k < |bs| && bs[k] == Block(off, true) && Next(bs, k, m) == end
  }

  /** The ranges of two different allocated blocks do not overlap. */
  lemma LiveDisjoint(bs: seq<Block>, off: nat, end: nat, off': nat, end': nat, m: nat)
    requires Tiled(bs, m) && Live(bs, off, end, m) && Live(bs, off', end', m) && off != off'
    ensures end <= off' || end' <= off
  {
    var k :| 0 <= k < |bs| && bs[k] == Block(off, true) && Next(bs, k, m) == end;
    var l :| 0 <= l < |bs| && bs[l] == Block(off', true) && Next(bs, l, m) == end';
    if k < l {
      assert k + 1 < l ==> bs[k + 1].off + HDR + MIN <= bs[l].off;
    } else {
      assert l + 1 < k ==> bs[l + 1].off + HDR + MIN <= bs[k].off;
    }
  }

  lemma LiveInsert(bs: seq<Block>, i: nat, b: Block, off: nat, end: nat, m: nat)
    requires i < |bs| && bs[i].off != off && Live(bs, off, end, m)
    ensures Live(InsertAfter(bs, i, b), off, end, m)
  {
    var k :| 0 <= k < |bs| && bs[k] == Block(off, true) && Next(bs, k, m) == end;
    var r := InsertAfter(bs, i, b);
    var k' := if k < i then k else k + 1;
    assert forall j :: 0 <= j < |bs| ==> r[if j <= i then j else j + 1] == bs[j];
    assert r[k'] == Block(off, true) && Next(r, k', m) == end;
  }

  lemma LiveDrop(bs: seq<Block>, i: nat, off: nat, end: nat, m: nat)
    requires 0 < i < |bs| && !bs[i].used && !bs[i - 1].used && Live(bs, off, end, m)
    ensures Live(Drop(bs, i), off, end, m)
  {
    var k :| 0 <= k < |bs| && bs[k] == Block(off, true) && Next(bs, k, m) == end;
    var r := Drop(bs, i);
    var k' := if k < i then k else k - 1;
    assert forall j :: 0 <= j < |bs| && j != i ==> r[if j < i then j else j - 1] == bs[j];
    assert r[k'] == Block(off, true) && Next(r, k', m) == end;
  }

  lemma LiveUpdate(bs: seq<Block>, i: nat, b: Block, off: nat, end: nat, m: nat)
    requires i < |bs| && bs[i].off != off && Live(bs, off, end, m)
    requires bs[i].off == b.off || (i > 0 && bs[i - 1].off != off)
    ensures Live(bs[i := b], off, end, m)
  {
    var k :| 0 <= k < |bs| && bs[k] == Block(off, true) && Next(bs, k, m) == end;
    var r := bs[i := b];
    assert r[k] == Block(off, true) && Next(r, k, m) == end;
  }

  lemma LiveAllocated(bs: seq<Block>, i: nat, size: nat, off: nat, end: nat, m: nat)
    requires WellFormed(bs, m) && i < |bs| && !bs[i].used && Live(bs, off, end, m)
    ensures Live(Allocated(bs, i, size, m), off, end, m)
  {
    hide Tiled, NoTwoFree, Live;
    FreeIsNotLive(bs, i, off, end, m);
    LiveUpdate(bs, i, bs[i].(used := true), off, end, m);
    if Cap(bs, i, m) >= size + HDR + MIN {
      LiveInsert(SetUsed(bs, i, true), i, Block(bs[i].off + HDR + size, false), off, end, m);
    }
  }

  lemma LiveTrimmed(bs: seq<Block>, i: nat, size: nat, off: nat, end: nat, m: nat)
    requires WellFormed(bs, m) && i < |bs| && bs[i].off != off && Live(bs, off, end, m)
    ensures Live(Trimmed(bs, i, size, m), off, end, m)
  {
    hide Tiled, NoTwoFree, Live;
    var rest := Block(bs[i].off + HDR + size, false);
    if i + 1 < |bs| && !bs[i + 1].used {
      FreeIsNotLive(bs, i + 1, off, end, m);
      LiveUpdate(bs, i + 1, rest, off, end, m);
    } else {
      LiveInsert(bs, i, rest, off, end, m);
    }
  }

  /** A call that does not name a live block leaves its range alone. */
  lemma StepKeepsLive(bs: seq<Block>, op: Op, off: nat, end: nat, m: nat)
    requires WellFormed(bs, m) && Live(bs, off, end, m)
    requires op.Malloc? || op.off != off
    ensures Live(Step(bs, op, m), off, end, m)
  {
    hide Tiled, NoTwoFree, Live;
    match op
    case Malloc(size) =>
      var i := Fit(bs, 0, Rounded(size), m);
      if size > 0 && Legal(size, m) && i < |bs| {
        LiveAllocated(bs, i, Rounded(size), off, end, m);
      }
    case Free(o) =>
      var i := LiveAt(bs, o);
      if i < |bs| {
        LiveFreed(bs, i, off, end, m);
      }
    case Trim(o, size) =>
      var i := LiveAt(bs, o);
      if i < |bs| && Legal(size, m) && Rounded(size) <= Cap(bs, i, m) {
        LiveTrimmed(bs, i, Rounded(size), off, end, m);
      }
  }

  lemma FreeIsNotLive(bs: seq<Block>, i: nat, off: nat, end: nat, m: nat)
    requires Tiled(bs, m) && i < |bs| && !bs[i].used && Live(bs, off, end, m)
    ensures bs[i].off != off
  {
    var k :| 0 <= k < |bs| && bs[k] == Block(off, true) && Next(bs, k, m) == end;
    if k < i {
      assert bs[k].off < bs[i].off;
    } else if i < k {
      assert bs[i].off < bs[k].off;
    }
  }

  lemma LiveFreed(bs: seq<Block>, i: nat, off: nat, end: nat, m: nat)
    requires WellFormed(bs, m) && i < |bs| && bs[i].off != off && Live(bs, off, end, m)
    ensures Live(Freed(bs, i), off, end, m)
  {
    var s := SetUsed(bs, i, false);
    LiveUpdate(bs, i, s[i], off, end, m);
    var fwd := Forward(s, i);
    if i + 1 < |s| && !s[i + 1].used {
      LiveDrop(s, i + 1, off, end, m);
    }
    assert forall j :: 0 <= j <= i ==> fwd[j] == s[j];
    if i > 0 && !fwd[i - 1].used {
      LiveDrop(fwd, i, off, end, m);
    }
  }

  /** Over a whole run a live range stays where it is until a call names it. */
  lemma {:induction false} RunKeepsLive(bs: seq<Block>, ops: seq<Op>, off: nat, end: nat, m: nat)
    requires WellFormed(bs, m) && Live(bs, off, end, m)
    requires forall op :: op in ops ==> Sized(op) && (op.Malloc? || op.off != off)
    ensures Live(Run(bs, ops, m), off, end, m)
    decreases |ops|
  {
    if ops != [] {
      StepKeeps(bs, ops[0], m);
      StepKeepsLive(bs, ops[0], off, end, m);
      RunKeepsLive(Step(bs, ops[0], m), ops[1..], off, end, m);
    }
  }
}
