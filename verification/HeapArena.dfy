/**
 The lwIP heap as mem.c keeps it: block headers written in place in one arena, a cached
 pointer to the lowest free block, and scan loops over the `next` links. Every method is
 proved against the list operations of HeapBlocks.
 */
module HeapCells {
  import opened HeapBlocks

  /** A block header (struct mem) as it lies in the arena. */
  datatype Mem = Mem(next: nat, prev: nat, used: bool)

  /** The header of block `i` says where its neighbours are and whether it is allocated. */
  ghost predicate CellOk(r: seq<Mem>, bs: seq<Block>, i: nat, m: nat) {
    i < |bs| && bs[i].off < |r| && r[bs[i].off] == Mem(Next(bs, i, m), Prev(bs, i), bs[i].used)
  }

  /** The arena `r` holds exactly the linked list `bs` followed by the end marker. */
  ghost predicate Reflects(r: seq<Mem>, bs: seq<Block>, m: nat) {
    && |r| == m + 1
    && r[m] == Mem(m, m, true)
    && forall i: nat {:trigger CellOk(r, bs, i, m)} :: i < |bs| ==> CellOk(r, bs, i, m)
  }

  lemma CellAt(r: seq<Mem>, bs: seq<Block>, i: nat, m: nat)
    requires Reflects(r, bs, m) && i < |bs|
    ensures CellOk(r, bs, i, m) && |r| == m + 1
  {
  }

  lemma ArenaSize(r: seq<Mem>, bs: seq<Block>, m: nat)
    requires Reflects(r, bs, m)
    ensures |r| == m + 1
  {
  }

  /** No cell inside the payload of a live block other than block `x` has changed. */
  ghost predicate PayloadKept(r: seq<Mem>, r': seq<Mem>, bs: seq<Block>, x: int, m: nat) {
    && |r'| == |r|
    && forall k, o :: 0 <= k < |bs| && bs[k].used && k != x && bs[k].off < o < Next(bs, k, m) && o < |r| ==> r'[o] == r[o]
  }

  lemma KeptSame(r: seq<Mem>, bs: seq<Block>, x: int, m: nat)
    ensures PayloadKept(r, r, bs, x, m)
  {
  }

  lemma Ordered(bs: seq<Block>, i: nat, j: nat, m: nat)
    requires Tiled(bs, m) && i <= |bs| && j <= |bs|
    ensures OffAt(bs, i, m) < OffAt(bs, j, m) <==> i < j
    ensures OffAt(bs, i, m) == OffAt(bs, j, m) <==> i == j
  {
  }

  /** A block start is never inside the payload of a block. */
  lemma StartsOutside(bs: seq<Block>, i: nat, k: nat, m: nat)
    requires Tiled(bs, m) && i <= |bs| && k < |bs|
    ensures !(bs[k].off < OffAt(bs, i, m) < Next(bs, k, m))
  {
    Ordered(bs, i, k, m);
    Ordered(bs, i, k + 1, m);
  }

  function WithUsed(r: seq<Mem>, o: nat, used: bool): seq<Mem>
    requires o < |r|
  {
    r[o := r[o].(used := used)]
  }

  function WithNext(r: seq<Mem>, o: nat, next: nat): seq<Mem>
    requires o < |r|
  {
    r[o := r[o].(next := next)]
  }

  /** Set the back link of the block at `o`, unless `o` is the end marker. */
  function WithPrev(r: seq<Mem>, o: nat, prev: nat, m: nat): (r': seq<Mem>)
    requires o < |r|
    ensures |r'| == |r|
  {
    if o != m then r[o := r[o].(prev := prev)] else r
  }

  lemma UsedCell(r: seq<Mem>, bs: seq<Block>, i: nat, used: bool, m: nat)
    requires Tiled(bs, m) && Reflects(r, bs, m) && i < |bs|
    ensures Reflects(WithUsed(r, bs[i].off, used), SetUsed(bs, i, used), m)
    ensures PayloadKept(r, WithUsed(r, bs[i].off, used), bs, -1, m)
  {
    var r', bs' := WithUsed(r, bs[i].off, used), SetUsed(bs, i, used);
    forall j: nat | j < |bs'|
      ensures CellOk(r', bs', j, m)
    {
      assert CellOk(r, bs, j, m);
      Ordered(bs, i, j, m);
    }
    forall k, o | 0 <= k < |bs| && bs[k].off < o < Next(bs, k, m) && o < |r|
      ensures r'[o] == r[o]
    {
      StartsOutside(bs, i, k, m);
    }
  }

  /** When the assertion at mem.c:790 fails: the block is the last one and is split. */
  predicate TrimAssertFails(bs: seq<Block>, i: nat, size: nat, m: nat)
    requires i < |bs|
  {
    i + 1 == |bs| && size + HDR + MIN <= Cap(bs, i, m)
  }

  /** The assertion does fail: one block of a 120-byte heap is taken whole and then trimmed. */
  lemma TrimAssertWitness()
    ensures var bs := Run(INITIAL, [Malloc(100)], 120);
            bs == [Block(0, true)] && TrimAssertFails(bs, 0, Rounded(12), 120)
  {
    assert Fit(INITIAL, 0, 100, 120) == 0;
    assert Step(INITIAL, Malloc(100), 120) == [Block(0, true)];
    assert [Malloc(100)][1..] == [];
  }

  /** The header writes with which plug_holes joins block `j` to its left neighbour. */
  function Joined(r: seq<Mem>, left: nat, right: nat, m: nat): seq<Mem>
    requires left < |r| && right < |r| && r[right].next < |r|
  {
    WithPrev(WithNext(r, left, r[right].next), r[right].next, left, m)
  }

  lemma JoinCell(r: seq<Mem>, bs: seq<Block>, j: nat, i: nat, m: nat)
    requires Tiled(bs, m) && Reflects(r, bs, m) && 0 < j < |bs| && i < |bs| - 1
    requires bs[j].off < |r| && r[bs[j].off].next == Next(bs, j, m) < |r|
    ensures CellOk(Joined(r, bs[j - 1].off, bs[j].off, m), Drop(bs, j), i, m)
  {
    hide Tiled, Reflects;
    var bs' := Drop(bs, j);
    var i0 := if i < j then i else i + 1;
    CellAt(r, bs, i0, m);
    assert bs'[i] == bs[i0];
    assert i + 1 < |bs'| ==> bs'[i + 1] == bs[if i + 1 < j then i + 1 else i + 2];
    assert i > 0 ==> bs'[i - 1] == bs[if i - 1 < j then i - 1 else i];
    Ordered(bs, i0, |bs|, m);
    Ordered(bs, i0, j - 1, m);
    Ordered(bs, i0, j + 1, m);
    Ordered(bs, j - 1, j + 1, m);
  }

  lemma JoinCells(r: seq<Mem>, bs: seq<Block>, j: nat, m: nat)
    requires Tiled(bs, m) && Reflects(r, bs, m) && 0 < j < |bs|
    ensures bs[j].off < |r| && r[bs[j].off].next < |r|
    ensures Reflects(Joined(r, bs[j - 1].off, bs[j].off, m), Drop(bs, j), m)
    ensures PayloadKept(r, Joined(r, bs[j - 1].off, bs[j].off, m), bs, -1, m)
  {
    assert CellOk(r, bs, j, m) && CellOk(r, bs, j - 1, m);
    var r' := Joined(r, bs[j - 1].off, bs[j].off, m);
    forall i: nat | i < |Drop(bs, j)|
      ensures CellOk(r', Drop(bs, j), i, m)
    {
      JoinCell(r, bs, j, i, m);
    }
    forall k, o | 0 <= k < |bs| && bs[k].off < o < Next(bs, k, m) && o < |r|
      ensures r'[o] == r[o]
    {
      StartsOutside(bs, j - 1, k, m);
      StartsOutside(bs, j + 1, k, m);
    }
  }

  /** The header writes with which mem_malloc and mem_trim put a free block at `o` behind `left`. */
  function Split(r: seq<Mem>, left: nat, o: nat, m: nat): seq<Mem>
    requires left < |r| && o < |r| && r[left].next < |r|
  {
    WithPrev(WithNext(r[o := Mem(r[left].next, left, false)], left, o), r[left].next, o, m)
  }

  lemma SplitCell(r: seq<Mem>, bs: seq<Block>, i: nat, o: nat, j: nat, m: nat)
    requires Tiled(bs, m) && Reflects(r, bs, m) && i < |bs| && j <= |bs|
    requires bs[i].off < o < Next(bs, i, m) < |r| && r[bs[i].off].next == Next(bs, i, m)
    ensures CellOk(Split(r, bs[i].off, o, m), InsertAfter(bs, i, Block(o, false)), j, m)
  {
    hide Tiled, Reflects;
    var bs' := InsertAfter(bs, i, Block(o, false));
    CellAt(r, bs, i, m);
    if j != i + 1 {
      var j0 := if j <= i then j else j - 1;
      CellAt(r, bs, j0, m);
      assert bs'[j] == bs[j0];
      assert j + 1 < |bs'| && j != i ==> bs'[j + 1] == bs[j0 + 1];
      assert j > 0 && j != i + 2 ==> bs'[j - 1] == bs[j0 - 1];
      Ordered(bs, j0, |bs|, m);
      Ordered(bs, j0, i, m);
      Ordered(bs, j0, i + 1, m);
      StartsOutside(bs, j0, i, m);
    }
  }

  lemma SplitCells(r: seq<Mem>, bs: seq<Block>, i: nat, o: nat, m: nat)
    requires Tiled(bs, m) && Reflects(r, bs, m) && i < |bs|
    requires bs[i].off < o < Next(bs, i, m)
    ensures bs[i].off < |r| && r[bs[i].off].next < |r|
    ensures Reflects(Split(r, bs[i].off, o, m), InsertAfter(bs, i, Block(o, false)), m)
    ensures PayloadKept(r, Split(r, bs[i].off, o, m), bs, i, m)
    ensures forall c :: bs[i].off < c < o ==> Split(r, bs[i].off, o, m)[c] == r[c]
  {
    assert CellOk(r, bs, i, m);
    Ordered(bs, i + 1, |bs|, m);
    var r' := Split(r, bs[i].off, o, m);
    forall j: nat | j <= |bs|
      ensures CellOk(r', InsertAfter(bs, i, Block(o, false)), j, m)
    {
      SplitCell(r, bs, i, o, j, m);
    }
    forall k, c | 0 <= k < |bs| && k != i && bs[k].off < c < Next(bs, k, m) && c < |r|
      ensures r'[c] == r[c]
    {
      StartsOutside(bs, i, k, m);
      StartsOutside(bs, i + 1, k, m);
      Ordered(bs, k, i, m);
      Ordered(bs, k + 1, i, m);
      Ordered(bs, i + 1, k, m);
    }
  }

  /** The header writes with which mem_trim moves the free block at `right` down to `o`. */
  function Moved(r: seq<Mem>, left: nat, right: nat, o: nat, m: nat): seq<Mem>
    requires left < |r| && right < |r| && o < |r| && r[right].next < |r|
  {
    WithPrev(WithNext(r[o := Mem(r[right].next, left, false)], left, o), r[right].next, o, m)
  }

  lemma MoveCell(r: seq<Mem>, bs: seq<Block>, i: nat, o: nat, j: nat, m: nat)
    requires Tiled(bs, m) && Reflects(r, bs, m) && i + 1 < |bs| && j < |bs| && !bs[i + 1].used
    requires bs[i].off < o < bs[i + 1].off < |r| && r[bs[i + 1].off].next == Next(bs, i + 1, m) < |r|
    ensures CellOk(Moved(r, bs[i].off, bs[i + 1].off, o, m), bs[i + 1 := Block(o, false)], j, m)
  {
    hide Tiled, Reflects;
    CellAt(r, bs, i, m);
    CellAt(r, bs, j, m);
    Ordered(bs, i, i + 2, m);
    Ordered(bs, i + 1, i + 2, m);
    if j != i + 1 {
      Ordered(bs, j, |bs|, m);
      Ordered(bs, j, i, m);
      Ordered(bs, j, i + 2, m);
      StartsOutside(bs, j, i, m);
    }
  }

  lemma MoveCells(r: seq<Mem>, bs: seq<Block>, i: nat, o: nat, m: nat)
    requires Tiled(bs, m) && Reflects(r, bs, m) && i + 1 < |bs| && !bs[i + 1].used
    requires bs[i].off < o < bs[i + 1].off
    ensures bs[i + 1].off < |r| && r[bs[i + 1].off].next < |r|
    ensures Reflects(Moved(r, bs[i].off, bs[i + 1].off, o, m), bs[i + 1 := Block(o, false)], m)
    ensures PayloadKept(r, Moved(r, bs[i].off, bs[i + 1].off, o, m), bs, i, m)
    ensures forall c :: bs[i].off < c < o ==> Moved(r, bs[i].off, bs[i + 1].off, o, m)[c] == r[c]
  {
    hide Tiled;
    CellAt(r, bs, i + 1, m);
    Ordered(bs, i + 1, |bs|, m);
    Ordered(bs, i + 1, i + 2, m);
    Ordered(bs, i + 2, |bs|, m);
    var r', bs' := Moved(r, bs[i].off, bs[i + 1].off, o, m), bs[i + 1 := Block(o, false)];
    forall j: nat | j < |bs'|
      ensures CellOk(r', bs', j, m)
    {
      MoveCell(r, bs, i, o, j, m);
    }
    forall k, c | 0 <= k < |bs| && k != i && bs[k].used && bs[k].off < c < Next(bs, k, m) && c < |r|
      ensures r'[c] == r[c]
    {
      StartsOutside(bs, i, k, m);
      StartsOutside(bs, i + 2, k, m);
      Ordered(bs, k, i, m);
      Ordered(bs, k + 1, i, m);
      Ordered(bs, i + 1, k, m);
    }
  }

  /** What a call reads in the headers of block `i` and its right neighbour. */
  lemma HeaderReads(r: seq<Mem>, bs: seq<Block>, i: nat, m: nat)
    requires Tiled(bs, m) && Reflects(r, bs, m) && i < |bs|
    ensures bs[i].off % ALIGN == 0 && bs[i].off + HDR + MIN <= Next(bs, i, m)
    ensures |r| == m + 1 && bs[i].off < m && r[bs[i].off] == Mem(Next(bs, i, m), Prev(bs, i), bs[i].used)
    ensures Next(bs, i, m) <= m && (r[Next(bs, i, m)].used <==> i + 1 == |bs| || bs[i + 1].used)
    ensures Next(bs, i, m) == m <==> i + 1 == |bs|
    ensures i + 1 < |bs| ==> r[bs[i + 1].off].next == Next(bs, i + 1, m) && bs[i + 1].off < Next(bs, i + 1, m) <= m
  {
    assert CellOk(r, bs, i, m);
    assert i + 1 < |bs| ==> CellOk(r, bs, i + 1, m);
    Ordered(bs, i + 1, |bs|, m);
    if i + 1 < |bs| {
      Ordered(bs, i + 1, i + 2, m);
      Ordered(bs, i + 2, |bs|, m);
    }
  }

  /** mem_link_valid. */
  predicate LinkValid(r: seq<Mem>, o: nat, m: nat)
    requires |r| == m + 1 && o <= m
  {
    && r[o].next <= m && r[o].prev <= m
    && (r[o].prev == o || r[r[o].prev].next == o)
    && (r[o].next == m || r[r[o].next].prev == o)
  }

  /** Every block of the list passes mem_link_valid, so no legal free is refused. */
  lemma BlocksLinkValid(r: seq<Mem>, bs: seq<Block>, i: nat, m: nat)
    requires Tiled(bs, m) && Reflects(r, bs, m) && i < |bs|
    ensures LinkValid(r, bs[i].off, m)
  {
    assert CellOk(r, bs, i, m);
    if i > 0 {
      assert CellOk(r, bs, i - 1, m);
    }
    if i + 1 < |bs| {
      assert CellOk(r, bs, i + 1, m);
    }
  }

  // ----- the cached pointer to the lowest free block -----

  /** A scan that starts at lfree starts at a block (or the end) with no free block below. */
  lemma ScanStart(bs: seq<Block>, l: nat, m: nat) returns (k: nat)
    requires Tiled(bs, m) && Low(bs, l, m)
    ensures k <= |bs| && OffAt(bs, k, m) == l <= m
    ensures forall j :: 0 <= j < k ==> bs[j].used
  {
    k :| k <= |bs| && OffAt(bs, k, m) == l;
    Ordered(bs, k, |bs|, m);
    assert forall j :: 0 <= j < k ==> bs[j].off < l;
  }

  ghost predicate IsOff(bs: seq<Block>, o: nat, m: nat) {
    exists k: nat :: k <= |bs| && OffAt(bs, k, m) == o
  }

  /** No free block starts below `l`: what lfree satisfies at every moment. */
  ghost predicate Low(bs: seq<Block>, l: nat, m: nat) {
    IsOff(bs, l, m) && forall k :: 0 <= k < |bs| && !bs[k].used ==> l <= bs[k].off
  }

  /** `l` is the lowest free block, or the end marker: what lfree satisfies between calls. */
  ghost predicate Lowest(bs: seq<Block>, l: nat, m: nat) {
    Low(bs, l, m) && (l == m || exists k :: 0 <= k < |bs| && bs[k] == Block(l, false))
  }

  lemma {:induction false} LowestIsFirstFree(bs: seq<Block>, l: nat, m: nat)
    requires Tiled(bs, m) && Lowest(bs, l, m)
    ensures l == FirstFree(bs, m)
  {
    FirstFreeAt(bs, 0, m);
    assert bs[0..] == bs;
  }

  lemma {:induction false} FirstFreeAt(bs: seq<Block>, k: nat, m: nat)
    requires Tiled(bs, m) && k <= |bs|
    ensures forall j :: k <= j < |bs| && !bs[j].used ==> FirstFree(bs[k..], m) <= bs[j].off
    ensures FirstFree(bs[k..], m) == m || exists j :: k <= j < |bs| && bs[j] == Block(FirstFree(bs[k..], m), false)
    decreases |bs| - k
  {
    if k < |bs| {
      assert bs[k..][0] == bs[k] && bs[k..][1..] == bs[k + 1..];
      FirstFreeAt(bs, k + 1, m);
    }
  }
}

/** How the cached pointer to the lowest free block follows the list operations. */
module HeapLowest {
  import opened HeapBlocks
  import opened HeapCells

  /** plug_holes moves lfree off a header it absorbs. */
  function PluggedLfree(bs: seq<Block>, i: nat, l: nat): nat
    requires i < |bs|
  {
    var l1 := if i + 1 < |bs| && !bs[i + 1].used && l == bs[i + 1].off then bs[i].off else l;
    if i > 0 && !bs[i - 1].used && l1 == bs[i].off then bs[i - 1].off else l1
  }

  function TrimmedLfree(bs: seq<Block>, i: nat, size: nat, l: nat, m: nat): nat
    requires i < |bs|
  {
    var o := bs[i].off + HDR + size;
    if i + 1 < |bs| && !bs[i + 1].used then (if l == bs[i + 1].off then o else l)
    else if o < l then o else l
  }

  lemma DropLow(bs: seq<Block>, i: nat, l: nat, m: nat)
    requires Tiled(bs, m) && 0 < i < |bs| && !bs[i].used && !bs[i - 1].used && Low(bs, l, m)
    ensures Low(Drop(bs, i), l, m)
    ensures Lowest(bs, l, m) ==> Lowest(Drop(bs, i), l, m)
  {
    var r := Drop(bs, i);
    assert l <= bs[i - 1].off < bs[i].off;
    assert forall j :: 0 <= j < |r| ==> r[j] == bs[if j < i then j else j + 1];
    var k: nat :| k <= |bs| && OffAt(bs, k, m) == l;
    Ordered(bs, i - 1, k, m);
    assert OffAt(r, k, m) == l;
    if Lowest(bs, l, m) && l != m {
      var f :| 0 <= f < |bs| && bs[f] == Block(l, false);
      Ordered(bs, i - 1, f, m);
      assert r[f] == bs[f];
    }
  }

  lemma PluggedLow(bs: seq<Block>, i: nat, l: nat, m: nat)
    requires Tiled(bs, m) && i < |bs| && !bs[i].used && NoTwoFreeAround(bs, i) && Low(bs, l, m)
    ensures PluggedLfree(bs, i, l) == l && Low(Plugged(bs, i), l, m)
    ensures Lowest(bs, l, m) ==> Lowest(Plugged(bs, i), l, m)
  {
    var fwd := Forward(bs, i);
    ForwardKeeps(bs, i, m);
    if i + 1 < |bs| && !bs[i + 1].used {
      assert bs[i].off < bs[i + 1].off;
      DropLow(bs, i + 1, l, m);
    }
    if i > 0 && !fwd[i - 1].used {
      assert bs[i - 1].off < bs[i].off;
      DropLow(fwd, i, l, m);
    }
  }

  /** mem_free lowers lfree to the freed block before joining it to its neighbours. */
  lemma ClearedLow(bs: seq<Block>, i: nat, l: nat, m: nat)
    requires Tiled(bs, m) && i < |bs| && bs[i].used && Low(bs, l, m)
    ensures var l' := if bs[i].off < l then bs[i].off else l;
            && Low(SetUsed(bs, i, false), l', m)
            && (Lowest(bs, l, m) || bs[i].off < l ==> Lowest(SetUsed(bs, i, false), l', m))
  {
    var l' := if bs[i].off < l then bs[i].off else l;
    var r := SetUsed(bs, i, false);
    if l' == bs[i].off {
      assert OffAt(r, i, m) == l' && r[i] == Block(l', false);
    } else {
      var k: nat :| k <= |bs| && OffAt(bs, k, m) == l;
      assert OffAt(r, k, m) == l';
      if Lowest(bs, l, m) && l != m {
        var f :| 0 <= f < |bs| && bs[f] == Block(l, false);
        assert r[f] == bs[f];
      }
    }
  }

  lemma InsertLow(bs: seq<Block>, i: nat, b: Block, l: nat, m: nat)
    requires Tiled(bs, m) && i < |bs| && !b.used && bs[i].off < b.off < Next(bs, i, m) && Low(bs, l, m)
    ensures var l' := if b.off < l then b.off else l;
            && Low(InsertAfter(bs, i, b), l', m)
            && (Lowest(bs, l, m) || b.off < l ==> Lowest(InsertAfter(bs, i, b), l', m))
  {
    hide InsertAfter;
    var r, l' := InsertAfter(bs, i, b), if b.off < l then b.off else l;
    InsertedAt(bs, i, b);
    var k: nat :| k <= |bs| && OffAt(bs, k, m) == l;
    if b.off < l {
      assert OffAt(r, i + 1, m) == l' && r[i + 1] == Block(l', false);
    } else {
      Ordered(bs, k, i + 1, m);
      assert OffAt(r, k, m) == l';
      if Lowest(bs, l, m) {
        Ordered(bs, i + 1, |bs|, m);
        var f :| 0 <= f < |bs| && bs[f] == Block(l, false);
        Ordered(bs, f, i + 1, m);
        assert r[f] == bs[f];
      }
    }
  }

  lemma TakenLow(bs: seq<Block>, i: nat, l: nat, m: nat)
    requires i < |bs| && !bs[i].used && Low(bs, l, m)
    ensures Low(SetUsed(bs, i, true), l, m)
    ensures Lowest(bs, l, m) && bs[i].off != l ==> Lowest(SetUsed(bs, i, true), l, m)
  {
    var r := SetUsed(bs, i, true);
    var k: nat :| k <= |bs| && OffAt(bs, k, m) == l;
    assert OffAt(r, k, m) == l;
    if Lowest(bs, l, m) && bs[i].off != l && l != m {
      var f :| 0 <= f < |bs| && bs[f] == Block(l, false);
      assert r[f] == bs[f];
    }
  }

  /** mem_malloc leaves lfree low, and lowest unless it took the block lfree points to. */
  lemma AllocatedLow(bs: seq<Block>, i: nat, size: nat, l: nat, m: nat)
    requires Tiled(bs, m) && i < |bs| && !bs[i].used && Low(bs, l, m)
    ensures Low(Allocated(bs, i, size, m), l, m)
    ensures Lowest(bs, l, m) && bs[i].off != l ==> Lowest(Allocated(bs, i, size, m), l, m)
  {
    TakenLow(bs, i, l, m);
    SetUsedTiled(bs, i, true, m);
    if Cap(bs, i, m) >= size + HDR + MIN {
      InsertLow(SetUsed(bs, i, true), i, Block(bs[i].off + HDR + size, false), l, m);
    }
  }

  lemma MoveLow(bs: seq<Block>, i: nat, b: Block, l: nat, m: nat)
    requires Tiled(bs, m) && 0 < i < |bs| && !bs[i].used && !b.used && Low(bs, l, m)
    requires bs[i - 1].off < b.off < bs[i].off && bs[i - 1].used
    ensures var l' := if l == bs[i].off then b.off else l;
            && Low(bs[i := b], l', m)
            && (Lowest(bs, l, m) ==> Lowest(bs[i := b], l', m))
  {
    var r, l' := bs[i := b], if l == bs[i].off then b.off else l;
    var k: nat :| k <= |bs| && OffAt(bs, k, m) == l;
    Ordered(bs, k, i, m);
    Ordered(bs, k, i - 1, m);
    assert OffAt(r, k, m) == l';
    if Lowest(bs, l, m) {
      Ordered(bs, i, |bs|, m);
      var f :| 0 <= f < |bs| && bs[f] == Block(l, false);
      Ordered(bs, f, i, m);
      assert r[f] == Block(l', false);
    }
  }

  lemma TrimmedLow(bs: seq<Block>, i: nat, size: nat, l: nat, m: nat)
    requires Tiled(bs, m) && i < |bs| && bs[i].used && Low(bs, l, m)
    requires MIN <= size < Cap(bs, i, m)
    requires (i + 1 < |bs| && !bs[i + 1].used) || size + HDR + MIN <= Cap(bs, i, m)
    ensures Low(Trimmed(bs, i, size, m), TrimmedLfree(bs, i, size, l, m), m)
    ensures Lowest(bs, l, m) || TrimmedLfree(bs, i, size, l, m) != l
            ==> Lowest(Trimmed(bs, i, size, m), TrimmedLfree(bs, i, size, l, m), m)
  {
    var rest := Block(bs[i].off + HDR + size, false);
    if i + 1 < |bs| && !bs[i + 1].used {
      if l == bs[i + 1].off {
        assert bs[i + 1] == Block(l, false);
      }
      MoveLow(bs, i + 1, rest, l, m);
    } else {
      InsertLow(bs, i, rest, l, m);
    }
  }
}

/** The proof steps of the two freeing calls, on values. */
module HeapSteps {
  import opened HeapBlocks
  import opened HeapCells
  import opened HeapLowest

  lemma KeptThenCleared(r0: seq<Mem>, r1: seq<Mem>, r2: seq<Mem>, bs: seq<Block>, i: nat, m: nat)
    requires i < |bs| && PayloadKept(r0, r1, bs, -1, m) && PayloadKept(r1, r2, SetUsed(bs, i, false), -1, m)
    ensures PayloadKept(r0, r2, bs, i, m)
  {
    var s := SetUsed(bs, i, false);
    forall k, o | 0 <= k < |bs| && bs[k].used && k != i && bs[k].off < o < Next(bs, k, m) && o < |r0|
      ensures r2[o] == r0[o]
    {
      assert s[k] == bs[k] && Next(s, k, m) == Next(bs, k, m);
    }
  }

  lemma KeptThenForward(r0: seq<Mem>, r1: seq<Mem>, r2: seq<Mem>, bs: seq<Block>, i: nat, m: nat)
    requires i < |bs| && !bs[i].used
    requires PayloadKept(r0, r1, bs, -1, m) && PayloadKept(r1, r2, Forward(bs, i), -1, m)
    ensures PayloadKept(r0, r2, bs, -1, m)
  {
    var f := Forward(bs, i);
    forall k, o | 0 <= k < |bs| && bs[k].used && bs[k].off < o < Next(bs, k, m) && o < |r0|
      ensures r2[o] == r0[o]
    {
      var k' := if k < i then k else k - (|bs| - |f|);
      assert f[k'] == bs[k] && Next(f, k', m) == Next(bs, k, m);
    }
  }

  /** What mem_free has established when it calls plug_holes. */
  lemma FreeStep(r: seq<Mem>, bs: seq<Block>, i: nat, l: nat, m: nat)
    requires Tiled(bs, m) && NoTwoFree(bs) && Reflects(r, bs, m) && Low(bs, l, m) && i < |bs| && bs[i].used
    ensures bs[i].off < |r| && r[bs[i].off].next == Next(bs, i, m)
    ensures var s := SetUsed(bs, i, false);
            var l' := if bs[i].off < l then bs[i].off else l;
            && Tiled(s, m) && NoTwoFreeAround(s, i)
            && Reflects(WithUsed(r, bs[i].off, false), s, m)
            && PayloadKept(r, WithUsed(r, bs[i].off, false), bs, -1, m)
            && Low(s, l', m) && (Lowest(bs, l, m) || l' != l ==> Lowest(s, l', m))
    ensures Span(Freed(bs, i), 0, m, true) == Span(bs, 0, m, true) - (Next(bs, i, m) - bs[i].off)
  {
    assert CellOk(r, bs, i, m);
    UsedCell(r, bs, i, false, m);
    SetUsedTiled(bs, i, false, m);
    ClearedLow(bs, i, l, m);
    FreedSpan(bs, i, m);
  }
}

/** The proof step of mem_trim, on values. */
module HeapShrink {
  import opened HeapBlocks
  import opened HeapCells
  import opened HeapLowest

  /** What moving the free right neighbour down does to the list. */
  lemma MoveStep(bs: seq<Block>, i: nat, o: nat, l: nat, m: nat)
    requires WellFormed(bs, m) && Low(bs, l, m) && i + 1 < |bs| && bs[i].used && !bs[i + 1].used
    requires o % ALIGN == 0 && bs[i].off + HDR + MIN <= o < bs[i + 1].off
    ensures var bs' := bs[i + 1 := Block(o, false)];
            var l' := if l == bs[i + 1].off then o else l;
            && bs' == Trimmed(bs, i, o - bs[i].off - HDR, m)
            && WellFormed(bs', m) && Low(bs', l', m)
            && (Lowest(bs, l, m) || l' != l ==> Lowest(bs', l', m))
            && Span(bs', 0, m, true) == Span(bs, 0, m, true) - (bs[i + 1].off - o)
  {
    hide Tiled, NoTwoFree, Low, Lowest, Span;
    var size := o - bs[i].off - HDR;
    TiledAt(bs, i, m);
    TiledAt(bs, i + 1, m);
    TrimmedKeeps(bs, i, size, m);
    TrimmedSpan(bs, i, size, m);
    TrimmedLow(bs, i, size, l, m);
    assert Trimmed(bs, i, size, m)[i + 1].off != bs[i + 1].off;
  }

  /** What splitting a free block off the end of a live one does to the list. */
  lemma SplitStep(bs: seq<Block>, i: nat, o: nat, l: nat, m: nat)
    requires WellFormed(bs, m) && Low(bs, l, m) && i < |bs| && bs[i].used
    requires i + 1 < |bs| ==> bs[i + 1].used
    requires o % ALIGN == 0 && bs[i].off + HDR + MIN <= o && o + HDR + MIN <= Next(bs, i, m)
    ensures var bs' := InsertAfter(bs, i, Block(o, false));
            var l' := if o < l then o else l;
            && bs' == Trimmed(bs, i, o - bs[i].off - HDR, m)
            && WellFormed(bs', m) && Low(bs', l', m)
            && (Lowest(bs, l, m) || l' != l ==> Lowest(bs', l', m))
            && Span(bs', 0, m, true) == Span(bs, 0, m, true) - (Next(bs, i, m) - o)
  {
    hide Tiled, NoTwoFree, Low, Lowest, Span;
    var size := o - bs[i].off - HDR;
    TiledAt(bs, i, m);
    assert Trimmed(bs, i, size, m) == InsertAfter(bs, i, Block(o, false));
    TrimmedKeeps(bs, i, size, m);
    InsertLow(bs, i, Block(o, false), l, m);
    InsertSpan(bs, i, Block(o, false), m);
  }
}

/** The proof step of mem_malloc, on values. */
module HeapTake {
  import opened HeapBlocks
  import opened HeapCells
  import opened HeapLowest

  /** What mem_malloc's header writes into free block `i` achieve. */
  lemma TakeCells(r: seq<Mem>, bs: seq<Block>, i: nat, size: nat, m: nat)
    requires Tiled(bs, m) && Reflects(r, bs, m) && i < |bs| && !bs[i].used
    requires MIN <= size <= Cap(bs, i, m)
    ensures |r| == m + 1 && bs[i].off < m && r[bs[i].off].next == Next(bs, i, m) <= m
    ensures var o, r1 := bs[i].off + HDR + size, WithUsed(r, bs[i].off, true);
            var r' := if Cap(bs, i, m) >= size + HDR + MIN then Split(r1, bs[i].off, o, m) else r1;
            Reflects(r', Allocated(bs, i, size, m), m) && PayloadKept(r, r', bs, -1, m)
  {
    hide Tiled, Reflects, PayloadKept, Split;
    HeaderReads(r, bs, i, m);
    var s, r1 := SetUsed(bs, i, true), WithUsed(r, bs[i].off, true);
    UsedCell(r, bs, i, true, m);
    SetUsedTiled(bs, i, true, m);
    if Cap(bs, i, m) >= size + HDR + MIN {
      var o := bs[i].off + HDR + size;
      SplitCells(r1, s, i, o, m);
      KeptThenTaken(r, r1, Split(r1, bs[i].off, o, m), bs, i, m);
    }
  }

  /** What they achieve on the list, for the statistics and for lfree. */
  lemma TakeStep(bs: seq<Block>, i: nat, size: nat, l: nat, m: nat)
    requires WellFormed(bs, m) && Lowest(bs, l, m) && i < |bs| && !bs[i].used
    requires size % ALIGN == 0 && MIN <= size <= Cap(bs, i, m)
    ensures WellFormed(Allocated(bs, i, size, m), m) && Low(Allocated(bs, i, size, m), l, m)
    ensures bs[i].off != l ==> Lowest(Allocated(bs, i, size, m), l, m)
    ensures Span(Allocated(bs, i, size, m), 0, m, true) == Span(bs, 0, m, true)
              + if Cap(bs, i, m) >= size + HDR + MIN then size + HDR else Next(bs, i, m) - bs[i].off
  {
    AllocatedKeeps(bs, i, size, m);
    AllocatedSpan(bs, i, size, m);
    AllocatedLow(bs, i, size, l, m);
  }

  lemma TakenIsOwned(bs: seq<Block>, i: nat, size: nat, m: nat)
    requires i < |bs|
    ensures LiveAt(Allocated(bs, i, size, m), bs[i].off) < |Allocated(bs, i, size, m)|
  {
    assert Allocated(bs, i, size, m)[i] == Block(bs[i].off, true);
  }

  lemma KeptThenTaken(r0: seq<Mem>, r1: seq<Mem>, r2: seq<Mem>, bs: seq<Block>, i: nat, m: nat)
    requires i < |bs| && !bs[i].used
    requires PayloadKept(r0, r1, bs, -1, m) && PayloadKept(r1, r2, SetUsed(bs, i, true), i, m)
    ensures PayloadKept(r0, r2, bs, -1, m)
  {
    var s := SetUsed(bs, i, true);
    forall k, o | 0 <= k < |bs| && bs[k].used && bs[k].off < o < Next(bs, k, m) && o < |r0|
      ensures r2[o] == r0[o]
    {
      assert s[k] == bs[k] && Next(s, k, m) == Next(bs, k, m);
    }
  }
}

/** Calls of other contexts in the windows in which mem_malloc gives up its protection. */
module HeapWindows {
  import opened HeapBlocks

  /** A call in a window: no other mem_malloc (the mutex excludes it), and nothing touches
      the block at `hold`, which no client has been given yet. */
  function WindowStep(bs: seq<Block>, op: Op, hold: int, m: nat): seq<Block> {
    if op.Malloc? || op.off == hold || !Sized(op) then bs else Step(bs, op, m)
  }

  function Window(bs: seq<Block>, ops: seq<Op>, hold: int, m: nat): seq<Block>
    decreases |ops|
  {
    if ops == [] then bs else WindowStep(Window(bs, ops[..|ops| - 1], hold, m), ops[|ops| - 1], hold, m)
  }

  /** The calls of window `w`; a finite schedule is followed by silent windows. */
  function At(s: seq<seq<Op>>, w: nat): seq<Op> {
    if w < |s| then s[w] else []
  }

  /** The windows from `a` up to `b`. */
  function Windows(bs: seq<Block>, s: seq<seq<Op>>, a: nat, b: nat, hold: int, m: nat): seq<Block>
    decreases b
  {
    if b <= a then bs else Window(Windows(bs, s, a, b - 1, hold, m), At(s, b - 1), hold, m)
  }

  lemma WindowStepKeeps(bs: seq<Block>, op: Op, hold: int, m: nat)
    requires WellFormed(bs, m)
    ensures WellFormed(WindowStep(bs, op, hold, m), m)
    ensures forall end: nat :: hold >= 0 && Live(bs, hold, end, m) ==> Live(WindowStep(bs, op, hold, m), hold, end, m)
  {
    if !(op.Malloc? || op.off == hold || !Sized(op)) {
      StepKeeps(bs, op, m);
      forall end: nat | hold >= 0 && Live(bs, hold, end, m)
        ensures Live(Step(bs, op, m), hold, end, m)
      {
        StepKeepsLive(bs, op, hold, end, m);
      }
    }
  }

  lemma {:induction false} WindowKeeps(bs: seq<Block>, ops: seq<Op>, hold: int, m: nat)
    requires WellFormed(bs, m)
    ensures WellFormed(Window(bs, ops, hold, m), m)
    ensures forall end: nat :: hold >= 0 && Live(bs, hold, end, m) ==> Live(Window(bs, ops, hold, m), hold, end, m)
    decreases |ops|
  {
    if ops != [] {
      WindowKeeps(bs, ops[..|ops| - 1], hold, m);
      WindowStepKeeps(Window(bs, ops[..|ops| - 1], hold, m), ops[|ops| - 1], hold, m);
    }
  }

  /** Whatever other contexts free or trim in any number of windows, the heap stays well
      formed and the block under allocation keeps its range. */
  lemma {:induction false} WindowsKeep(bs: seq<Block>, s: seq<seq<Op>>, a: nat, b: nat, hold: int, m: nat)
    requires WellFormed(bs, m)
    ensures WellFormed(Windows(bs, s, a, b, hold, m), m)
    ensures forall end: nat :: hold >= 0 && Live(bs, hold, end, m) ==> Live(Windows(bs, s, a, b, hold, m), hold, end, m)
    decreases b
  {
    if b > a {
      WindowsKeep(bs, s, a, b - 1, hold, m);
      WindowKeeps(Windows(bs, s, a, b - 1, hold, m), At(s, b - 1), hold, m);
    }
  }

  lemma NoWindow(bs: seq<Block>, s: seq<seq<Op>>, a: nat, hold: int, m: nat)
    ensures Windows(bs, s, a, a, hold, m) == bs
  {
  }

  lemma OneWindow(bs: seq<Block>, s: seq<seq<Op>>, a: nat, b: nat, hold: int, m: nat)
    requires a <= b
    ensures Windows(bs, s, a, b + 1, hold, m) == Window(Windows(bs, s, a, b, hold, m), At(s, b), hold, m)
  {
  }

  lemma AtEnd(s: seq<seq<Op>>, w: nat)
    ensures At(s, w) != [] ==> w < |s|
    ensures s == [] ==> At(s, w) == []
  {
  }

  lemma {:induction false} WindowsJoin(bs: seq<Block>, s: seq<seq<Op>>, a: nat, b: nat, c: nat, hold: int, m: nat)
    requires a <= b <= c
    ensures Windows(Windows(bs, s, a, b, hold, m), s, b, c, hold, m) == Windows(bs, s, a, c, hold, m)
    decreases c
  {
    if b < c {
      WindowsJoin(bs, s, a, b, c - 1, hold, m);
    }
  }

  /** Windows behind the end of the schedule change nothing. */
  lemma {:induction false} Silent(bs: seq<Block>, a: nat, b: nat, hold: int, m: nat)
    ensures Windows(bs, [], a, b, hold, m) == bs
    decreases b
  {
    if b > a {
      Silent(bs, a, b - 1, hold, m);
    }
  }

  /** The block mem_malloc returns: aligned, big enough, and owned by nobody but the caller,
      whatever ran between its allocation and the return. */
  lemma Returned(bs: seq<Block>, i: nat, size: nat, s: seq<seq<Op>>, a: nat, b: nat, m: nat)
    requires WellFormed(bs, m) && i < |bs| && !bs[i].used
    requires size % ALIGN == 0 && MIN <= size <= Cap(bs, i, m)
    ensures var r := Windows(Allocated(bs, i, size, m), s, a, b, bs[i].off, m);
            var k := LiveAt(r, bs[i].off);
            WellFormed(r, m) && k < |r| && Cap(r, k, m) >= size && (bs[i].off + HDR) % ALIGN == 0
  {
    hide Tiled, NoTwoFree;
    TiledAt(bs, i, m);
    var l := Allocated(bs, i, size, m);
    var off, end := bs[i].off, Next(l, i, m);
    AllocatedKeeps(bs, i, size, m);
    assert l[i] == Block(off, true) && Live(l, off, end, m);
    WindowsKeep(l, s, a, b, off, m);
    var r := Windows(l, s, a, b, off, m);
    assert Live(r, off, end, m);
    OwnedIsLive(r, off, m);
    LiveUnique(r, off, end, Next(r, LiveAt(r, off), m), m);
  }

  lemma LiveUnique(bs: seq<Block>, off: nat, end: nat, end': nat, m: nat)
    requires Tiled(bs, m) && Live(bs, off, end, m) && Live(bs, off, end', m)
    ensures end == end'
  {
    var k :| 0 <= k < |bs| && bs[k] == Block(off, true) && Next(bs, k, m) == end;
    var l :| 0 <= l < |bs| && bs[l] == Block(off, true) && Next(bs, l, m) == end';
    assert !(k < l) && !(l < k);
  }

  lemma OwnedIsLive(bs: seq<Block>, off: nat, m: nat)
    ensures LiveAt(bs, off) < |bs| <==> exists end: nat :: Live(bs, off, end, m)
    ensures LiveAt(bs, off) < |bs| ==> Live(bs, off, Next(bs, LiveAt(bs, off), m), m)
  {
    var i := LiveAt(bs, off);
    if i < |bs| {
      assert bs[i] == Block(off, true);
      assert Live(bs, off, Next(bs, i, m), m);
    }
  }

  /** The number of allocated blocks in front of the lowest free one. */
  function Lead(bs: seq<Block>): (k: nat)
    ensures k <= |bs| && (k < |bs| ==> !bs[k].used) && forall j :: 0 <= j < k ==> bs[j].used
  {
    if bs == [] || !bs[0].used then 0 else 1 + Lead(bs[1..])
  }

  /** `n` blocks are looked at, from the lowest free one on: up to block `i`, which is found, or to
      the last one in front of the scan bound. */
  predicate Looked(bs: seq<Block>, i: nat, size: nat, n: int, m: nat) {
    if i < |bs| then n == i - Lead(bs) + 1
    else
      && 0 <= n <= |bs| - Lead(bs) && OffAt(bs, Lead(bs) + n, m) >= m - size
      && (n > 0 ==> bs[Lead(bs) + n - 1].off < m - size)
  }

  lemma LooksFound(bs: seq<Block>, k: nat, size: nat, m: nat)
    requires k < |bs|
    ensures Looked(bs, k, size, k - Lead(bs) + 1, m)
  {
  }

  lemma LooksPast(bs: seq<Block>, k: nat, size: nat, m: nat)
    requires Lead(bs) <= k <= |bs| && OffAt(bs, k, m) >= m - size && (Lead(bs) < k ==> bs[k - 1].off < m - size)
    ensures Looked(bs, |bs|, size, k - Lead(bs), m)
  {
  }

  lemma StartsAtLead(bs: seq<Block>, k: nat, m: nat)
    requires Tiled(bs, m) && k <= |bs| && forall j :: 0 <= j < k ==> bs[j].used
    requires OffAt(bs, k, m) == m || exists j :: 0 <= j < |bs| && bs[j] == Block(OffAt(bs, k, m), false)
    ensures k == Lead(bs)
  {
    if OffAt(bs, k, m) == m {
      assert k == |bs|;
    } else {
      var j :| 0 <= j < |bs| && bs[j] == Block(OffAt(bs, k, m), false);
      assert !(k < j) && !(j < k);
    }
  }

  /** The scan bound of mem_malloc: no block that starts at or behind m - size is big enough. */
  lemma PastBound(bs: seq<Block>, k: nat, size: nat, m: nat)
    requires Tiled(bs, m) && k <= |bs| && size <= m && OffAt(bs, k, m) >= m - size
    ensures forall j :: k <= j < |bs| ==> Cap(bs, j, m) < size
  {
    forall j | k <= j < |bs|
      ensures Cap(bs, j, m) < size
    {
      assert bs[j].off >= OffAt(bs, k, m);
      assert Next(bs, j, m) <= m;
    }
  }

  /** Scanning on from `k` gives the lowest fit when nothing before `k` fits. */
  lemma {:induction false} FitFrom(bs: seq<Block>, lo: nat, k: nat, size: nat, m: nat)
    requires lo <= k <= |bs| && forall j :: lo <= j < k ==> bs[j].used || Cap(bs, j, m) < size
    ensures Fit(bs, lo, size, m) == Fit(bs, k, size, m)
    decreases k - lo
  {
    if lo < k {
      FitFrom(bs, lo + 1, k, size, m);
    }
  }
}

/** Blocks that no other context names keep their place and their payload. */
module HeapSpared {
  import opened HeapBlocks
  import opened HeapCells
  import W = HeapWindows

  /** The blocks that the calls free or trim. */
  function Names(ops: seq<Op>): set<int> {
    set op | op in ops && !op.Malloc? :: op.off
  }

  function NamesIn(s: seq<seq<Op>>): set<int> {
    set ops, op | ops in s && op in ops && !op.Malloc? :: op.off
  }

  lemma AtNames(s: seq<seq<Op>>, w: nat)
    ensures Names(W.At(s, w)) <= NamesIn(s)
  {
  }

  ghost predicate Kept(r: seq<Mem>, r': seq<Mem>, off: nat, end: nat)
    requires |r'| == |r|
  {
    forall o :: off < o < end && o < |r| ==> r'[o] == r[o]
  }

  /** Every live block that is not named keeps its range and every cell of its payload. */
  ghost predicate Spared(r: seq<Mem>, r': seq<Mem>, b: seq<Block>, b': seq<Block>, names: set<int>, m: nat) {
    |r'| == |r| && forall off: nat, end: nat {:trigger Live(b, off, end, m)} ::
      Live(b, off, end, m) && off !in names ==> Live(b', off, end, m) && Kept(r, r', off, end)
  }

  lemma SparedSame(r: seq<Mem>, b: seq<Block>, names: set<int>, m: nat)
    ensures Spared(r, r, b, b, names, m)
  {
  }

  lemma SparedTrans(r0: seq<Mem>, r1: seq<Mem>, r2: seq<Mem>, b0: seq<Block>, b1: seq<Block>, b2: seq<Block>,
                    n1: set<int>, n2: set<int>, names: set<int>, m: nat)
    requires Spared(r0, r1, b0, b1, n1, m) && Spared(r1, r2, b1, b2, n2, m) && n1 <= names && n2 <= names
    ensures Spared(r0, r2, b0, b2, names, m)
  {
    hide Live;
    forall off: nat, end: nat | Live(b0, off, end, m) && off !in names
      ensures Live(b2, off, end, m) && Kept(r0, r2, off, end)
    {
      assert Live(b1, off, end, m);
    }
  }

  /** An operation that changes payload only in the block it names. */
  lemma SparedStep(r: seq<Mem>, r': seq<Mem>, b: seq<Block>, op: Op, m: nat)
    requires WellFormed(b, m)
    requires PayloadKept(r, r', b, if op.Malloc? then -1 else LiveAt(b, op.off), m)
    ensures Spared(r, r', b, Step(b, op, m), Names([op]), m)
  {
    hide Step, WellFormed;
    assert op in [op];
    forall off: nat, end: nat | Live(b, off, end, m) && off !in Names([op])
      ensures Live(Step(b, op, m), off, end, m) && Kept(r, r', off, end)
    {
      StepKeepsLive(b, op, off, end, m);
      var k :| 0 <= k < |b| && b[k] == Block(off, true) && Next(b, k, m) == end;
    }
  }

  /** So does the allocation itself. */
  lemma SparedTake(r: seq<Mem>, r': seq<Mem>, b: seq<Block>, i: nat, size: nat, m: nat)
    requires WellFormed(b, m) && i < |b| && !b[i].used && MIN <= size <= Cap(b, i, m)
    requires PayloadKept(r, r', b, -1, m)
    ensures Spared(r, r', b, Allocated(b, i, size, m), {}, m)
  {
    hide Allocated, WellFormed;
    forall off: nat, end: nat | Live(b, off, end, m)
      ensures Live(Allocated(b, i, size, m), off, end, m) && Kept(r, r', off, end)
    {
      LiveAllocated(b, i, size, off, end, m);
      var k :| 0 <= k < |b| && b[k] == Block(off, true) && Next(b, k, m) == end;
    }
  }
}

/** mem.c, heap build. */
module HeapArena {
  import opened HeapBlocks
  import opened HeapCells
  import opened HeapLowest
  import opened HeapSteps
  import opened HeapShrink
  import opened HeapTake
  import opened HeapSpared
  import opened HeapEffects
  import W = HeapWindows

  /** A client pointer: NULL, or an address given relative to the aligned start of the arena. */
  datatype Ptr = Null | At(off: int)

  class Heap {
    /** MEM_SIZE_ALIGNED. */
    const m: nat
    /** One cell for each offset at which a header can lie; cell m is ram_end. */
    const ram: array<Mem>
    var lfree: nat
    /** lwip_stats.mem: used bytes, illegal frees, failed requests. */
    var used: int
    var illegal: nat
    var err: nat
    /** mem_free_count of the build that frees from other contexts. */
    var freeCount: bool
    ghost var bs: seq<Block>

    /** The arena holds the list `bs`, whose blocks tile it. */
    ghost predicate Linked()
      reads this, ram
    {
      Tiled(bs, m) && Reflects(ram[..], bs, m)
    }

    /** What holds at every moment at which another context can run. */
    ghost predicate Sound()
      reads this, ram
    {
      Linked() && NoTwoFree(bs) && used == Span(bs, 0, m, true) && Low(bs, lfree, m)
    }

    /** What holds between calls: lfree is exactly the lowest free block, or ram_end. */
    ghost predicate Valid()
      reads this, ram
    {
      Sound() && Lowest(bs, lfree, m)
    }

    /** mem_init. */
    constructor (size: nat)
      requires ValidSize(size)
      ensures Valid() && m == size && bs == INITIAL && fresh(ram)
      ensures used == 0 && illegal == 0 && err == 0
    {
      m := size;
      ram := new Mem[size + 1];
      lfree, used, illegal, err, freeCount := 0, 0, 0, 0, false;
      bs := INITIAL;
      new;
      ram[0] := Mem(m, 0, false);
      ram[m] := Mem(m, m, true);
      assert CellOk(ram[..], bs, 0, m);
      assert OffAt(bs, 0, m) == 0 && bs[0] == Block(0, false);
    }

    /** The header writes with which plug_holes joins `right` to `left`. */
    method Join(left: nat, right: nat)
      requires ram.Length == m + 1 && left <= m && right <= m && left != right && ram[right].next <= m
      modifies ram
      ensures ram[..] == Joined(old(ram[..]), left, right, m)
    {
      ram[left] := ram[left].(next := ram[right].next);
      if ram[right].next != m {
        ram[ram[right].next] := ram[ram[right].next].(prev := left);
      }
    }

    method PlugHoles(mem: nat, ghost i: nat)
      requires Linked() && i < |bs| && bs[i] == Block(mem, false) && NoTwoFreeAround(bs, i)
      modifies this`bs, this`lfree, ram
      ensures Linked() && NoTwoFree(bs) && bs == Plugged(old(bs), i)
      ensures lfree == PluggedLfree(old(bs), i, old(lfree))
      ensures PayloadKept(old(ram[..]), ram[..], old(bs), -1, m)
      ensures mem < ram.Length && !ram[mem].used
    {
      hide Tiled, NoTwoFree, NoTwoFreeAround, NoTwoFreeBut, Reflects, PayloadKept;
      ghost var b0, r0 := bs, ram[..];
      PlugForward(mem, i);
      ghost var r1 := ram[..];
      PlugBackward(mem, i);
      KeptThenForward(r0, r1, ram[..], b0, i, m);
    }

    /** The first half of plug_holes. */
    method PlugForward(mem: nat, ghost i: nat)
      requires Linked() && i < |bs| && bs[i] == Block(mem, false) && NoTwoFreeAround(bs, i)
      modifies this`bs, this`lfree, ram
      ensures Linked() && i < |bs| && NoTwoFreeBut(bs, i) && bs == Forward(old(bs), i)
      ensures forall j :: 0 <= j <= i ==> bs[j] == old(bs)[j]
      ensures lfree == if i + 1 < |old(bs)| && !old(bs)[i + 1].used && old(lfree) == old(bs)[i + 1].off then mem else old(lfree)
      ensures PayloadKept(old(ram[..]), ram[..], old(bs), -1, m)
    {
      hide Tiled, NoTwoFreeAround, NoTwoFreeBut, Reflects;
      ghost var r0 := ram[..];
      ForwardKeeps(bs, i, m);
      HeaderReads(r0, bs, i, m);
      var nmem := ram[mem].next;
      if mem != nmem && !ram[nmem].used && nmem != m {
        if lfree == nmem {
          lfree := mem;
        }
        JoinCells(r0, bs, i + 1, m);
        Join(mem, nmem);
        bs := Drop(bs, i + 1);
      }
    }

    /** The second half of plug_holes. */
    method PlugBackward(mem: nat, ghost i: nat)
      requires Linked() && i < |bs| && bs[i] == Block(mem, false) && NoTwoFreeBut(bs, i)
      modifies this`bs, this`lfree, ram
      ensures Linked() && NoTwoFree(bs)
      ensures bs == if i > 0 && !old(bs)[i - 1].used then Drop(old(bs), i) else old(bs)
      ensures lfree == if i > 0 && !old(bs)[i - 1].used && old(lfree) == mem then old(bs)[i - 1].off else old(lfree)
      ensures PayloadKept(old(ram[..]), ram[..], old(bs), -1, m)
      ensures mem < ram.Length && !ram[mem].used
    {
      ghost var r1 := ram[..];
      HeaderReads(r1, bs, i, m);
      assert i > 0 ==> bs[i - 1].off < mem && CellOk(r1, bs, i - 1, m);
      var pmem := ram[mem].prev;
      if pmem != mem && !ram[pmem].used {
        if lfree == mem {
          lfree := pmem;
        }
        JoinCells(r1, bs, i, m);
        BackwardKeeps(bs, i, m);
        Join(pmem, mem);
        bs := Drop(bs, i);
      }
    }

    /** The guards of mem_free, in their order; `p` passes them all. */
    predicate Accepted(p: Ptr)
      requires ram.Length == m + 1 && m >= HDR
      reads this, ram
    {
      && p.At?
      && p.off % ALIGN == 0
      && 0 <= p.off - HDR && p.off + MIN <= m
      && ram[p.off - HDR].used
      && LinkValid(ram[..], p.off - HDR, m)
    }

    /** The client owns the block behind `p`: mem_malloc returned `p`, and it was not freed since. */
    ghost predicate Owns(p: Ptr)
      reads this
    {
      p.At? && p.off >= HDR && LiveAt(bs, p.off - HDR) < |bs|
    }

    /** Where the block behind `p` ends. */
    ghost function EndOf(p: Ptr): nat
      requires Owns(p)
      reads this
    {
      Next(bs, LiveAt(bs, p.off - HDR), m)
    }

    /** No guard of mem_free refuses an owned block. */
    lemma OwnedAccepted(p: Ptr)
      requires Sound() && Owns(p)
      ensures Accepted(p)
    {
      hide LinkValid, Tiled, NoTwoFree, Low, Span, Reflects;
      BlocksLinkValid(ram[..], bs, LiveAt(bs, p.off - HDR), m);
      HeaderReads(ram[..], bs, LiveAt(bs, p.off - HDR), m);
      TiledAt(bs, LiveAt(bs, p.off - HDR), m);
    }

    /** mem_free. A pointer that passes every guard must be one that mem_malloc returned;
        everything else is refused and only counted. An owned block is given back, and
        the same pointer is refused from then on. */
    method MemFree(p: Ptr)
      requires Sound()
      requires Accepted(p) ==> LiveAt(bs, p.off - HDR) < |bs|
      modifies this`bs, this`lfree, this`used, this`illegal, this`freeCount, ram
      ensures Sound() && (old(Valid()) || lfree != old(lfree) ==> Valid())
      ensures old(Accepted(p)) ==>
                && bs == Step(old(bs), Free(p.off - HDR), m) && freeCount && illegal == old(illegal)
                && PayloadKept(old(ram[..]), ram[..], old(bs), LiveAt(old(bs), p.off - HDR), m)
      ensures old(Accepted(p)) <==> old(Owns(p))
      ensures old(Owns(p)) ==>
                && GivenBack(old(bs), bs, p.off - HDR, old(EndOf(p)), m)
                && used == old(used) - (old(EndOf(p)) - (p.off - HDR)) && !Accepted(p)
      ensures !old(Accepted(p)) ==>
                && bs == old(bs) && ram[..] == old(ram[..]) && lfree == old(lfree) && freeCount == old(freeCount)
                && illegal == old(illegal) + if p.Null? then 0 else 1
    {
      hide Tiled, NoTwoFree, Low, Lowest, Reflects, PayloadKept, LinkValid, Span, LiveAt, GivenBack;
      ArenaSize(ram[..], bs, m);
      if Owns(p) {
        OwnedAccepted(p);
      }
      if p.Null? {
        return;
      }
      if p.off % ALIGN != 0 {
        illegal := illegal + 1;
        return;
      }
      var mem := p.off - HDR;
      if mem < 0 || p.off + MIN > m {
        illegal := illegal + 1;
        return;
      }
      if !ram[mem].used {
        illegal := illegal + 1;
        return;
      }
      if !LinkValid(ram[..], mem, m) {
        illegal := illegal + 1;
        return;
      }
      Release(mem, LiveAt(bs, mem));
    }

    method MarkFree(mem: nat)
      requires mem < ram.Length
      modifies ram
      ensures ram[..] == WithUsed(old(ram[..]), mem, false)
    {
      ram[mem] := ram[mem].(used := false);
    }

    /** The part of mem_free behind its guards. */
    method Release(mem: nat, ghost i: nat)
      requires Sound() && i < |bs| && bs[i] == Block(mem, true)
      modifies this`bs, this`lfree, this`used, this`freeCount, ram
      ensures Sound() && (old(Valid()) || lfree != old(lfree) ==> Valid())
      ensures bs == Freed(old(bs), i) && freeCount
      ensures PayloadKept(old(ram[..]), ram[..], old(bs), i, m)
      ensures GivenBack(old(bs), bs, mem, old(Next(bs, i, m)), m) && mem < ram.Length && !ram[mem].used
      ensures used == old(used) - (old(Next(bs, i, m)) - mem)
    {
      hide Tiled, NoTwoFree, NoTwoFreeAround, Low, Lowest, Reflects, PayloadKept, Span, GivenBack;
      ghost var b0, r0 := bs, ram[..];
      FreedEffect(b0, i, m);
      HeaderReads(r0, b0, i, m);
      FreeStep(r0, b0, i, lfree, m);
      MarkFree(mem);
      bs := SetUsed(bs, i, false);
      if mem < lfree {
        lfree := mem;
      }
      used := used - (ram[mem].next - mem);
      PluggedLow(bs, i, lfree, m);
      PlugHoles(mem, i);
      KeptThenCleared(r0, WithUsed(r0, mem, false), ram[..], b0, i, m);
      freeCount := true;
    }

    /** The header writes that put a free block at `o` behind the block at `left`. */
    method LinkBehind(left: nat, o: nat)
      requires ram.Length == m + 1 && left < o <= m && o < ram[left].next <= m
      modifies ram
      ensures ram[..] == Split(old(ram[..]), left, o, m)
    {
      ram[o] := Mem(ram[left].next, left, false);
      ram[left] := ram[left].(next := o);
      if ram[o].next != m {
        ram[ram[o].next] := ram[ram[o].next].(prev := o);
      }
    }

    /** The pointer lies in the arena: the guard of mem_trim. */
    predicate InArena(p: Ptr) {
      p.At? && 0 <= p.off < m
    }

    /** mem_trim. `asserts` reports whether its four assertions hold: "legal memory", "can only shrink
        memory" and the two "invalid next ptr". */
    method MemTrim(p: Ptr, newSize: nat) returns (r: Ptr, asserts: bool)
      requires Sound() && newSize < U16
      requires InArena(p) ==> p.off >= HDR && LiveAt(bs, p.off - HDR) < |bs|
      modifies this`bs, this`lfree, this`used, this`illegal, this`freeCount, ram
      ensures Sound() && (old(Valid()) || lfree != old(lfree) ==> Valid())
      ensures bs == if InArena(p) then Step(old(bs), Trim(p.off - HDR, newSize), m) else old(bs)
      ensures InArena(p) ==>
                var o, end := p.off - HDR, old(EndOf(p));
                var end' := TrimEnd(old(bs), o, end, newSize, m);
                Placed(old(bs), bs, o, end', m) && used == old(used) - (end - end')
      ensures freeCount || (bs == old(bs) && ram[..] == old(ram[..]) && lfree == old(lfree) && !old(freeCount))
      ensures bs == old(bs) ==> ram[..] == old(ram[..])
      ensures !Legal(newSize, m) ==> r == Null && illegal == old(illegal)
      ensures Legal(newSize, m) && !InArena(p) ==> r == p && illegal == old(illegal) + 1
      ensures Legal(newSize, m) && InArena(p) ==> var i := LiveAt(old(bs), p.off - HDR);
                && illegal == old(illegal)
                && (r == if Rounded(newSize) <= Cap(old(bs), i, m) then p else Null)
                && PayloadKept(old(ram[..]), ram[..], old(bs), i, m)
      ensures InArena(p) ==> forall c :: p.off - HDR < c < p.off + Rounded(newSize) && c < ram.Length ==> ram[c] == old(ram[c])
      ensures !Legal(newSize, m) ==> asserts
      ensures Legal(newSize, m) && !InArena(p) ==> !asserts
      ensures Legal(newSize, m) && InArena(p) ==> var i := LiveAt(old(bs), p.off - HDR);
                asserts <==> Rounded(newSize) <= Cap(old(bs), i, m) && !TrimAssertFails(old(bs), i, Rounded(newSize), m)
    {
      hide Tiled, NoTwoFree, Low, Lowest, Reflects, PayloadKept, Span, LiveAt, Placed, TrimEnd;
      asserts := true;
      TiledAt(bs, 0, m);
      if InArena(p) {
        W.OwnedIsLive(bs, p.off - HDR, m);
        TrimEffect(bs, p.off - HDR, EndOf(p), newSize, m);
      }
      LegalExactly(newSize, m);
      var newsize := (newSize + ALIGN - 1) / ALIGN * ALIGN % U16;
      if newsize < MIN {
        newsize := MIN;
      }
      if newsize > m || newsize < newSize {
        return Null, asserts;
      }
      asserts := InArena(p);
      if p.Null? || p.off < 0 || p.off >= m {
        illegal := illegal + 1;
        return p, asserts;
      }
      var mem := p.off - HDR;
      ghost var i := LiveAt(bs, mem);
      HeaderReads(ram[..], bs, i, m);
      KeptSame(ram[..], bs, i, m);
      var size := ram[mem].next - mem - HDR;
      asserts := newsize <= size;
      if newsize > size {
        return Null, asserts;
      }
      if newsize == size {
        return p, asserts;
      }
      asserts := Shrink(mem, newsize, size, i);
      r := p;
    }

    /** The part of mem_trim that runs under protection. */
    method Shrink(mem: nat, newsize: nat, size: nat, ghost i: nat) returns (asserts: bool)
      requires Sound() && i < |bs| && bs[i] == Block(mem, true)
      requires newsize % ALIGN == 0 && MIN <= newsize < size == Cap(bs, i, m)
      modifies this`bs, this`lfree, this`used, this`freeCount, ram
      ensures Sound() && (old(Valid()) || lfree != old(lfree) ==> Valid())
      ensures bs == Trimmed(old(bs), i, newsize, m) && freeCount
      ensures bs == old(bs) ==> ram[..] == old(ram[..])
      ensures PayloadKept(old(ram[..]), ram[..], old(bs), i, m)
      ensures forall c :: mem < c < mem + HDR + newsize ==> ram[c] == old(ram[c])
      ensures !asserts <==> TrimAssertFails(old(bs), i, newsize, m)
    {
      asserts := true;
      HeaderReads(ram[..], bs, i, m);
      var mem2 := ram[mem].next;
      if !ram[mem2].used {
        asserts := ram[mem].next != m;
        ShrinkMove(mem, mem2, newsize, size, i);
      } else if newsize + HDR + MIN <= size {
        asserts := ram[mem].next != m;
        ShrinkSplit(mem, newsize, size, i);
      }
      freeCount := true;
    }

    /** mem_trim with a free right neighbour. */
    method ShrinkMove(mem: nat, mem2: nat, newsize: nat, size: nat, ghost i: nat)
      requires Sound() && i + 1 < |bs| && bs[i] == Block(mem, true) && bs[i + 1] == Block(mem2, false)
      requires newsize % ALIGN == 0 && MIN <= newsize < size == Cap(bs, i, m)
      modifies this`bs, this`lfree, this`used, ram
      ensures Sound() && (old(Valid()) || lfree != old(lfree) ==> Valid())
      ensures bs == Trimmed(old(bs), i, newsize, m) && bs != old(bs)
      ensures PayloadKept(old(ram[..]), ram[..], old(bs), i, m)
      ensures forall c :: mem < c < mem + HDR + newsize ==> ram[c] == old(ram[c])
    {
      hide Tiled, NoTwoFree, Low, Lowest, Reflects, PayloadKept, Span, LiveAt;
      var ptr2 := mem + HDR + newsize;
      HeaderReads(ram[..], bs, i, m);
      MoveStep(bs, i, ptr2, lfree, m);
      MoveCells(ram[..], bs, i, ptr2, m);
      if lfree == mem2 {
        lfree := ptr2;
      }
      MoveDown(mem, mem2, ptr2);
      used := used - (size - newsize);
      bs := bs[i + 1 := Block(ptr2, false)];
      assert bs[i + 1].off != mem2;
    }

    /** mem_trim with an allocated right neighbour and room for another block. */
    method ShrinkSplit(mem: nat, newsize: nat, size: nat, ghost i: nat)
      requires Sound() && i < |bs| && bs[i] == Block(mem, true) && (i + 1 < |bs| ==> bs[i + 1].used)
      requires newsize % ALIGN == 0 && MIN <= newsize && newsize + HDR + MIN <= size == Cap(bs, i, m)
      modifies this`bs, this`lfree, this`used, ram
      ensures Sound() && (old(Valid()) || lfree != old(lfree) ==> Valid())
      ensures bs == Trimmed(old(bs), i, newsize, m) && bs != old(bs)
      ensures PayloadKept(old(ram[..]), ram[..], old(bs), i, m)
      ensures forall c :: mem < c < mem + HDR + newsize ==> ram[c] == old(ram[c])
    {
      hide Tiled, NoTwoFree, Low, Lowest, Reflects, PayloadKept, Span, LiveAt, Split, InsertAfter, Trimmed;
      var ptr2 := mem + HDR + newsize;
      HeaderReads(ram[..], bs, i, m);
      AlignedSum(mem, newsize);
      InsertLonger(bs, i, Block(ptr2, false));
      SplitStep(bs, i, ptr2, lfree, m);
      SplitCells(ram[..], bs, i, ptr2, m);
      if ptr2 < lfree {
        lfree := ptr2;
      }
      LinkBehind(mem, ptr2);
      used := used - (size - newsize);
      bs := InsertAfter(bs, i, Block(ptr2, false));
    }

    /** The header writes that move the free block at `right` down to `o`. */
    method MoveDown(left: nat, right: nat, o: nat)
      requires ram.Length == m + 1 && left < o < right <= m && right < ram[right].next <= m
      modifies ram
      ensures ram[..] == Moved(old(ram[..]), left, right, o, m)
    {
      var next := ram[right].next;
      ram[o] := Mem(next, left, false);
      ram[left] := ram[left].(next := o);
      if ram[o].next != m {
        ram[ram[o].next] := ram[ram[o].next].(prev := o);
      }
    }

    /** Whether the header at `off` is that of a block some client owns. */
    method Owned(off: nat) returns (owned: bool)
      requires Linked()
      ensures owned <==> LiveAt(bs, off) < |bs|
    {
      var ptr := 0;
      ghost var k := 0;
      while ptr < off && ptr < m
        invariant k <= |bs| && ptr == OffAt(bs, k, m)
        invariant forall j :: 0 <= j < k ==> bs[j].off < off
        decreases |bs| - k
      {
        assert CellOk(ram[..], bs, k, m);
        ptr := ram[ptr].next;
        k := k + 1;
      }
      if ptr < m {
        assert CellOk(ram[..], bs, k, m);
      }
      owned := ptr == off && ptr < m && ram[ptr].used;
      assert forall j :: k < j < |bs| ==> bs[k].off < bs[j].off;
    }

    /** Other contexts run: each call frees or trims a block that its caller owns. */
    method RunWindow(ops: seq<Op>, hold: int)
      requires Sound() && (hold >= 0 ==> LiveAt(bs, hold) < |bs|)
      modifies this`bs, this`lfree, this`used, this`illegal, this`freeCount, ram
      ensures Sound() && (old(Valid()) || lfree != old(lfree) ==> Valid())
      ensures bs == W.Window(old(bs), ops, hold, m)
      ensures hold >= 0 ==> LiveAt(bs, hold) < |bs|
      ensures freeCount || (bs == old(bs) && lfree == old(lfree) && !old(freeCount))
      ensures ops == [] ==> ram[..] == old(ram[..]) && freeCount == old(freeCount)
      ensures Spared(old(ram[..]), ram[..], old(bs), bs, Names(ops), m)
    {
      hide Spared;
      SparedSame(ram[..], bs, Names(ops), m);
      for n := 0 to |ops|
        invariant Sound() && (old(Valid()) || lfree != old(lfree) ==> Valid())
        invariant bs == W.Window(old(bs), ops[..n], hold, m)
        invariant hold >= 0 ==> LiveAt(bs, hold) < |bs|
        invariant freeCount || (bs == old(bs) && lfree == old(lfree) && !old(freeCount))
        invariant Spared(old(ram[..]), ram[..], old(bs), bs, Names(ops), m)
        invariant n == 0 ==> ram[..] == old(ram[..]) && freeCount == old(freeCount)
      {
        assert ops[..n + 1][..n] == ops[..n];
        ghost var b, r := bs, ram[..];
        RunOne(ops[n], hold);
        SparedTrans(old(ram[..]), r, ram[..], old(bs), b, bs, Names(ops), Names([ops[n]]), Names(ops), m);
        assert bs == W.WindowStep(b, ops[n], hold, m);
      }
      assert ops[..|ops|] == ops;
    }

    /** One call of another context. */
    method RunOne(op: Op, hold: int)
      requires Sound() && (hold >= 0 ==> LiveAt(bs, hold) < |bs|)
      modifies this`bs, this`lfree, this`used, this`illegal, this`freeCount, ram
      ensures Sound() && (old(Valid()) || lfree != old(lfree) ==> Valid())
      ensures bs == W.WindowStep(old(bs), op, hold, m)
      ensures hold >= 0 ==> LiveAt(bs, hold) < |bs|
      ensures freeCount || (bs == old(bs) && lfree == old(lfree) && !old(freeCount))
      ensures Spared(old(ram[..]), ram[..], old(bs), bs, Names([op]), m)
    {
      hide Tiled, NoTwoFree, Low, Lowest, Reflects, PayloadKept, Span, LiveAt, Spared, Names, Placed, TrimEnd;
      ghost var r0, b0 := ram[..], bs;
      SparedSame(r0, b0, Names([op]), m);
      W.WindowStepKeeps(bs, op, hold, m);
      if hold >= 0 {
        W.OwnedIsLive(bs, hold, m);
        W.OwnedIsLive(W.WindowStep(bs, op, hold, m), hold, m);
      }
      if op.Malloc? || op.off == hold || !Sized(op) {
        return;
      }
      var owned := Owned(op.off);
      if owned {
        HeaderReads(ram[..], bs, LiveAt(bs, op.off), m);
        if op.Free? {
          FreeOwned(op.off);
          SparedStep(r0, ram[..], b0, op, m);
        } else {
          var _, _ := MemTrim(At(op.off + HDR), op.size);
          if Legal(op.size, m) {
            SparedStep(r0, ram[..], b0, op, m);
          }
        }
      }
    }

    /** A client frees a block it owns: no guard of mem_free refuses it. */
    method FreeOwned(off: nat)
      requires Sound() && LiveAt(bs, off) < |bs|
      modifies this`bs, this`lfree, this`used, this`illegal, this`freeCount, ram
      ensures Sound() && (old(Valid()) || lfree != old(lfree) ==> Valid())
      ensures bs == Step(old(bs), Free(off), m) && freeCount
      ensures illegal == old(illegal)
      ensures PayloadKept(old(ram[..]), ram[..], old(bs), LiveAt(old(bs), off), m)
    {
      hide Tiled, NoTwoFree, Low, Lowest, Reflects, PayloadKept, LinkValid, Span, LiveAt, Step, GivenBack;
      BlocksLinkValid(ram[..], bs, LiveAt(bs, off), m);
      HeaderReads(ram[..], bs, LiveAt(bs, off), m);
      MemFree(At(off + HDR));
    }

    /** Take free block `i` for a request of `size` bytes: the part of mem_malloc that runs
        when the scan has found a block. */
    method Take(mem: nat, size: nat, ghost i: nat)
      requires Valid() && i < |bs| && bs[i] == Block(mem, false)
      requires size % ALIGN == 0 && MIN <= size <= Cap(bs, i, m)
      modifies this`bs, this`used, ram
      ensures Sound() && (lfree != mem ==> Valid())
      ensures bs == Allocated(old(bs), i, size, m)
      ensures PayloadKept(old(ram[..]), ram[..], old(bs), -1, m)
    {
      hide Tiled, NoTwoFree, Reflects, PayloadKept, Span, Low, Lowest, Split, WithUsed, Allocated;
      TakeCells(ram[..], bs, i, size, m);
      TakeStep(bs, i, size, lfree, m);
      MarkTaken(mem, size);
      bs := Allocated(bs, i, size, m);
    }

    /** The header writes of mem_malloc and its statistics. */
    method MarkTaken(mem: nat, size: nat)
      requires ram.Length == m + 1 && size >= MIN && mem < m && mem + HDR + size <= ram[mem].next <= m
      modifies this`used, ram
      ensures var next, r1 := old(ram[mem].next), WithUsed(old(ram[..]), mem, true);
              if next - (mem + HDR) >= size + HDR + MIN
              then ram[..] == Split(r1, mem, mem + HDR + size, m) && used == old(used) + size + HDR
              else ram[..] == r1 && used == old(used) + next - mem
    {
      var next := ram[mem].next;
      ram[mem] := ram[mem].(used := true);
      assert ram[..] == WithUsed(old(ram[..]), mem, true);
      if next - (mem + HDR) >= size + HDR + MIN {
        LinkBehind(mem, mem + HDR + size);
        used := used + (size + HDR);
      } else {
        used := used + (next - mem);
      }
    }

    /** mem_malloc_adjust_lfree: if the allocated block is the one lfree points to, find the
        next free block, starting over whenever another context has run. */
    method AdjustLfree(mem: nat, s: seq<seq<Op>>, w: nat) returns (w': nat)
      requires Sound() && LiveAt(bs, mem) < |bs| && (lfree != mem ==> Valid())
      modifies this`bs, this`lfree, this`used, this`illegal, this`freeCount, ram
      ensures Valid() && w <= w' && bs == W.Windows(old(bs), s, w, w', mem, m)
      ensures s == [] ==> ram[..] == old(ram[..]) && bs == old(bs)
      ensures Spared(old(ram[..]), ram[..], old(bs), bs, NamesIn(s), m)
    {
      hide Spared, Names, NamesIn;
      SparedSame(ram[..], bs, NamesIn(s), m);
      w' := w;
      var again := true;
      while again
        invariant Sound() && LiveAt(bs, mem) < |bs| && (lfree != mem || !again ==> Valid())
        invariant w <= w' && bs == W.Windows(old(bs), s, w, w', mem, m)
        invariant Spared(old(ram[..]), ram[..], old(bs), bs, NamesIn(s), m)
        invariant s == [] ==> ram[..] == old(ram[..]) && bs == old(bs)
        decreases if |s| > w' then |s| - w' else 0, again
      {
        again := false;
        if mem == lfree {
          ghost var w0, r, b := w', ram[..], bs;
          w', again := ScanLfree(mem, s, w');
          SparedTrans(old(ram[..]), r, ram[..], old(bs), b, bs, NamesIn(s), NamesIn(s), NamesIn(s), m);
          W.WindowsJoin(old(bs), s, w, w0, w', mem, m);
        }
      }
    }

    /** One scan for the next free block; `again` when another context has disturbed it. */
    method ScanLfree(mem: nat, s: seq<seq<Op>>, w: nat) returns (w': nat, again: bool)
      requires Sound() && LiveAt(bs, mem) < |bs| && lfree == mem
      modifies this`bs, this`lfree, this`used, this`illegal, this`freeCount, ram
      ensures Sound() && LiveAt(bs, mem) < |bs| && (lfree != mem || !again ==> Valid())
      ensures w <= w' && bs == W.Windows(old(bs), s, w, w', mem, m)
      ensures again ==> w < w' <= |s|
      ensures !again ==> bs == old(bs) && w' - w == W.Lead(bs) - LiveAt(bs, mem)
      ensures s == [] ==> ram[..] == old(ram[..]) && bs == old(bs)
      ensures Spared(old(ram[..]), ram[..], old(bs), bs, NamesIn(s), m)
    {
      hide Tiled, NoTwoFree, Low, Lowest, Span, LiveAt, W.Window, W.Lead, Spared, Names, NamesIn;
      w', again := w, false;
      SparedSame(ram[..], bs, NamesIn(s), m);
      var cur := lfree;
      ghost var b := bs;
      ghost var k: nat := ScanStart(b, lfree, m);
      assert LiveAt(b, mem) < |b|;
      StartsAtLive(b, k, mem);
      while ram[cur].used && cur != m
        invariant Sound() && lfree == mem && bs == b
        invariant k <= |b| && cur == OffAt(b, k, m) <= m
        invariant forall j :: 0 <= j < k ==> b[j].used
        invariant w' - w == k - LiveAt(b, mem)
        invariant w <= w' && bs == W.Windows(bs, s, w, w', mem, m)
        invariant Spared(old(ram[..]), ram[..], b, bs, NamesIn(s), m)
        invariant s == [] ==> ram[..] == old(ram[..])
        decreases |bs| - k
      {
        assert CellOk(ram[..], bs, k, m);
        assert bs[k].used;
        ghost var r := ram[..];
        cur, again := ScanStep(mem, cur, W.At(s, w'), k);
        AtNames(s, w');
        SparedTrans(old(ram[..]), r, ram[..], b, b, bs, NamesIn(s), Names(W.At(s, w')), NamesIn(s), m);
        w' := w' + 1;
        if again {
          return;
        }
        k := k + 1;
      }
      EndsAtLead(b, k);
      SetLowest(cur, k);
    }

    /** The scan starts at the block that has just been taken, and ends behind the allocated ones. */
    lemma StartsAtLive(b: seq<Block>, k: nat, mem: nat)
      requires Tiled(b, m) && k <= |b| && OffAt(b, k, m) == mem && LiveAt(b, mem) < |b|
      ensures k == LiveAt(b, mem)
    {
      Ordered(b, k, LiveAt(b, mem), m);
    }

    lemma EndsAtLead(b: seq<Block>, k: nat)
      requires Sound() && b == bs && k <= |b| && (forall j :: 0 <= j < k ==> b[j].used)
      requires OffAt(b, k, m) == m || !ram[OffAt(b, k, m)].used
      ensures k == W.Lead(b)
    {
      TiledAt(b, k, m);
      if k < |b| {
        assert CellOk(ram[..], b, k, m);
      }
    }

    /** One step of the scan over the `next` links, with the window in front of it. */
    method ScanStep(mem: nat, cur: nat, ops: seq<Op>, ghost k: nat) returns (next: nat, again: bool)
      requires Sound() && LiveAt(bs, mem) < |bs| && k < |bs| && cur == bs[k].off
      modifies this`bs, this`lfree, this`used, this`illegal, this`freeCount, ram
      ensures Sound() && LiveAt(bs, mem) < |bs| && (old(Valid()) || lfree != old(lfree) ==> Valid())
      ensures bs == W.Window(old(bs), ops, mem, m)
      ensures !again ==> bs == old(bs) && lfree == old(lfree) && next == Next(bs, k, m) <= m
      ensures ops == [] ==> !again && ram[..] == old(ram[..])
      ensures Spared(old(ram[..]), ram[..], old(bs), bs, Names(ops), m)
    {
      freeCount := false;
      RunWindow(ops, mem);
      if freeCount {
        return cur, true;
      }
      HeaderReads(ram[..], bs, k, m);
      next, again := ram[cur].next, false;
    }

    /** The scan has passed only allocated blocks and stands on a free one or the end. */
    method SetLowest(cur: nat, ghost k: nat)
      requires Sound() && k <= |bs| && cur == OffAt(bs, k, m) && (cur == m || !ram[cur].used)
      requires forall j :: 0 <= j < k ==> bs[j].used
      modifies this`lfree
      ensures Valid()
    {
      if k < |bs| {
        assert CellOk(ram[..], bs, k, m);
        assert bs[k] == Block(cur, false);
      }
      lfree := cur;
    }

    /** The windows up to `b` in front of the allocation; no block is held yet. */
    ghost function Before(start: seq<Block>, s: seq<seq<Op>>, b: nat): seq<Block>
    {
      W.Windows(start, s, 0, b, -1, m)
    }

    /** The scan between the windows `w0` and `w1` was undisturbed, with one window for each block that
        it looked at. */
    ghost predicate Scanned(start: seq<Block>, s: seq<seq<Op>>, size: nat, w0: nat, w1: nat)
    {
      && w0 <= w1 && Before(start, s, w0) == Before(start, s, w1)
      && var b := Before(start, s, w1); W.Looked(b, Fit(b, 0, size, m), size, w1 - w0, m)
    }

    /** mem_malloc. `s` lists the calls that other contexts make in the successive windows in
        which mem_malloc is unprotected; with an empty `s` this is the mutex-only build.
        `w0` windows had passed when the last scan began, `w1` when it ended, one for each block
        it looked at, and `w2` on return. */
    method MemMalloc(sizeIn: nat, s: seq<seq<Op>>) returns (p: Ptr, ghost w0: nat, ghost w1: nat, ghost w2: nat)
      requires Valid() && sizeIn < U16
      modifies this`bs, this`lfree, this`used, this`illegal, this`err, this`freeCount, ram
      ensures Valid()
      ensures sizeIn == 0 || sizeIn > m ==> p == Null && bs == old(bs) && ram[..] == old(ram[..]) && err == old(err)
      ensures 0 < sizeIn <= m ==> w1 <= w2 && Scanned(old(bs), s, Rounded(sizeIn), w0, w1)
      ensures 0 < sizeIn <= m ==>
                var b := Before(old(bs), s, w1);
                var i := Fit(b, 0, Rounded(sizeIn), m);
                if i == |b| then p == Null && bs == b && w2 == w1 && err == old(err) + 1
                else && p == At(b[i].off + HDR) && err == old(err)
                     && bs == W.Windows(Allocated(b, i, Rounded(sizeIn), m), s, w1, w2, b[i].off, m)
      ensures p.At? ==>
                var k := LiveAt(bs, p.off - HDR);
                k < |bs| && Cap(bs, k, m) >= sizeIn && p.off % ALIGN == 0
      ensures s == [] ==> bs == Step(old(bs), Malloc(sizeIn), m) && PayloadKept(old(ram[..]), ram[..], old(bs), -1, m)
      ensures Spared(old(ram[..]), ram[..], old(bs), bs, NamesIn(s), m)
    {
      hide Tiled, NoTwoFree, Low, Lowest, Reflects, Span, Fit, LiveAt, W.Windows, Scanned, Spared, NamesIn;
      w0, w1, w2 := 0, 0, 0;
      SparedSame(ram[..], bs, NamesIn(s), m);
      TiledAt(bs, 0, m);
      LegalExactly(sizeIn, m);
      if sizeIn == 0 {
        return Null, w0, w1, w2;
      }
      var size := (sizeIn + ALIGN - 1) / ALIGN * ALIGN % U16;
      if size < MIN {
        size := MIN;
      }
      if size > m || size < sizeIn {
        return Null, w0, w1, w2;
      }
      ghost var b0 := bs;
      p, w0, w1, w2 := Acquire(size, s);
      W.WindowsKeep(b0, s, 0, w1, -1, m);
      ghost var b := Before(b0, s, w1);
      FitBound(b, size);
      if p.At? {
        W.Returned(b, Fit(b, 0, size, m), size, s, w1, w2, m);
      }
      if s == [] {
        W.Silent(b0, 0, w1, -1, m);
        if p.At? {
          W.Silent(Allocated(b, Fit(b, 0, size, m), size, m), w1, w2, p.off - HDR, m);
        }
      }
    }

    lemma FitBound(b: seq<Block>, size: nat)
      ensures var i := Fit(b, 0, size, m); i <= |b| && (i < |b| ==> !b[i].used && Cap(b, i, m) >= size)
    {
    }

    /** The part of mem_malloc that runs under the mutex. */
    method Acquire(size: nat, s: seq<seq<Op>>) returns (p: Ptr, ghost w0: nat, ghost w1: nat, ghost w2: nat)
      requires Valid() && size % ALIGN == 0 && MIN <= size <= m
      modifies this`bs, this`lfree, this`used, this`illegal, this`err, this`freeCount, ram
      ensures Valid() && w1 <= w2 && Scanned(old(bs), s, size, w0, w1)
      ensures var b := Before(old(bs), s, w1);
              var i := Fit(b, 0, size, m);
              if i == |b| then p == Null && bs == b && w2 == w1 && err == old(err) + 1
              else && p == At(b[i].off + HDR) && err == old(err)
                   && bs == W.Windows(Allocated(b, i, size, m), s, w1, w2, b[i].off, m)
      ensures s == [] ==> PayloadKept(old(ram[..]), ram[..], old(bs), -1, m)
      ensures Spared(old(ram[..]), ram[..], old(bs), bs, NamesIn(s), m)
    {
      hide Tiled, NoTwoFree, Low, Lowest, Reflects, W.Windows, W.Looked, Span, Fit, LiveAt, Spared, NamesIn, Allocated;
      var found, mem, w;
      ghost var b0 := bs;
      found, mem, w, w0 := SearchUndisturbed(size, s);
      w1 := w;
      if found {
        ghost var b, r := bs, ram[..];
        FitBound(b, size);
        Take(mem, size, Fit(b, 0, size, m));
        SparedTake(r, ram[..], b, Fit(b, 0, size, m), size, m);
        SparedTrans(old(ram[..]), r, ram[..], b0, b, bs, NamesIn(s), {}, NamesIn(s), m);
        ghost var b1, r1 := bs, ram[..];
        TakenIsOwned(b, Fit(b, 0, size, m), size, m);
        w := AdjustLfree(mem, s, w);
        SparedTrans(old(ram[..]), r1, ram[..], b0, b1, bs, NamesIn(s), NamesIn(s), NamesIn(s), m);
        p := At(mem + HDR);
      } else {
        err := err + 1;
        p := Null;
      }
      w2 := w;
    }

    /** Search until no other context disturbs the search; `w0` is the window in front of
        the undisturbed search. */
    method SearchUndisturbed(size: nat, s: seq<seq<Op>>) returns (found: bool, mem: nat, w: nat, ghost w0: nat)
      requires Valid() && MIN <= size <= m
      modifies this`bs, this`lfree, this`used, this`illegal, this`freeCount, ram
      ensures Valid() && w0 <= w && bs == Before(old(bs), s, w) == Before(old(bs), s, w0)
      ensures W.Looked(bs, Fit(bs, 0, size, m), size, w - w0, m)
      ensures !found ==> Fit(bs, 0, size, m) == |bs|
      ensures found ==> Fit(bs, 0, size, m) < |bs| && bs[Fit(bs, 0, size, m)] == Block(mem, false)
      ensures s == [] ==> ram[..] == old(ram[..]) && bs == old(bs)
      ensures Spared(old(ram[..]), ram[..], old(bs), bs, NamesIn(s), m)
    {
      hide Tiled, NoTwoFree, Low, Lowest, Reflects, Span, Fit, W.Window, W.Looked, Spared, NamesIn;
      ghost var b0 := bs;
      found, mem, w, w0 := false, 0, 0, 0;
      SparedSame(ram[..], bs, NamesIn(s), m);
      var again := true;
      while again
        invariant Valid() && w0 <= w && bs == Before(b0, s, w)
        invariant Spared(old(ram[..]), ram[..], b0, bs, NamesIn(s), m)
        invariant s == [] ==> ram[..] == old(ram[..]) && bs == b0
        invariant !again ==> bs == Before(b0, s, w0) && W.Looked(bs, Fit(bs, 0, size, m), size, w - w0, m)
        invariant !again && !found ==> Fit(bs, 0, size, m) == |bs|
        invariant !again && found ==> Fit(bs, 0, size, m) < |bs| && bs[Fit(bs, 0, size, m)] == Block(mem, false)
        decreases if |s| > w then |s| - w else 0, again
      {
        w0 := w;
        ghost var r, b := ram[..], bs;
        found, mem, w, again := Search(size, s, w);
        SparedTrans(old(ram[..]), r, ram[..], b0, b, bs, NamesIn(s), NamesIn(s), NamesIn(s), m);
        W.WindowsJoin(b0, s, 0, w0, w, -1, m);
      }
    }

    /** One search through the heap from the lowest free block on; `again` when another
        context has disturbed it. */
    method Search(size: nat, s: seq<seq<Op>>, w: nat) returns (found: bool, mem: nat, w': nat, again: bool)
      requires Valid() && MIN <= size <= m
      modifies this`bs, this`lfree, this`used, this`illegal, this`freeCount, ram
      ensures Valid() && w <= w' && bs == W.Windows(old(bs), s, w, w', -1, m)
      ensures again ==> w < w' <= |s|
      ensures !again ==> bs == old(bs) && W.Looked(bs, Fit(bs, 0, size, m), size, w' - w, m)
      ensures !again && !found ==> Fit(bs, 0, size, m) == |bs|
      ensures !again && found ==> Fit(bs, 0, size, m) < |bs| && bs[Fit(bs, 0, size, m)] == Block(mem, false)
      ensures s == [] ==> ram[..] == old(ram[..]) && bs == old(bs)
      ensures Spared(old(ram[..]), ram[..], old(bs), bs, NamesIn(s), m)
    {
      hide Tiled, NoTwoFree, Low, Lowest, Reflects, Span, Fit, W.Window, W.Windows, W.At, Spared, Names, NamesIn, W.Lead, W.Looked, NoneFits;
      found, mem, w', again := false, 0, w, false;
      ghost var b := bs;
      SparedSame(ram[..], bs, NamesIn(s), m);
      var ptr := lfree;
      ghost var k: nat := ScanStart(b, lfree, m);
      StartOfScan(b, k, lfree);
      W.NoWindow(b, s, w, -1, m);
      NoneUsed(b, k, size, m);
      while ptr < m - size
        invariant Valid() && bs == b == W.Windows(b, s, w, w', -1, m) && w <= w'
        invariant k <= |b| && ptr == OffAt(b, k, m) <= m
        invariant w' - w == k - W.Lead(b) && (w < w' ==> k > 0 && b[k - 1].off < m - size)
        invariant NoneFits(b, k, size, m)
        invariant Spared(old(ram[..]), ram[..], b, bs, NamesIn(s), m)
        invariant s == [] ==> ram[..] == old(ram[..])
        decreases |b| - k
      {
        mem := ptr;
        var next, used;
        ghost var r := ram[..];
        next, used, again := Look(mem, W.At(s, w'), k);
        AtNames(s, w');
        W.AtEnd(s, w');
        W.OneWindow(b, s, w, w', -1, m);
        SparedTrans(old(ram[..]), r, ram[..], b, b, bs, NamesIn(s), Names(W.At(s, w')), NamesIn(s), m);
        w' := w' + 1;
        if again {
          return;
        }
        if !used && next - (ptr + HDR) >= size {
          LowestIsFit(b, k, size, m);
          W.LooksFound(b, k, size, m);
          found := true;
          return;
        }
        NoneMore(b, k, size, m);
        ptr := next;
        k := k + 1;
      }
      NonePast(b, k, size, m);
      W.LooksPast(b, k, size, m);
      LowestIsFit(b, |b|, size, m);
    }

    lemma StartOfScan(b: seq<Block>, k: nat, l: nat)
      requires Tiled(b, m) && Lowest(b, l, m) && k <= |b| && OffAt(b, k, m) == l && forall j :: 0 <= j < k ==> b[j].used
      ensures k == W.Lead(b)
    {
      W.StartsAtLead(b, k, m);
    }

    /** The window in front of a block of the search, and what its header then says. */
    method Look(mem: nat, ops: seq<Op>, ghost k: nat) returns (next: nat, used: bool, again: bool)
      requires Valid() && k < |bs| && mem == bs[k].off
      modifies this`bs, this`lfree, this`used, this`illegal, this`freeCount, ram
      ensures Valid() && bs == W.Window(old(bs), ops, -1, m)
      ensures !again ==> bs == old(bs) && next == Next(bs, k, m) <= m && used == bs[k].used
      ensures ops == [] ==> !again && ram[..] == old(ram[..])
      ensures Spared(old(ram[..]), ram[..], old(bs), bs, Names(ops), m)
    {
      freeCount := false;
      RunWindow(ops, -1);
      if freeCount {
        return 0, false, true;
      }
      HeaderReads(ram[..], bs, k, m);
      next, used, again := ram[mem].next, ram[mem].used, false;
    }
  }
}
