/**
 What a call does to the live blocks of the heap, said without the list operations: the
 live ranges determine the list, and every call changes exactly one of them.
 */
module HeapEffects {
  import opened HeapBlocks
  import W = HeapWindows

  /** The block at `off` has stopped being live; every other live range is as it was. */
  ghost predicate Released(b: seq<Block>, b': seq<Block>, off: nat, m: nat) {
    forall f: nat, e: nat :: Live(b', f, e, m) <==> f != off && Live(b, f, e, m)
  }

  /** The block at `off` is live with end `end`; every other live range is as it was. */
  ghost predicate Placed(b: seq<Block>, b': seq<Block>, off: nat, end: nat, m: nat) {
    forall f: nat, e: nat :: Live(b', f, e, m) <==> if f == off then e == end else Live(b, f, e, m)
  }

  /** One free block contains [lo, hi). */
  ghost predicate FreeOver(bs: seq<Block>, lo: nat, hi: nat, m: nat) {
    exists k :: 0 <= k < |bs| && !bs[k].used && bs[k].off <= lo && hi <= Next(bs, k, m)
  }

  /** A free block starts at `off`. */
  predicate FreeAt(bs: seq<Block>, off: nat) {
    Block(off, false) in bs
  }

  ghost predicate SameLive(a: seq<Block>, b: seq<Block>, m: nat) {
    forall f: nat, e: nat :: Live(a, f, e, m) <==> Live(b, f, e, m)
  }

  // ----- the live ranges determine the list -----

  lemma LiveIndex(bs: seq<Block>, k: nat, m: nat)
    requires k < |bs| && bs[k].used
    ensures Live(bs, bs[k].off, Next(bs, k, m), m)
  {
    assert bs[k] == Block(bs[k].off, true);
  }

  /** A live block that starts where block `k` starts is block `k`. */
  lemma LiveThere(bs: seq<Block>, k: nat, end: nat, m: nat)
    requires Tiled(bs, m) && k < |bs| && Live(bs, bs[k].off, end, m)
    ensures bs[k].used && Next(bs, k, m) == end
  {
    var j :| 0 <= j < |bs| && bs[j] == Block(bs[k].off, true) && Next(bs, j, m) == end;
    assert !(j < k) && !(k < j);
  }

  /** A live block that starts behind the start of block `k` starts at its end or later. */
  lemma LiveBehind(bs: seq<Block>, k: nat, off: nat, end: nat, m: nat)
    requires Tiled(bs, m) && k < |bs| && Live(bs, off, end, m) && bs[k].off < off
    ensures Next(bs, k, m) <= off
  {
    var j :| 0 <= j < |bs| && bs[j] == Block(off, true) && Next(bs, j, m) == end;
    assert !(j < k);
    assert k + 1 < j ==> bs[k + 1].off <= bs[j].off;
  }

  lemma StatusAgrees(a: seq<Block>, b: seq<Block>, k: nat, m: nat)
    requires Tiled(b, m) && SameLive(a, b, m) && k < |a| && k < |b| && a[k].off == b[k].off && a[k].used
    ensures b[k].used && Next(b, k, m) == Next(a, k, m)
  {
    LiveIndex(a, k, m);
    LiveThere(b, k, Next(a, k, m), m);
  }

  /** The end of a free block is not behind that of a free block which starts with it. */
  lemma GapAgrees(a: seq<Block>, b: seq<Block>, k: nat, m: nat)
    requires WellFormed(a, m) && WellFormed(b, m) && SameLive(a, b, m)
    requires k < |a| && k < |b| && a[k].off == b[k].off && !a[k].used
    ensures Next(b, k, m) <= Next(a, k, m)
  {
    if k + 1 < |a| {
      LiveIndex(a, k + 1, m);
      LiveBehind(b, k, a[k + 1].off, Next(a, k + 1, m), m);
    } else if k + 1 < |b| {
      assert b[k + 1].off <= m;
    }
  }

  lemma NextAgrees(a: seq<Block>, b: seq<Block>, k: nat, m: nat)
    requires WellFormed(a, m) && WellFormed(b, m) && SameLive(a, b, m)
    requires k < |a| && k < |b| && a[k].off == b[k].off
    ensures a[k] == b[k] && Next(a, k, m) == Next(b, k, m)
  {
    hide Tiled, NoTwoFree, Live, SameLive;
    if a[k].used {
      StatusAgrees(a, b, k, m);
    } else if b[k].used {
      SameSym(a, b, m);
      StatusAgrees(b, a, k, m);
    } else {
      SameSym(a, b, m);
      GapAgrees(a, b, k, m);
      GapAgrees(b, a, k, m);
    }
  }

  lemma SameSym(a: seq<Block>, b: seq<Block>, m: nat)
    requires SameLive(a, b, m)
    ensures SameLive(b, a, m)
  {
  }

  lemma EndsInside(bs: seq<Block>, k: nat, m: nat)
    requires Tiled(bs, m) && k < |bs|
    ensures Next(bs, k, m) == m <==> k + 1 == |bs|
    ensures bs[0].off == 0
  {
  }

  lemma {:induction false} PrefixAgrees(a: seq<Block>, b: seq<Block>, k: nat, m: nat)
    requires WellFormed(a, m) && WellFormed(b, m) && SameLive(a, b, m) && k <= |a|
    ensures k <= |b| && a[..k] == b[..k] && (0 < k ==> Next(a, k - 1, m) == Next(b, k - 1, m))
  {
    hide Tiled, NoTwoFree, Live, SameLive;
    if k > 0 {
      PrefixAgrees(a, b, k - 1, m);
      EndsInside(a, k - 1, m);
      TiledAt(b, 0, m);
      if k > 1 {
        EndsInside(a, k - 2, m);
        EndsInside(b, k - 2, m);
      }
      EndsInside(b, 0, m);
      assert k - 1 < |b| && a[k - 1].off == b[k - 1].off;
      NextAgrees(a, b, k - 1, m);
      assert a[..k] == a[..k - 1] + [a[k - 1]] && b[..k] == b[..k - 1] + [b[k - 1]];
    }
  }

  /** A well-formed list is the only one with its live ranges: what is free is coalesced and
      fills the rest. */
  lemma Canonical(a: seq<Block>, b: seq<Block>, m: nat)
    requires WellFormed(a, m) && WellFormed(b, m) && SameLive(a, b, m)
    ensures a == b
  {
    hide Tiled, NoTwoFree, Live, SameLive;
    PrefixAgrees(a, b, |a|, m);
    SameSym(a, b, m);
    PrefixAgrees(b, a, |b|, m);
    assert a == a[..|a|] == b[..|a|] == b;
  }

  // ----- mem_free -----

  lemma DropIsOld(bs: seq<Block>, i: nat, f: nat, e: nat, m: nat)
    requires 0 < i < |bs| && !bs[i].used && !bs[i - 1].used && Live(Drop(bs, i), f, e, m)
    ensures Live(bs, f, e, m)
  {
    var r := Drop(bs, i);
    var k :| 0 <= k < |r| && r[k] == Block(f, true) && Next(r, k, m) == e;
    assert forall j :: 0 <= j < |r| ==> r[j] == bs[if j < i then j else j + 1];
    var k' := if k < i then k else k + 1;
    assert bs[k'] == Block(f, true) && Next(bs, k', m) == e;
  }

  lemma ClearedIsOld(bs: seq<Block>, i: nat, f: nat, e: nat, m: nat)
    requires Tiled(bs, m) && i < |bs| && bs[i].used && Live(SetUsed(bs, i, false), f, e, m)
    ensures f != bs[i].off && Live(bs, f, e, m)
  {
    var r := SetUsed(bs, i, false);
    var k :| 0 <= k < |r| && r[k] == Block(f, true) && Next(r, k, m) == e;
    assert k != i && bs[k] == r[k] && Next(bs, k, m) == e;
    assert k < i ==> bs[k].off < bs[i].off;
    assert i < k ==> bs[i].off < bs[k].off;
  }

  lemma FreedIsOld(bs: seq<Block>, i: nat, f: nat, e: nat, m: nat)
    requires Tiled(bs, m) && i < |bs| && bs[i].used && Live(Freed(bs, i), f, e, m)
    ensures f != bs[i].off && Live(bs, f, e, m)
  {
    hide Tiled, Live;
    var s := SetUsed(bs, i, false);
    var fwd := Forward(s, i);
    assert forall j :: 0 <= j <= i ==> fwd[j] == s[j];
    if i > 0 && !fwd[i - 1].used {
      DropIsOld(fwd, i, f, e, m);
    }
    if i + 1 < |s| && !s[i + 1].used {
      DropIsOld(s, i + 1, f, e, m);
    }
    ClearedIsOld(bs, i, f, e, m);
  }

  lemma FreedCovers(bs: seq<Block>, i: nat, m: nat)
    requires Tiled(bs, m) && i < |bs| && bs[i].used
    ensures FreeOver(Freed(bs, i), bs[i].off, Next(bs, i, m), m)
  {
    var s := SetUsed(bs, i, false);
    var fwd := Forward(s, i);
    assert forall j :: 0 <= j <= i ==> fwd[j] == s[j];
    assert Next(fwd, i, m) >= Next(bs, i, m);
    var r := Freed(bs, i);
    var k := if i > 0 && !fwd[i - 1].used then i - 1 else i;
    assert !r[k].used && r[k].off <= bs[i].off && Next(r, k, m) == Next(fwd, i, m);
  }

  lemma Found(bs: seq<Block>, o: nat, end: nat, m: nat) returns (i: nat)
    requires Tiled(bs, m) && Live(bs, o, end, m)
    ensures i == LiveAt(bs, o) < |bs| && bs[i] == Block(o, true) && Next(bs, i, m) == end
  {
    hide Tiled;
    i := LiveAt(bs, o);
    W.OwnedIsLive(bs, o, m);
    LiveThere(bs, i, end, m);
  }

  lemma NotLive(bs: seq<Block>, o: nat, m: nat)
    requires forall e: nat :: !Live(bs, o, e, m)
    ensures LiveAt(bs, o) == |bs|
  {
    W.OwnedIsLive(bs, o, m);
  }

  /** The block at `o` of `b` is no longer live in `b'`: every other live range is as it was,
      and its bytes have left the used total and lie in one free block. */
  ghost predicate GivenBack(b: seq<Block>, b': seq<Block>, o: nat, end: nat, m: nat) {
    && Released(b, b', o, m) && LiveAt(b', o) == |b'|
    && FreeOver(b', o, end, m)
    && Span(b', 0, m, true) == Span(b, 0, m, true) - (end - o)
  }

  lemma FreedEffect(bs: seq<Block>, i: nat, m: nat)
    requires WellFormed(bs, m) && i < |bs| && bs[i].used
    ensures GivenBack(bs, Freed(bs, i), bs[i].off, Next(bs, i, m), m)
  {
    hide Tiled, NoTwoFree, Live, LiveAt, Span, Freed;
    FreedSpan(bs, i, m);
    FreedCovers(bs, i, m);
    var b := Freed(bs, i);
    forall f: nat, e: nat
      ensures Live(b, f, e, m) <==> f != bs[i].off && Live(bs, f, e, m)
    {
      if f != bs[i].off && Live(bs, f, e, m) {
        LiveFreed(bs, i, f, e, m);
      }
      if Live(b, f, e, m) {
        FreedIsOld(bs, i, f, e, m);
      }
    }
    NotLive(b, bs[i].off, m);
  }

  /** mem_free of the live block [o, end) ends exactly its life. */
  lemma FreeEffect(bs: seq<Block>, o: nat, end: nat, m: nat)
    requires WellFormed(bs, m) && Live(bs, o, end, m)
    ensures WellFormed(Step(bs, Free(o), m), m) && GivenBack(bs, Step(bs, Free(o), m), o, end, m)
  {
    hide Tiled, NoTwoFree, Live, LiveAt, Freed, GivenBack;
    var i := Found(bs, o, end, m);
    StepKeeps(bs, Free(o), m);
    FreedEffect(bs, i, m);
  }

  // ----- mem_trim -----

  /** Where the live block [o, end) ends after mem_trim to `size` bytes: at the rounded size
      if that is smaller and leaves room for a block of its own or a free block follows. */
  function TrimEnd(bs: seq<Block>, o: nat, end: nat, size: nat, m: nat): (e: nat)
    ensures e == end || (e == o + HDR + Rounded(size) && e < end)
  {
    var e := o + HDR + Rounded(size);
    if size <= m && e < end && (FreeAt(bs, end) || e + HDR + MIN <= end) then e else end
  }

  lemma FreeBehind(bs: seq<Block>, i: nat, m: nat)
    requires Tiled(bs, m) && i < |bs|
    ensures FreeAt(bs, Next(bs, i, m)) <==> i + 1 < |bs| && !bs[i + 1].used
  {
    if FreeAt(bs, Next(bs, i, m)) {
      var k :| 0 <= k < |bs| && bs[k] == Block(Next(bs, i, m), false);
      assert bs[k].off < m;
      assert !(k < i + 1) && !(i + 1 < k);
    }
    if i + 1 < |bs| && !bs[i + 1].used {
      assert bs[i + 1] == Block(Next(bs, i, m), false);
    }
  }

  /** A live block of a list with a free block inserted behind block `i`. */
  lemma InsertIsOld(bs: seq<Block>, i: nat, b: Block, f: nat, e: nat, m: nat)
    requires Tiled(bs, m) && i < |bs| && bs[i].used && !b.used && Live(InsertAfter(bs, i, b), f, e, m)
    ensures if f == bs[i].off then e == b.off else Live(bs, f, e, m)
  {
    hide InsertAfter;
    var r := InsertAfter(bs, i, b);
    InsertedAt(bs, i, b);
    var k :| 0 <= k < |r| && r[k] == Block(f, true) && Next(r, k, m) == e;
    if k != i {
      var k' := if k < i then k else k - 1;
      assert k' != i && bs[k'] == Block(f, true) && Next(bs, k', m) == e;
      Apart(bs, i, k', m);
    }
  }

  /** A live block of a list in which the free block behind block `i` has moved. */
  lemma MovedIsOld(bs: seq<Block>, i: nat, b: Block, f: nat, e: nat, m: nat)
    requires Tiled(bs, m) && i + 1 < |bs| && bs[i].used && !b.used && Live(bs[i + 1 := b], f, e, m)
    ensures if f == bs[i].off then e == b.off else Live(bs, f, e, m)
  {
    var r := bs[i + 1 := b];
    var k :| 0 <= k < |r| && r[k] == Block(f, true) && Next(r, k, m) == e;
    if k != i {
      assert bs[k] == Block(f, true) && Next(bs, k, m) == e;
      Apart(bs, i, k, m);
    }
  }

  lemma Apart(bs: seq<Block>, i: nat, k: nat, m: nat)
    requires Tiled(bs, m) && i < |bs| && k < |bs| && i != k
    ensures bs[i].off != bs[k].off
  {
    assert i < k || k < i;
  }

  lemma TrimmedPlaced(bs: seq<Block>, i: nat, size: nat, m: nat)
    requires WellFormed(bs, m) && i < |bs| && bs[i].used && MIN <= size < Cap(bs, i, m)
    requires (i + 1 < |bs| && !bs[i + 1].used) || size + HDR + MIN <= Cap(bs, i, m)
    ensures Placed(bs, Trimmed(bs, i, size, m), bs[i].off, bs[i].off + HDR + size, m)
  {
    hide Tiled, NoTwoFree, Live, InsertAfter;
    var moved := i + 1 < |bs| && !bs[i + 1].used;
    var rest := Block(bs[i].off + HDR + size, false);
    var r := if moved then bs[i + 1 := rest] else InsertAfter(bs, i, rest);
    InsertedAt(bs, i, rest);
    assert r[i] == bs[i] && r[i + 1] == rest;
    LiveIndex(r, i, m);
    forall f: nat, e: nat
      ensures Live(r, f, e, m) <==> if f == bs[i].off then e == rest.off else Live(bs, f, e, m)
    {
      if f != bs[i].off && Live(bs, f, e, m) {
        LiveTrimmed(bs, i, size, f, e, m);
      }
      if Live(r, f, e, m) {
        if moved {
          MovedIsOld(bs, i, rest, f, e, m);
        } else {
          InsertIsOld(bs, i, rest, f, e, m);
        }
      }
    }
  }

  lemma SamePlaced(bs: seq<Block>, o: nat, end: nat, m: nat)
    requires Tiled(bs, m) && Live(bs, o, end, m)
    ensures Placed(bs, bs, o, end, m)
  {
    hide Tiled, Live;
    forall f: nat, e: nat
      ensures Live(bs, f, e, m) <==> if f == o then e == end else Live(bs, f, e, m)
    {
      if Live(bs, o, e, m) {
        W.LiveUnique(bs, o, e, end, m);
      }
    }
  }

  /** mem_trim of the live block [o, end) changes exactly its end. */
  lemma TrimEffect(bs: seq<Block>, o: nat, end: nat, size: nat, m: nat)
    requires WellFormed(bs, m) && Live(bs, o, end, m) && size < U16
    ensures var b := Step(bs, Trim(o, size), m);
            && WellFormed(b, m) && Placed(bs, b, o, TrimEnd(bs, o, end, size, m), m)
            && Span(b, 0, m, true) == Span(bs, 0, m, true) - (end - TrimEnd(bs, o, end, size, m))
  {
    hide Tiled, NoTwoFree, Live, LiveAt, Span, Placed, FreeAt;
    var i := Found(bs, o, end, m);
    StepKeeps(bs, Trim(o, size), m);
    FreeBehind(bs, i, m);
    Fits(size, m, bs);
    SamePlaced(bs, o, end, m);
    if size <= m && Rounded(size) <= Cap(bs, i, m) {
      TrimmedSpan(bs, i, Rounded(size), m);
      if TrimEnd(bs, o, end, size, m) != end {
        TrimmedPlaced(bs, i, Rounded(size), m);
        TrimmedSpan(bs, i, Rounded(size), m);
        TrimmedDiffers(bs, i, Rounded(size), m);
      }
    }
  }

  lemma TrimmedDiffers(bs: seq<Block>, i: nat, size: nat, m: nat)
    requires i < |bs| && size < Cap(bs, i, m)
    requires (i + 1 < |bs| && !bs[i + 1].used) || size + HDR + MIN <= Cap(bs, i, m)
    ensures Trimmed(bs, i, size, m) != bs
  {
    var rest := Block(bs[i].off + HDR + size, false);
    if i + 1 < |bs| && !bs[i + 1].used {
      assert Trimmed(bs, i, size, m)[i + 1] == rest != bs[i + 1];
    } else {
      InsertLonger(bs, i, rest);
    }
  }

  lemma Fits(size: nat, m: nat, bs: seq<Block>)
    requires Tiled(bs, m) && size < U16
    ensures Legal(size, m) <==> size <= m
    ensures Legal(size, m) ==> Rounded(size) % ALIGN == 0 && MIN <= Rounded(size)
  {
    LegalExactly(size, m);
  }

  // ----- mem_malloc -----

  lemma TakenIsOld(bs: seq<Block>, i: nat, f: nat, e: nat, m: nat)
    requires Tiled(bs, m) && i < |bs| && Live(SetUsed(bs, i, true), f, e, m)
    ensures if f == bs[i].off then e == Next(bs, i, m) else Live(bs, f, e, m)
  {
    var r := SetUsed(bs, i, true);
    var k :| 0 <= k < |r| && r[k] == Block(f, true) && Next(r, k, m) == e;
    if k != i {
      assert bs[k] == r[k] && Next(bs, k, m) == e;
      assert k < i ==> bs[k].off < bs[i].off;
      assert i < k ==> bs[i].off < bs[k].off;
    }
  }

  /** Where a block that is allocated in the free range [off, hi) ends. */
  function TakenEnd(off: nat, hi: nat, size: nat): nat {
    if off + HDR + size + HDR + MIN <= hi then off + HDR + size else hi
  }

  lemma AllocatedPlaced(bs: seq<Block>, i: nat, size: nat, m: nat)
    requires WellFormed(bs, m) && i < |bs| && !bs[i].used && MIN <= size <= Cap(bs, i, m)
    ensures Placed(bs, Allocated(bs, i, size, m), bs[i].off, TakenEnd(bs[i].off, Next(bs, i, m), size), m)
  {
    hide Tiled, NoTwoFree, Live, InsertAfter;
    var s, r, end := SetUsed(bs, i, true), Allocated(bs, i, size, m), TakenEnd(bs[i].off, Next(bs, i, m), size);
    var rest := Block(bs[i].off + HDR + size, false);
    InsertedAt(s, i, rest);
    assert r[i] == Block(bs[i].off, true) && Next(r, i, m) == end;
    LiveIndex(r, i, m);
    SetUsedTiled(bs, i, true, m);
    forall f: nat, e: nat
      ensures Live(r, f, e, m) <==> if f == bs[i].off then e == end else Live(bs, f, e, m)
    {
      if f != bs[i].off && Live(bs, f, e, m) {
        LiveAllocated(bs, i, size, f, e, m);
      }
      if Live(r, f, e, m) {
        if end != Next(bs, i, m) {
          InsertIsOld(s, i, rest, f, e, m);
        }
        if f != bs[i].off || end == Next(bs, i, m) {
          TakenIsOld(bs, i, f, e, m);
        }
      }
    }
  }

  /** No free block before index `i` has room for `size` bytes. */
  ghost predicate NoneFits(bs: seq<Block>, i: nat, size: nat, m: nat)
    requires i <= |bs|
  {
    forall k :: 0 <= k < i ==> bs[k].used || Cap(bs, k, m) < size
  }

  lemma NoneUsed(bs: seq<Block>, k: nat, size: nat, m: nat)
    requires k <= |bs| && forall j :: 0 <= j < k ==> bs[j].used
    ensures NoneFits(bs, k, size, m)
  {
  }

  lemma NoneMore(bs: seq<Block>, k: nat, size: nat, m: nat)
    requires k < |bs| && NoneFits(bs, k, size, m) && (bs[k].used || Cap(bs, k, m) < size)
    ensures NoneFits(bs, k + 1, size, m)
  {
  }

  lemma NonePast(bs: seq<Block>, k: nat, size: nat, m: nat)
    requires Tiled(bs, m) && k <= |bs| && size <= m && OffAt(bs, k, m) >= m - size && NoneFits(bs, k, size, m)
    ensures NoneFits(bs, |bs|, size, m)
  {
    W.PastBound(bs, k, size, m);
  }

  lemma LowestIsFit(bs: seq<Block>, i: nat, size: nat, m: nat)
    requires i <= |bs| && NoneFits(bs, i, size, m) && (i < |bs| ==> !bs[i].used && Cap(bs, i, m) >= size)
    ensures Fit(bs, 0, size, m) == i
  {
    W.FitFrom(bs, 0, i, size, m);
  }

  /** mem_malloc takes the lowest free block with room for the rounded request, and makes
      live exactly the part of it that the request needs. */
  lemma MallocEffect(bs: seq<Block>, i: nat, size: nat, m: nat)
    requires WellFormed(bs, m) && 0 < size <= m && size < U16
    requires i < |bs| && !bs[i].used && Cap(bs, i, m) >= Rounded(size) && NoneFits(bs, i, Rounded(size), m)
    ensures var b := Step(bs, Malloc(size), m);
            var end := TakenEnd(bs[i].off, Next(bs, i, m), Rounded(size));
            && WellFormed(b, m) && Placed(bs, b, bs[i].off, end, m)
            && Span(b, 0, m, true) == Span(bs, 0, m, true) + (end - bs[i].off)
  {
    hide Tiled, NoTwoFree, Live, Placed, Span, Allocated, NoneFits, Fit;
    StepKeeps(bs, Malloc(size), m);
    Fits(size, m, bs);
    LowestIsFit(bs, i, Rounded(size), m);
    AllocatedPlaced(bs, i, Rounded(size), m);
    AllocatedSpan(bs, i, Rounded(size), m);
  }

  /** Without such a block, or for a request that is empty or larger than the arena, it
      changes nothing. */
  lemma MallocRefused(bs: seq<Block>, size: nat, m: nat)
    requires WellFormed(bs, m) && size < U16
    requires size == 0 || size > m || NoneFits(bs, |bs|, Rounded(size), m)
    ensures Step(bs, Malloc(size), m) == bs
  {
    hide Tiled, NoTwoFree, NoneFits, Fit;
    Fits(size, m, bs);
    if 0 < size <= m {
      LowestIsFit(bs, |bs|, Rounded(size), m);
    }
  }

  // ----- the calls of other contexts -----

  /** What one call that frees or trims does to the live ranges. */
  ghost predicate Effect(b: seq<Block>, b': seq<Block>, op: Op, m: nat)
    requires !op.Malloc?
  {
    var i := LiveAt(b, op.off);
    if i == |b| then b' == b
    else if op.Free? then GivenBack(b, b', op.off, Next(b, i, m), m)
    else Placed(b, b', op.off, TrimEnd(b, op.off, Next(b, i, m), op.size, m), m)
  }

  /** A call in a window has its full effect, unless it is refused or names the held block. */
  lemma WindowEffect(b: seq<Block>, op: Op, hold: int, m: nat)
    requires WellFormed(b, m)
    ensures var b' := W.Window(b, [op], hold, m);
            if op.Malloc? || op.off == hold || !Sized(op) then b' == b else Effect(b, b', op, m)
  {
    hide Tiled, NoTwoFree, Live, LiveAt, GivenBack, Placed, TrimEnd;
    assert [op][..0] == [];
    assert W.Window(b, [], hold, m) == b;
    if !(op.Malloc? || op.off == hold || !Sized(op)) {
      var i := LiveAt(b, op.off);
      LiveAtBound(b, op.off);
      if i < |b| {
        W.OwnedIsLive(b, op.off, m);
        if op.Free? {
          FreeEffect(b, op.off, Next(b, i, m), m);
        } else {
          TrimEffect(b, op.off, Next(b, i, m), op.size, m);
        }
      }
    }
  }

  /** The calls of a window act one after the other. */
  lemma {:induction false} WindowJoin(b: seq<Block>, p: seq<Op>, q: seq<Op>, hold: int, m: nat)
    ensures W.Window(b, p + q, hold, m) == W.Window(W.Window(b, p, hold, m), q, hold, m)
    decreases |q|
  {
    if q == [] {
      assert p + q == p;
    } else {
      assert (p + q)[..|p + q| - 1] == p + q[..|q| - 1];
      WindowJoin(b, p, q[..|q| - 1], hold, m);
    }
  }

  lemma StepLives(b: seq<Block>, op: Op, hold: int, f: nat, m: nat)
    requires WellFormed(b, m)
    ensures var b' := W.WindowStep(b, op, hold, m);
            LiveAt(b', f) < |b'| <==> LiveAt(b, f) < |b| && (f == hold || op != Free(f))
  {
    hide Tiled, NoTwoFree, Live, LiveAt, Step, TrimEnd;
    var b' := W.WindowStep(b, op, hold, m);
    W.OwnedIsLive(b, f, m);
    W.OwnedIsLive(b', f, m);
    LiveAtBound(b, f);
    if !(op.Malloc? || op.off == hold || !Sized(op)) {
      if LiveAt(b, op.off) < |b| {
        W.OwnedIsLive(b, op.off, m);
        var end := Next(b, LiveAt(b, op.off), m);
        if op.Free? {
          FreeEffect(b, op.off, end, m);
        } else {
          TrimEffect(b, op.off, end, op.size, m);
          assert Live(b', op.off, TrimEnd(b, op.off, end, op.size, m), m);
        }
      } else {
        LiveAtBound(b, op.off);
        NothingThere(b, op, m);
      }
    }
  }

  lemma NothingThere(b: seq<Block>, op: Op, m: nat)
    requires !op.Malloc? && LiveAt(b, op.off) == |b|
    ensures Step(b, op, m) == b
  {
  }

  /** While mem_malloc is unprotected, exactly the blocks that other contexts free are lost,
      and never the one it holds. */
  lemma {:induction false} WindowLives(b: seq<Block>, ops: seq<Op>, hold: int, f: nat, m: nat)
    requires WellFormed(b, m)
    ensures var b' := W.Window(b, ops, hold, m);
            LiveAt(b', f) < |b'| <==> LiveAt(b, f) < |b| && (f == hold || Free(f) !in ops)
    decreases |ops|
  {
    hide WellFormed, LiveAt, W.WindowStep;
    if ops != [] {
      var p := ops[..|ops| - 1];
      assert ops == p + [ops[|ops| - 1]];
      WindowLives(b, p, hold, f, m);
      W.WindowKeeps(b, p, hold, m);
      StepLives(W.Window(b, p, hold, m), ops[|ops| - 1], hold, f, m);
    }
  }

  /** The same for a whole stretch of windows. */
  lemma {:induction false} WindowsLive(b: seq<Block>, s: seq<seq<Op>>, lo: nat, hi: nat, hold: int, f: nat, m: nat)
    requires WellFormed(b, m)
    ensures var b' := W.Windows(b, s, lo, hi, hold, m);
            LiveAt(b', f) < |b'| <==>
            LiveAt(b, f) < |b| && (f == hold || forall w :: lo <= w < hi && w < |s| ==> Free(f) !in s[w])
    decreases hi
  {
    hide WellFormed, LiveAt, W.WindowStep;
    if hi > lo {
      WindowsLive(b, s, lo, hi - 1, hold, f, m);
      W.WindowsKeep(b, s, lo, hi - 1, hold, m);
      WindowLives(W.Windows(b, s, lo, hi - 1, hold, m), W.At(s, hi - 1), hold, f, m);
    }
  }

  // ----- freeing in any order -----

  function Frees(offs: seq<nat>): (ops: seq<Op>)
    ensures |ops| == |offs| && forall k :: 0 <= k < |offs| ==> ops[k] == Free(offs[k])
  {
    seq(|offs|, k requires 0 <= k < |offs| => Free(offs[k]))
  }

  lemma FreeNothing(bs: seq<Block>, o: nat, m: nat)
    requires LiveAt(bs, o) == |bs|
    ensures Step(bs, Free(o), m) == bs && Released(bs, bs, o, m)
  {
  }

  /** Frees in any order end the lives of exactly the blocks they name. */
  lemma {:induction false} FreesRun(bs: seq<Block>, offs: seq<nat>, m: nat)
    requires WellFormed(bs, m)
    ensures WellFormed(Run(bs, Frees(offs), m), m)
    ensures forall f: nat, e: nat :: Live(Run(bs, Frees(offs), m), f, e, m) <==> f !in offs && Live(bs, f, e, m)
    decreases |offs|
  {
    hide Tiled, NoTwoFree, Live, LiveAt, Step;
    if offs != [] {
      var o := offs[0];
      var b := Step(bs, Free(o), m);
      if LiveAt(bs, o) < |bs| {
        W.OwnedIsLive(bs, o, m);
        FreeEffect(bs, o, Next(bs, LiveAt(bs, o), m), m);
      } else {
        LiveAtBound(bs, o);
        FreeNothing(bs, o, m);
      }
      assert Frees(offs)[1..] == Frees(offs[1..]);
      assert offs == [o] + offs[1..];
      FreesRun(b, offs[1..], m);
    }
  }

  lemma LiveAtBound(bs: seq<Block>, o: nat)
    ensures LiveAt(bs, o) <= |bs|
  {
  }

  /** Whatever has been allocated, frees in any order lead back to the heap of mem_init
      exactly when they name every live block. */
  lemma FreeAll(bs: seq<Block>, offs: seq<nat>, m: nat)
    requires WellFormed(bs, m)
    ensures Run(bs, Frees(offs), m) == INITIAL <==> forall b :: b in bs && b.used ==> b.off in offs
  {
    hide Tiled, NoTwoFree, Run;
    FreesRun(bs, offs, m);
    var r := Run(bs, Frees(offs), m);
    AllFreeIsInitial(r, m);
    if forall b :: b in bs && b.used ==> b.off in offs {
      forall k | 0 <= k < |r|
        ensures !r[k].used
      {
        if r[k].used {
          LiveIndex(r, k, m);
          assert false;
        }
      }
    }
    if r == INITIAL {
      forall b | b in bs && b.used
        ensures b.off in offs
      {
        var k :| 0 <= k < |bs| && bs[k] == b;
        LiveIndex(bs, k, m);
        assert !Live(r, b.off, Next(bs, k, m), m);
      }
    }
  }
}
