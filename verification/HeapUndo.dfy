/** A sound heap is determined by what is allocated in it, so a release undoes an allocation,
    and the order of releases does not matter. */
module HeapUndo {
  import opened Words
  import opened HeapSpec
  import opened HeapProofs

  // ---- One tiling for each list of allocated blocks ----

  lemma UsedFirst(ts: seq<Tile>, at: nat)
    requires ts != []
    ensures !ts[0].free ==>
      Blocks(ts, at, false) == [Block(at, ts[0].size)] + Blocks(ts[1..], at + H + ts[0].size, false)
    ensures ts[0].free ==> Blocks(ts, at, false) == Blocks(ts[1..], at + H + ts[0].size, false)
    ensures ts[0].free && Blocks(ts, at, false) != [] ==> Blocks(ts, at, false)[0].at >= at + H + ts[0].size
    ensures Total(ts) == H + ts[0].size + Total(ts[1..])
  {
    BlocksWithin(ts[1..], at + H + ts[0].size, false);
  }

  lemma CoalescedRest(ts: seq<Tile>)
    requires Coalesced(ts) && ts != []
    ensures Coalesced(ts[1..]) && (ts[0].free && |ts| > 1 ==> !ts[1].free)
  {
    assert forall i :: 0 <= i < |ts[1..]| ==> ts[1..][i] == ts[i + 1];
    if |ts| > 1 { assert !(ts[0].free && ts[0 + 1].free); }
  }

  /** A free tile ends where the first allocated block begins, or where the arena ends. */
  lemma FreeEnd(ts: seq<Tile>, at: nat)
    requires ts != [] && ts[0].free && Coalesced(ts)
    ensures var bs := Blocks(ts, at, false);
      at + H + ts[0].size == if bs == [] then at + Total(ts) else bs[0].at
  {
    CoalescedRest(ts);
    UsedFirst(ts, at);
    if |ts| > 1 { UsedFirst(ts[1..], at + H + ts[0].size); }
  }

  lemma {:induction false} SameTiles(a: seq<Tile>, b: seq<Tile>, at: nat)
    requires Coalesced(a) && Coalesced(b) && Total(a) == Total(b) && Blocks(a, at, false) == Blocks(b, at, false)
    ensures a == b
    decreases |a|
  {
    hide Coalesced, Blocks;
    if a != [] && b != [] {
      CoalescedRest(a);
      CoalescedRest(b);
      UsedFirst(a, at);
      UsedFirst(b, at);
      if a[0].free { FreeEnd(a, at); }
      if b[0].free { FreeEnd(b, at); }
      assert a[0] == b[0];
      var rest, used := Blocks(a[1..], at + H + a[0].size, false), Blocks(a, at, false);
      assert !a[0].free ==> rest == used[1..] && Blocks(b[1..], at + H + b[0].size, false) == used[1..];
      SameTiles(a[1..], b[1..], at + H + a[0].size);
    }
  }

  /** Two sound heaps in one arena with the same blocks allocated are the same. */
  lemma UsedDetermines(g: HeapState, h: HeapState, base: nat, arena: u32)
    requires Sound(g, base, arena) && Sound(h, base, arena) && g.used == h.used
    ensures g == h
  {
    hide Blocks, Total, Bytes, Coalesced;
    var a: seq<Tile> :| Tiles(g, base, arena, a);
    var b: seq<Tile> :| Tiles(h, base, arena, b);
    SameTiles(a, b, base);
  }

  // ---- Blocks of users ----

  /** Allocated blocks lie inside the arena, in order, and no two of them overlap; neither do
      they overlap a free one. */
  lemma UsersApart(h: HeapState, base: nat, arena: u32)
    requires Sound(h, base, arena)
    ensures forall i :: 0 <= i < |h.used| ==> base <= h.used[i].at && End(h.used[i]) <= base + arena
    ensures forall i, j :: 0 <= i < j < |h.used| ==> End(h.used[i]) <= h.used[j].at
    ensures forall i, j :: 0 <= i < |h.used| && 0 <= j < |h.free| ==>
      End(h.used[i]) <= h.free[j].at || End(h.free[j]) <= h.used[i].at
  {
    hide Blocks, Total, Bytes, Coalesced;
    var ts: seq<Tile> :| Tiles(h, base, arena, ts);
    BlocksWithin(ts, base, false);
    forall i, j | 0 <= i < |h.used| && 0 <= j < |h.free|
      ensures End(h.used[i]) <= h.free[j].at || End(h.free[j]) <= h.used[i].at
    {
      FreeApart(ts, base, j, i);
    }
  }

  lemma FreeApart(ts: seq<Tile>, base: nat, j: nat, i: nat)
    requires j < |Blocks(ts, base, true)| && i < |Blocks(ts, base, false)|
    ensures var f, u := Blocks(ts, base, true)[j], Blocks(ts, base, false)[i]; End(u) <= f.at || End(f) <= u.at
  {
    hide Blocks, Total, Bytes;
    var k := TileOf(ts, base, true, j);
    var l, r := ts[..k], ts[k + 1..];
    assert ts == l + [ts[k]] + r;
    CutBoth(l, ts[k], r, base);
    BlocksWithin(l, base, false);
    BlocksWithin(r, base + Total(l) + H + ts[k].size, false);
  }

  // ---- Allocation and release ----

  lemma {:induction false} InsertHas(bs: seq<Block>, b: Block)
    requires forall i :: 0 <= i < |bs| ==> bs[i].at != b.at
    ensures IndexOf(Insert(bs, b), b.at) < |bs| + 1 && Remove(Insert(bs, b), IndexOf(Insert(bs, b), b.at)) == bs
    decreases |bs|
  {
    hide Remove;
    if bs != [] && b.at >= bs[0].at {
      InsertHas(bs[1..], b);
      RemoveBehind(bs[0], Insert(bs[1..], b), b.at);
      assert bs == [bs[0]] + bs[1..];
    } else {
      RemoveFirst(b, bs);
    }
  }

  /** Releasing what has just been allocated gives the heap back as it was, free list and
      counters included. */
  lemma FreeUndoesMalloc(h: HeapState, base: nat, arena: u32, n: nat)
    requires Sound(h, base, arena) && Fits(h, n) && MallocResult(h, n) != 0
    ensures var at := MallocResult(h, n) - H;
      && at >= 0 && Block(at, n) in Malloc(h, n).used
      && Allocated(Malloc(h, n), at) && Free(Malloc(h, n), at) == h
  {
    hide Insert, Remove, IndexOf, Sound, Free, Fits, FirstFit;
    var k := FirstFit(h.free, n);
    var at := h.free[k].at;
    UsersApart(h, base, arena);
    forall i | 0 <= i < |h.used| ensures h.used[i].at != at {
      assert End(h.used[i]) <= h.free[k].at || End(h.free[k]) <= h.used[i].at;
    }
    InsertHas(h.used, Block(at, n));
    InsertedAt(h.used, Block(at, n));
    MallocKeeps(h, base, arena, n);
    FreeKeeps(Malloc(h, n), base, arena, at);
    FreedUsed(Malloc(h, n), at);
    UsedDetermines(Free(Malloc(h, n), at), h, base, arena);
  }

  lemma FreedUsed(h: HeapState, at: nat)
    requires Allocated(h, at)
    ensures Free(h, at).used == Remove(h.used, IndexOf(h.used, at))
  {
    hide Insert, ScanBack, MergeForward, IndexOf, Remove;
    InsertedAt(h.used, h.used[IndexOf(h.used, at)]);
  }

  lemma {:induction false} RemoveTwice(bs: seq<Block>, a: nat, b: nat)
    requires bs != [] && a != b && IndexOf(bs, a) < |bs| && IndexOf(bs, b) < |bs|
    ensures var x, y := Remove(bs, IndexOf(bs, a)), Remove(bs, IndexOf(bs, b));
      && IndexOf(x, b) < |x| && IndexOf(y, a) < |y| && Remove(x, IndexOf(x, b)) == Remove(y, IndexOf(y, a))
    decreases |bs|
  {
    hide Remove, IndexOf;
    var rest := bs[1..];
    assert bs == [bs[0]] + rest;
    RemoveFirst(bs[0], rest);
    if bs[0].at != a { RemoveBehind(bs[0], rest, a); }
    if bs[0].at != b { RemoveBehind(bs[0], rest, b); }
    if bs[0].at == a {
      RemoveFirst(bs[0], Remove(rest, IndexOf(rest, b)));
    } else if bs[0].at == b {
      RemoveFirst(bs[0], Remove(rest, IndexOf(rest, a)));
    } else {
      RemoveTwice(rest, a, b);
      RemoveBehind(bs[0], Remove(rest, IndexOf(rest, a)), b);
      RemoveBehind(bs[0], Remove(rest, IndexOf(rest, b)), a);
    }
  }

  lemma RemoveFirst(x: Block, bs: seq<Block>)
    ensures IndexOf([x] + bs, x.at) == 0 && Remove([x] + bs, 0) == bs
  {
  }

  lemma RemoveBehind(x: Block, bs: seq<Block>, at: nat)
    requires x.at != at && IndexOf(bs, at) < |bs|
    ensures IndexOf([x] + bs, at) == 1 + IndexOf(bs, at) < |bs| + 1 && |Remove(bs, IndexOf(bs, at))| == |bs| - 1
    ensures Remove([x] + bs, IndexOf([x] + bs, at)) == [x] + Remove(bs, IndexOf(bs, at))
  {
    hide Remove;
    assert ([x] + bs)[1..] == bs;
    RemoveNext(x, bs, IndexOf(bs, at));
  }

  lemma RemoveNext(x: Block, bs: seq<Block>, k: nat)
    requires k < |bs|
    ensures Remove([x] + bs, k + 1) == [x] + Remove(bs, k) && |Remove(bs, k)| == |bs| - 1
  {
    assert ([x] + bs)[..k + 1] == [x] + bs[..k] && ([x] + bs)[k + 2..] == bs[k + 1..];
  }

  /** Two blocks may be released in either order. */
  lemma FreesCommute(h: HeapState, base: nat, arena: u32, a: nat, b: nat)
    requires Sound(h, base, arena) && Allocated(h, a) && Allocated(h, b) && a != b
    ensures Allocated(Free(h, a), b) && Allocated(Free(h, b), a)
    ensures Free(Free(h, a), b) == Free(Free(h, b), a)
  {
    hide Sound, Free, Remove, IndexOf;
    RemoveTwice(h.used, a, b);
    FreedUsed(h, a);
    FreedUsed(h, b);
    FreedUsed(Free(h, a), b);
    FreedUsed(Free(h, b), a);
    FreeKeeps(h, base, arena, a);
    FreeKeeps(h, base, arena, b);
    FreeKeeps(Free(h, a), base, arena, b);
    FreeKeeps(Free(h, b), base, arena, a);
    UsedDetermines(Free(Free(h, a), b), Free(Free(h, b), a), base, arena);
  }
}
