/** What allocation and release do to the tiling, over one call and over whole runs. */
module HeapProofs {
  import opened Words
  import opened HeapSpec

  /** The block at tile boundary `l` sorts between the blocks of the tiles left of it and
      the blocks of the tiles right of it. */
  lemma InsertTile(l: seq<Tile>, r: seq<Tile>, base: nat, gap: nat, free: bool, b: Block)
    requires base + Total(l) <= b.at < base + Total(l) + gap
    ensures Insert(Blocks(l, base, free) + Blocks(r, base + Total(l) + gap, free), b)
         == Blocks(l, base, free) + [b] + Blocks(r, base + Total(l) + gap, free)
  {
    BlocksWithin(l, base, free);
    BlocksWithin(r, base + Total(l) + gap, free);
    InsertBetween(Blocks(l, base, free), b, Blocks(r, base + Total(l) + gap, free));
  }

  lemma CutBoth(l: seq<Tile>, t: Tile, r: seq<Tile>, base: nat)
    ensures Total(l + [t] + r) == Total(l) + H + t.size + Total(r)
    ensures Blocks(l + [t] + r, base, true)
         == Blocks(l, base, true) + Single(t, base + Total(l), true) + Blocks(r, base + Total(l) + H + t.size, true)
    ensures Blocks(l + [t] + r, base, false)
         == Blocks(l, base, false) + Single(t, base + Total(l), false) + Blocks(r, base + Total(l) + H + t.size, false)
    ensures Bytes(l + [t] + r, true) == Bytes(l, true) + (if t.free then t.size else 0) + Bytes(r, true)
  {
    Cut(l, t, r, base, true);
    Cut(l, t, r, base, false);
  }

  lemma CoalescedCut(l: seq<Tile>, m: seq<Tile>, r: seq<Tile>)
    ensures Coalesced(l + m + r) ==> Coalesced(l) && Coalesced(r) && Coalesced(m)
    ensures m != [] ==> (Coalesced(l + m + r) <==>
      && Coalesced(l) && Coalesced(m) && Coalesced(r)
      && !(l != [] && l[|l| - 1].free && m[0].free)
      && !(r != [] && r[0].free && m[|m| - 1].free))
  {
    var ts := l + m + r;
    if Coalesced(ts) {
      forall i | 0 <= i < |l| - 1 ensures !(l[i].free && l[i + 1].free) {
        assert ts[i] == l[i] && ts[i + 1] == l[i + 1];
      }
      forall i | 0 <= i < |m| - 1 ensures !(m[i].free && m[i + 1].free) {
        assert ts[|l| + i] == m[i] && ts[|l| + i + 1] == m[i + 1];
      }
      forall i | 0 <= i < |r| - 1 ensures !(r[i].free && r[i + 1].free) {
        assert ts[|l| + |m| + i] == r[i] && ts[|l| + |m| + i + 1] == r[i + 1];
      }
      if m != [] && l != [] { assert ts[|l| - 1] == l[|l| - 1] && ts[|l| - 1 + 1] == m[0]; }
      if m != [] && r != [] { assert ts[|l| + |m| - 1] == m[|m| - 1] && ts[|l| + |m| - 1 + 1] == r[0]; }
    }
  }

  /** Replacing a tile by others keeps a tiling coalesced if no two free tiles meet. */
  lemma Recoalesce(l: seq<Tile>, t: Tile, r: seq<Tile>, m: seq<Tile>)
    requires Coalesced(l + [t] + r)
    requires |m| == 1 || (|m| == 2 && !m[0].free)
    requires m[0].free ==> !EndsFree(l)
    requires m[|m| - 1].free ==> !StartsFree(r)
    ensures Coalesced(l + m + r)
  {
    CoalescedCut(l, [t], r);
    CoalescedCut(l, m, r);
  }

  lemma NextToFree(l: seq<Tile>, t: Tile, r: seq<Tile>)
    requires Coalesced(l + [t] + r) && t.free
    ensures !EndsFree(l) && !StartsFree(r)
  {
    CoalescedCut(l, [t], r);
  }

  ghost predicate EndsFree(l: seq<Tile>) { l != [] && l[|l| - 1].free }

  ghost predicate StartsFree(r: seq<Tile>) { r != [] && r[0].free }

  lemma WrapId(x: int)
    requires 0 <= x < TWO32
    ensures Wrap(x) == x
  {
  }

  lemma WrapNegative(x: int)
    requires -TWO32 <= x < 0
    ensures Wrap(x) == x + TWO32
  {
  }

  /** Allocation that takes a whole block. */
  lemma MallocExact(h: HeapState, base: nat, arena: u32, l: seq<Tile>, n: nat, r: seq<Tile>)
    requires Tiles(h, base, arena, l + [Tile(n, true)] + r)
    requires FirstFit(h.free, n) == |Blocks(l, base, true)|
    ensures Tiles(Malloc(h, n), base, arena, l + [Tile(n, false)] + r)
  {
    hide Blocks, Total, Bytes, Insert, FirstFit, Coalesced, Wrap;
    var at := base + Total(l);
    CutBoth(l, Tile(n, true), r, base);
    CutBoth(l, Tile(n, false), r, base);
    InsertTile(l, r, base, H + n, false, Block(at, n));
    NextToFree(l, Tile(n, true), r);
    Recoalesce(l, Tile(n, true), r, [Tile(n, false)]);
    Conservation(l + [Tile(n, true)] + r);
    WrapId(h.freemem - n);
    var fl, fr := Blocks(l, base, true), Blocks(r, at + H + n, true);
    assert h.free == fl + [Block(at, n)] + fr && Remove(h.free, |fl|) == fl + fr;
    assert fl + [] + fr == fl + fr;
    assert h.used == Blocks(l, base, false) + Blocks(r, at + H + n, false);
  }

  /** The two lists around a tile that is replaced by a used one and a free one. */
  lemma CutSplit(l: seq<Tile>, n: nat, m: nat, r: seq<Tile>, base: nat)
    ensures var ts := l + [Tile(n, false), Tile(m, true)] + r;
      var at := base + Total(l);
      && Total(ts) == Total(l) + H + n + H + m + Total(r)
      && Blocks(ts, base, true) == Blocks(l, base, true) + [Block(at + H + n, m)] + Blocks(r, at + H + n + H + m, true)
      && Blocks(ts, base, false) == Blocks(l, base, false) + [Block(at, n)] + Blocks(r, at + H + n + H + m, false)
      && Bytes(ts, true) == Bytes(l, true) + m + Bytes(r, true)
  {
    hide Blocks, Total, Bytes;
    var at, rest := base + Total(l), Tile(m, true);
    CutBoth(l, Tile(n, false), [rest] + r, base);
    CutBoth([], rest, r, at + H + n);
    assert [] + [rest] + r == [rest] + r;
    assert l + [Tile(n, false), rest] + r == l + [Tile(n, false)] + ([rest] + r);
    EmptyTiles(at + H + n);
    assert Total([]) == 0 && Bytes([], true) == 0;
    assert Blocks([], at + H + n, true) == [] && Blocks([], at + H + n, false) == [];
    var fl, fr := Blocks(l, base, true), Blocks(r, at + H + n + H + m, true);
    assert fl + [] + ([] + [Block(at + H + n, m)] + fr) == fl + [Block(at + H + n, m)] + fr;
    var ul, ur := Blocks(l, base, false), Blocks(r, at + H + n + H + m, false);
    assert ul + [Block(at, n)] + ([] + [] + ur) == ul + [Block(at, n)] + ur;
  }

  lemma EmptyTiles(at: nat)
    ensures Total([]) == 0 && Bytes([], true) == 0 && Blocks([], at, true) == [] && Blocks([], at, false) == []
  {
  }

  /** The lists and counters after a split, in terms of what lies left and right. */
  lemma SplitState(h: HeapState, n: nat, at: nat, size: nat, fl: seq<Block>, fr: seq<Block>, used: seq<Block>)
    requires n + H <= size && h.free == fl + [Block(at, size)] + fr && FirstFit(h.free, n) == |fl|
    requires Insert(fl + fr, Block(at + H + n, size - H - n)) == fl + [Block(at + H + n, size - H - n)] + fr
    requires Insert(h.used, Block(at, n)) == used
    requires size <= h.freemem < TWO32 && h.totalnodes + 1 < TWO32
    ensures Malloc(h, n) == h.(free := fl + [Block(at + H + n, size - H - n)] + fr, used := used,
                               freemem := h.freemem - H - n, totalnodes := h.totalnodes + 1)
  {
    hide Insert, FirstFit, Wrap;
    WrapId(size - H - n);
    WrapId(h.freemem - H - n);
    WrapId(h.totalnodes + 1);
    assert Remove(h.free, |fl|) == fl + fr;
  }

  /** Allocation that splits a block, leaving a free remainder. */
  lemma MallocSplit(h: HeapState, base: nat, arena: u32, l: seq<Tile>, size: nat, n: nat, r: seq<Tile>)
    requires Tiles(h, base, arena, l + [Tile(size, true)] + r) && size >= n + H
    requires FirstFit(h.free, n) == |Blocks(l, base, true)|
    ensures Tiles(Malloc(h, n), base, arena, l + [Tile(n, false), Tile(size - H - n, true)] + r)
  {
    hide Blocks, Total, Bytes, Insert, FirstFit, Coalesced, Wrap, Malloc;
    var at, m := base + Total(l), size - H - n;
    CutBoth(l, Tile(size, true), r, base);
    CutSplit(l, n, m, r, base);
    InsertTile(l, r, base, H + size, false, Block(at, n));
    InsertTile(l, r, base, H + size, true, Block(at + H + n, m));
    NextToFree(l, Tile(size, true), r);
    Recoalesce(l, Tile(size, true), r, [Tile(n, false), Tile(m, true)]);
    Conservation(l + [Tile(size, true)] + r);
    Conservation(l + [Tile(n, false), Tile(m, true)] + r);
    var fl, fr := Blocks(l, base, true), Blocks(r, at + H + size, true);
    var ul, ur := Blocks(l, base, false), Blocks(r, at + H + size, false);
    assert ul + [] + ur == ul + ur;
    SplitState(h, n, at, size, fl, fr, ul + [Block(at, n)] + ur);
  }

  /** One allocation keeps the heap sound when the split it makes, if any, has room. */
  lemma MallocKeeps(h: HeapState, base: nat, arena: u32, n: nat)
    requires Sound(h, base, arena) && Fits(h, n)
    ensures Sound(Malloc(h, n), base, arena)
  {
    hide Blocks, Total, Bytes, Insert, Coalesced, Wrap;
    var ts: seq<Tile> :| Tiles(h, base, arena, ts);
    var i := FirstFit(h.free, n);
    if i < |h.free| {
      var k := TileOf(ts, base, true, i);
      var l, r := ts[..k], ts[k + 1..];
      assert ts == l + [ts[k]] + r && ts[k] == Tile(h.free[i].size, true);
      if h.free[i].size == n {
        MallocExact(h, base, arena, l, n, r);
      } else {
        MallocSplit(h, base, arena, l, h.free[i].size, n, r);
      }
    }
  }

  /** A block can never be as large as the size that a split without room computes. */
  lemma UnderflowUnsound(h: HeapState, base: nat, arena: u32, n: nat)
    requires Sound(h, base, arena) && !Fits(h, n)
    ensures !Sound(Malloc(h, n), base, arena)
  {
    hide Blocks, Total, Bytes, Insert, Coalesced, FirstFit, Wrap;
    var i := FirstFit(h.free, n);
    var b, g := h.free[i], Malloc(h, n);
    InsertedAt(Remove(h.free, i), Remnant(b, n));
    var ts: seq<Tile> :| Tiles(h, base, arena, ts);
    BlocksWithin(ts, base, true);
    WrapNegative(b.size - H - n);
    var j :| 0 <= j < |g.free| && g.free[j] == Remnant(b, n);
    forall us: seq<Tile> ensures !Tiles(g, base, arena, us) {
      BlocksWithin(us, base, true);
      if |Blocks(us, base, true)| > j {
        assert End(Blocks(us, base, true)[j]) <= base + Total(us);
      }
    }
  }

  /** It happens in a fresh arena of 124 bytes: its block of 100 bytes is large enough for
      90, but not for a header besides. */
  lemma UnderflowHappens(base: nat)
    requires base > 0
    ensures var h := Initial(base, 124);
      Sound(h, base, 124) && !Fits(h, 90) && Malloc(h, 90).free == [Block(base + 114, TWO32 - 14)]
    ensures !Sound(Malloc(Initial(base, 124), 90), base, 124)
  {
    hide Sound;
    InitialSound(base, 124);
    var h := Initial(base, 124);
    assert FirstFit(h.free, 90) == 0 && Remove(h.free, 0) == [];
    UnderflowUnsound(h, base, 124, 90);
  }

  /** The split theorem: from a sound heap, an allocation leaves a sound heap if and only
      if the first block that is large enough fits exactly or has room for a header. */
  lemma SplitIff(h: HeapState, base: nat, arena: u32, n: nat)
    requires Sound(h, base, arena)
    ensures Sound(Malloc(h, n), base, arena) <==> Fits(h, n)
  {
    if Fits(h, n) { MallocKeeps(h, base, arena, n); } else { UnderflowUnsound(h, base, arena, n); }
  }

  // ---- Release ----

  lemma {:induction false} IndexOfSplit(a: seq<Block>, b: Block, c: seq<Block>)
    requires forall i :: 0 <= i < |a| ==> a[i].at != b.at
    ensures IndexOf(a + [b] + c, b.at) == |a|
  {
    if a != [] {
      assert (a + [b] + c)[1..] == a[1..] + [b] + c;
      IndexOfSplit(a[1..], b, c);
    }
  }

  /** Left of a used tile no free block reaches up to the next tile. */
  lemma GapLeft(l: seq<Tile>, base: nat)
    requires !EndsFree(l)
    ensures var fl := Blocks(l, base, true); fl != [] ==> End(fl[|fl| - 1]) < base + Total(l)
  {
    if l != [] {
      var m := l[..|l| - 1];
      Cut(m, l[|l| - 1], [], base, true);
      assert l == m + [l[|l| - 1]] + [];
      BlocksWithin(m, base, true);
    }
  }

  lemma GapRight(r: seq<Tile>, at: nat)
    requires !StartsFree(r)
    ensures var fr := Blocks(r, at, true); fr != [] ==> at < fr[0].at
  {
    if r != [] {
      BlocksWithin(r[1..], at + H + r[0].size, true);
    }
  }

  /** The first half of a release: the block moves from one list to its place in the other. */
  lemma Released(h: HeapState, base: nat, arena: u32, l: seq<Tile>, z: nat, r: seq<Tile>) returns (fl: seq<Block>,
                 fr: seq<Block>)
    requires Tiles(h, base, arena, l + [Tile(z, false)] + r)
    ensures fl == Blocks(l, base, true) && fr == Blocks(r, base + Total(l) + H + z, true)
    ensures Allocated(h, base + Total(l))
    ensures var i := IndexOf(h.used, base + Total(l));
      && h.used[i] == Block(base + Total(l), z)
      && Remove(h.used, i) == Blocks(l, base, false) + Blocks(r, base + Total(l) + H + z, false)
    ensures Insert(h.free, Block(base + Total(l), z)) == fl + [Block(base + Total(l), z)] + fr
    ensures IndexOf(fl + [Block(base + Total(l), z)] + fr, base + Total(l)) == |fl|
  {
    hide Blocks, Total, Bytes, Insert, IndexOf, Coalesced;
    var at := base + Total(l);
    fl, fr := Blocks(l, base, true), Blocks(r, at + H + z, true);
    var ul, ur := Blocks(l, base, false), Blocks(r, at + H + z, false);
    Cut(l, Tile(z, false), r, base, true);
    Cut(l, Tile(z, false), r, base, false);
    BlocksWithin(l, base, false);
    BlocksWithin(l, base, true);
    IndexOfSplit(ul, Block(at, z), ur);
    IndexOfSplit(fl, Block(at, z), fr);
    assert h.used == ul + [Block(at, z)] + ur && Remove(h.used, |ul|) == ul + ur;
    InsertTile(l, r, base, H + z, true, Block(at, z));
    assert fl + [] + fr == fl + fr;
  }

  lemma JoinStep(a: seq<Block>, b: Block, y: Block, c: seq<Block>)
    requires End(b) == y.at && End(y) < b.at + TWO32
    ensures MergeForward(a + [b, y] + c, |a|) == MergeForward(a + [Block(b.at, End(y) - b.at - H)] + c, |a|)
  {
    var s := a + [b, y] + c;
    assert s[|a|] == b && s[|a| + 1] == y;
    assert s[..|a|] == a && s[|a| + 2..] == c;
    WrapId(b.size + y.size + H);
    assert JoinOne(s, |a|) == a + [Block(b.at, End(y) - b.at - H)] + c;
    hide Wrap, ScanBack, JoinOne, End;
  }

  lemma JoinDone(a: seq<Block>, b: Block, c: seq<Block>)
    requires c != [] ==> c[0].at != End(b)
    ensures MergeForward(a + [b] + c, |a|) == a + [b] + c
  {
    var s := a + [b] + c;
    assert s[|a|] == b && (c != [] ==> s[|a| + 1] == c[0]);
  }

  lemma ScanDone(a: seq<Block>, b: Block, c: seq<Block>)
    requires a != [] ==> End(a[|a| - 1]) != b.at
    ensures ScanBack(a + [b] + c, |a|) == |a|
  {
    var s := a + [b] + c;
    assert s[|a|] == b && (a != [] ==> s[|a| - 1] == a[|a| - 1]);
  }

  lemma ScanStep(a: seq<Block>, x: Block, b: Block, c: seq<Block>)
    requires End(x) == b.at && (a != [] ==> End(a[|a| - 1]) != x.at)
    ensures ScanBack(a + [x, b] + c, |a| + 1) == |a|
  {
    var s := a + [x, b] + c;
    assert s[|a| + 1] == b && s[|a|] == x;
    assert s == a + [x] + ([b] + c);
    ScanDone(a, x, [b] + c);
  }

  lemma Snoc(l: seq<Tile>, t: Tile, base: nat)
    ensures Total(l + [t]) == Total(l) + H + t.size
    ensures Bytes(l + [t], true) == Bytes(l, true) + (if t.free then t.size else 0)
    ensures forall free: bool :: Blocks(l + [t], base, free) == Blocks(l, base, free) + Single(t, base + Total(l), free)
  {
    hide Blocks, Total, Bytes;
    assert l + [t] + [] == l + [t];
    CutBoth(l, t, [], base);
    EmptyTiles(base + Total(l) + H + t.size);
    forall free: bool ensures Blocks(l + [t], base, free) == Blocks(l, base, free) + Single(t, base + Total(l), free) {
      assert Blocks(l, base, free) + Single(t, base + Total(l), free) + []
         == Blocks(l, base, free) + Single(t, base + Total(l), free);
    }
  }

  lemma Cons(t: Tile, r: seq<Tile>, at: nat)
    ensures Total([t] + r) == H + t.size + Total(r)
    ensures Bytes([t] + r, true) == (if t.free then t.size else 0) + Bytes(r, true)
    ensures forall free: bool :: Blocks([t] + r, at, free) == Single(t, at, free) + Blocks(r, at + H + t.size, free)
  {
    assert ([t] + r)[1..] == r && ([t] + r)[0] == t;
  }

  /** The second half of a release: the list after merging is the free blocks of a tiling
      in which `count` tiles fewer cover the same bytes. */
  lemma Merged(h: HeapState, base: nat, arena: u32, l: seq<Tile>, z: nat, r: seq<Tile>, us: seq<Tile>, j: nat)
    requires Tiles(h, base, arena, l + [Tile(z, false)] + r) && Coalesced(us)
    requires Total(us) == arena && |us| <= |l| + 1 + |r|
    requires Blocks(us, base, false) == Blocks(l, base, false) + Blocks(r, base + Total(l) + H + z, false)
    requires Bytes(us, true) == Bytes(l, true) + z + Bytes(r, true) + H * (|l| + 1 + |r| - |us|)
    requires var fl, fr := Blocks(l, base, true), Blocks(r, base + Total(l) + H + z, true);
      var listed := fl + [Block(base + Total(l), z)] + fr;
      && ScanBack(listed, |fl|) == j && MergeForward(listed, j) == Blocks(us, base, true)
      && |listed| - |Blocks(us, base, true)| == |l| + 1 + |r| - |us|
    ensures Allocated(h, base + Total(l)) && Tiles(Free(h, base + Total(l)), base, arena, us)
  {
    hide Blocks, Total, Bytes, Insert, ScanBack, MergeForward, IndexOf, Coalesced, Wrap;
    var fl, fr := Released(h, base, arena, l, z, r);
    CutBoth(l, Tile(z, false), r, base);
    var joined := |l| + 1 + |r| - |us|;
    Conservation(us);
    Conservation(l + [Tile(z, false)] + r);
    WrapId(h.freemem + z + H * joined);
    WrapId(h.totalnodes - joined);
  }

  lemma Facts(h: HeapState, base: nat, arena: u32, ts: seq<Tile>)
    requires Tiles(h, base, arena, ts)
    ensures Total(ts) == arena && Coalesced(ts)
  {
  }

  /** Release between two tiles that are not free: nothing merges. */
  lemma FreeAlone(h: HeapState, base: nat, arena: u32, l: seq<Tile>, z: nat, r: seq<Tile>)
    requires Tiles(h, base, arena, l + [Tile(z, false)] + r) && !EndsFree(l) && !StartsFree(r)
    ensures Allocated(h, base + Total(l))
    ensures Tiles(Free(h, base + Total(l)), base, arena, l + [Tile(z, true)] + r)
  {
    hide Blocks, Total, Bytes, Insert, ScanBack, MergeForward, IndexOf, Coalesced, Wrap, Allocated, Free, Tiles;
    var at := base + Total(l);
    Facts(h, base, arena, l + [Tile(z, false)] + r);
    var fl, fr := Blocks(l, base, true), Blocks(r, at + H + z, true);
    var listed := fl + [Block(at, z)] + fr;
    assert ScanBack(listed, |fl|) == |fl| && MergeForward(listed, |fl|) == listed by {
      GapLeft(l, base);
      GapRight(r, at + H + z);
      ScanDone(fl, Block(at, z), fr);
      JoinDone(fl, Block(at, z), fr);
    }
    CutBoth(l, Tile(z, false), r, base);
    CutBoth(l, Tile(z, true), r, base);
    Recoalesce(l, Tile(z, false), r, [Tile(z, true)]);
    assert Blocks(l, base, false) + [] + Blocks(r, at + H + z, false)
       == Blocks(l, base, false) + Blocks(r, at + H + z, false);
    var us := l + [Tile(z, true)] + r;
    Merged(h, base, arena, l, z, r, us, |fl|);
  }

  /** Release next to a free tile on the left. */
  lemma {:induction false} FreeLeft(h: HeapState, base: nat, arena: u32, l: seq<Tile>, x: nat, z: nat, r: seq<Tile>)
    requires Tiles(h, base, arena, l + [Tile(x, true)] + [Tile(z, false)] + r) && !StartsFree(r)
    ensures var at := base + Total(l + [Tile(x, true)]);
      Allocated(h, at) && Tiles(Free(h, at), base, arena, l + [Tile(x + H + z, true)] + r)
  {
    hide Blocks, Total, Bytes, Insert, ScanBack, MergeForward, IndexOf, Coalesced, Wrap, Allocated, Free, Tiles;
    var m := l + [Tile(x, true)];
    var at, us := base + Total(m), l + [Tile(x + H + z, true)] + r;
    Facts(h, base, arena, m + [Tile(z, false)] + r);
    Snoc(l, Tile(x, true), base);
    CutBoth(m, Tile(z, false), r, base);
    CutBoth(l, Tile(x + H + z, true), r, base);
    assert m + [Tile(z, false)] + r == l + [Tile(x, true)] + ([Tile(z, false)] + r);
    NextToFree(l, Tile(x, true), [Tile(z, false)] + r);
    CoalescedCut(m, [Tile(z, false)], r);
    CoalescedCut(l, [Tile(x, true)], []);
    assert l + [Tile(x, true)] + [] == m;
    CoalescedCut(l, [Tile(x + H + z, true)], r);
    CoalescedOne(Tile(x + H + z, true));
    GapLeft(l, base);
    GapRight(r, at + H + z);
    var a, fr := Blocks(l, base, true), Blocks(r, at + H + z, true);
    var xb, zb := Block(base + Total(l), x), Block(at, z);
    assert a + [xb] + [zb] + fr == a + [xb, zb] + fr;
    Conservation(m + [Tile(z, false)] + r);
    ScanStep(a, xb, zb, fr);
    JoinStep(a, xb, zb, fr);
    JoinDone(a, Block(xb.at, x + H + z), fr);
    Emptied(l, r, base, at + H + z);
    Merged(h, base, arena, m, z, r, us, |a|);
  }

  lemma CoalescedOne(t: Tile)
    ensures Coalesced([t])
  {
  }

  /** Used blocks are untouched by what happens to free tiles between them. */
  lemma Emptied(l: seq<Tile>, r: seq<Tile>, base: nat, at: nat)
    ensures Blocks(l, base, false) + [] + Blocks(r, at, false) == Blocks(l, base, false) + Blocks(r, at, false)
    ensures Blocks(l, base, false) + [] == Blocks(l, base, false)
    ensures [] + Blocks(r, at, false) == Blocks(r, at, false)
  {
  }

  /** Release next to a free tile on the right. */
  lemma {:induction false} FreeRight(h: HeapState, base: nat, arena: u32, l: seq<Tile>, z: nat, y: nat, r: seq<Tile>)
    requires Tiles(h, base, arena, l + [Tile(z, false)] + ([Tile(y, true)] + r)) && !EndsFree(l)
    ensures var at := base + Total(l);
      Allocated(h, at) && Tiles(Free(h, at), base, arena, l + [Tile(z + H + y, true)] + r)
  {
    hide Blocks, Total, Bytes, Insert, ScanBack, MergeForward, IndexOf, Coalesced, Wrap, Allocated, Free, Tiles;
    var m := [Tile(y, true)] + r;
    var at, us := base + Total(l), l + [Tile(z + H + y, true)] + r;
    Facts(h, base, arena, l + [Tile(z, false)] + m);
    Cons(Tile(y, true), r, at + H + z);
    CutBoth(l, Tile(z, false), m, base);
    CutBoth(l, Tile(z + H + y, true), r, base);
    CoalescedCut(l, [Tile(z, false)], m);
    assert [] + [Tile(y, true)] + r == m;
    NextToFree([], Tile(y, true), r);
    CoalescedCut([], [Tile(y, true)], r);
    CoalescedOne(Tile(z + H + y, true));
    CoalescedCut(l, [Tile(z + H + y, true)], r);
    Conservation(l + [Tile(z, false)] + m);
    var zb, yb := Block(at, z), Block(at + H + z, y);
    var fl, c := Blocks(l, base, true), Blocks(r, at + H + z + H + y, true);
    var listed := fl + [zb] + ([yb] + c);
    assert ScanBack(listed, |fl|) == |fl| && MergeForward(listed, |fl|) == fl + [Block(at, z + H + y)] + c by {
      GapLeft(l, base);
      GapRight(r, at + H + z + H + y);
      assert listed == fl + [zb, yb] + c;
      ScanDone(fl, zb, [yb] + c);
      JoinStep(fl, zb, yb, c);
      JoinDone(fl, Block(at, z + H + y), c);
    }
    Emptied(l, r, base, at + H + z + H + y);
    Merged(h, base, arena, l, z, m, us, |fl|);
  }

  /** Release between two free tiles: three become one. */
  lemma {:induction false} FreeBoth(h: HeapState, base: nat, arena: u32, l: seq<Tile>, x: nat, z: nat, y: nat,
                                    r: seq<Tile>)
    requires Tiles(h, base, arena, l + [Tile(x, true)] + [Tile(z, false)] + ([Tile(y, true)] + r))
    ensures var at := base + Total(l + [Tile(x, true)]);
      Allocated(h, at) && Tiles(Free(h, at), base, arena, l + [Tile(x + H + z + H + y, true)] + r)
  {
    hide Blocks, Total, Bytes, Insert, ScanBack, MergeForward, IndexOf, Coalesced, Wrap, Allocated, Free, Tiles;
    var m, m', t := l + [Tile(x, true)], [Tile(y, true)] + r, Tile(x + H + z + H + y, true);
    var at, us := base + Total(m), l + [t] + r;
    Facts(h, base, arena, m + [Tile(z, false)] + m');
    Snoc(l, Tile(x, true), base);
    Cons(Tile(y, true), r, at + H + z);
    CutBoth(m, Tile(z, false), m', base);
    CutBoth(l, t, r, base);
    FreeBothCoalesced(l, x, z, y, r, t);
    GapLeft(l, base);
    GapRight(r, at + H + z + H + y);
    var a, c := Blocks(l, base, true), Blocks(r, at + H + z + H + y, true);
    var xb, zb, yb := Block(base + Total(l), x), Block(at, z), Block(at + H + z, y);
    var b := Block(xb.at, x + H + z);
    Regroup(a, xb, zb, b, yb, c);
    Conservation(m + [Tile(z, false)] + m');
    ScanStep(a, xb, zb, [yb] + c);
    JoinStep(a, xb, zb, [yb] + c);
    JoinStep(a, b, yb, c);
    JoinDone(a, Block(xb.at, t.size), c);
    Emptied(l, r, base, at + H + z + H + y);
    Merged(h, base, arena, m, z, m', us, |a|);
  }

  lemma Regroup(a: seq<Block>, x: Block, z: Block, b: Block, y: Block, c: seq<Block>)
    ensures a + [x] + [z] + ([y] + c) == a + [x, z] + ([y] + c)
    ensures a + [b] + ([y] + c) == a + [b, y] + c
  {
  }

  lemma FreeBothCoalesced(l: seq<Tile>, x: nat, z: nat, y: nat, r: seq<Tile>, t: Tile)
    requires Coalesced(l + [Tile(x, true)] + [Tile(z, false)] + ([Tile(y, true)] + r))
    ensures Coalesced(l + [t] + r) && !EndsFree(l) && !StartsFree(r)
  {
    hide Coalesced;
    var m, m' := l + [Tile(x, true)], [Tile(y, true)] + r;
    assert m + [Tile(z, false)] + m' == l + [Tile(x, true)] + ([Tile(z, false)] + m');
    NextToFree(l, Tile(x, true), [Tile(z, false)] + m');
    CoalescedCut(l, [Tile(x, true)], [Tile(z, false)] + m');
    CoalescedCut(m, [Tile(z, false)], m');
    assert [] + [Tile(y, true)] + r == m';
    NextToFree([], Tile(y, true), r);
    CoalescedCut([], [Tile(y, true)], r);
    CoalescedOne(t);
    CoalescedCut(l, [t], r);
  }

  lemma SoundBy(h: HeapState, base: nat, arena: u32, ts: seq<Tile>)
    requires Tiles(h, base, arena, ts)
    ensures Sound(h, base, arena)
  {
  }

  /** Every release of an allocated block keeps the heap sound, fully coalesced. */
  lemma FreeKeeps(h: HeapState, base: nat, arena: u32, at: nat)
    requires Sound(h, base, arena) && Allocated(h, at)
    ensures Sound(Free(h, at), base, arena)
  {
    hide Free, Insert, ScanBack, MergeForward, Blocks, Total, Bytes, Coalesced;
    var ts: seq<Tile> :| Tiles(h, base, arena, ts);
    var k := TileOf(ts, base, false, IndexOf(h.used, at));
    var l, z, r := ts[..k], ts[k].size, ts[k + 1..];
    assert at == base + Total(l) && ts == l + [Tile(z, false)] + r;
    if EndsFree(l) {
      var l', x := l[..|l| - 1], l[|l| - 1].size;
      assert l == l' + [Tile(x, true)];
      if StartsFree(r) {
        var y, r' := r[0].size, r[1..];
        assert r == [Tile(y, true)] + r';
        FreeBoth(h, base, arena, l', x, z, y, r');
        SoundBy(Free(h, at), base, arena, l' + [Tile(x + H + z + H + y, true)] + r');
      } else {
        FreeLeft(h, base, arena, l', x, z, r);
        SoundBy(Free(h, at), base, arena, l' + [Tile(x + H + z, true)] + r);
      }
    } else if StartsFree(r) {
      var y, r' := r[0].size, r[1..];
      assert r == [Tile(y, true)] + r';
      FreeRight(h, base, arena, l, z, y, r');
      SoundBy(Free(h, at), base, arena, l + [Tile(z + H + y, true)] + r');
    } else {
      FreeAlone(h, base, arena, l, z, r);
      SoundBy(Free(h, at), base, arena, l + [Tile(z, true)] + r);
    }
  }

  // ---- Runs ----

  datatype Op = Allocate(n: nat) | Release(at: nat)

  /** Releases name allocated blocks and splits have room, at each step of the run. */
  predicate Proper(h: HeapState, ops: seq<Op>)
    decreases |ops|
  {
    ops == [] ||
    match ops[0]
    case Allocate(n) => Fits(h, n) && Proper(Malloc(h, n), ops[1..])
    case Release(at) => Allocated(h, at) && Proper(Free(h, at), ops[1..])
  }

  function RunOps(h: HeapState, ops: seq<Op>): HeapState
    requires Proper(h, ops)
    decreases |ops|
  {
    if ops == [] then h else
    match ops[0]
    case Allocate(n) => RunOps(Malloc(h, n), ops[1..])
    case Release(at) => RunOps(Free(h, at), ops[1..])
  }

  lemma {:induction false} RunSound(h: HeapState, base: nat, arena: u32, ops: seq<Op>)
    requires Sound(h, base, arena) && Proper(h, ops)
    ensures Sound(RunOps(h, ops), base, arena)
    decreases |ops|
  {
    hide Free, Malloc, Sound;
    if ops != [] {
      match ops[0]
      case Allocate(n) => MallocKeeps(h, base, arena, n); RunSound(Malloc(h, n), base, arena, ops[1..]);
      case Release(at) => FreeKeeps(h, base, arena, at); RunSound(Free(h, at), base, arena, ops[1..]);
    }
  }

  lemma OneTile(z: nat, base: nat)
    ensures var ts := [Tile(z, true)];
      && Total(ts) == H + z && Bytes(ts, true) == z && Coalesced(ts)
      && Blocks(ts, base, true) == [Block(base, z)] && Blocks(ts, base, false) == []
  {
    Cons(Tile(z, true), [], base);
    assert [Tile(z, true)] + [] == [Tile(z, true)];
    EmptyTiles(base + H + z);
  }

  lemma InitialSound(base: nat, arena: u32)
    requires base > 0 && arena >= H
    ensures Sound(Initial(base, arena), base, arena)
  {
    var ts := [Tile(arena - H, true)];
    OneTile(arena - H, base);
    assert Tiles(Initial(base, arena), base, arena, ts);
  }

  lemma {:induction false} NoUsedBlocks(ts: seq<Tile>, at: nat)
    requires Blocks(ts, at, false) == []
    ensures forall k :: 0 <= k < |ts| ==> ts[k].free
  {
    if ts != [] {
      NoUsedBlocks(ts[1..], at + H + ts[0].size);
      assert forall k :: 1 <= k < |ts| ==> ts[k] == ts[1..][k - 1];
    }
  }

  /** A sound heap with nothing allocated is the heap as it was handed over. */
  lemma EmptyIsInitial(h: HeapState, base: nat, arena: u32)
    requires Sound(h, base, arena) && h.used == [] && arena >= H
    ensures h == Initial(base, arena)
  {
    hide Blocks, Total, Bytes, Coalesced;
    var ts: seq<Tile> :| Tiles(h, base, arena, ts);
    NoUsedBlocks(ts, base);
    OneFreeTile(ts, base);
  }

  /** A coalesced tiling without used tiles is a single tile. */
  lemma OneFreeTile(ts: seq<Tile>, base: nat)
    requires Coalesced(ts) && Total(ts) >= H && forall k :: 0 <= k < |ts| ==> ts[k].free
    ensures |ts| == 1 && Bytes(ts, true) == Total(ts) - H && Blocks(ts, base, true) == [Block(base, Total(ts) - H)]
  {
    if |ts| > 1 {
      CoalescedPair(ts);
    } else {
      EmptyTiles(base);
      assert ts == [Tile(ts[0].size, true)];
      OneTile(ts[0].size, base);
    }
  }

  lemma CoalescedPair(ts: seq<Tile>)
    requires Coalesced(ts) && |ts| > 1
    ensures !ts[0].free || !ts[1].free
  {
    assert !(ts[0].free && ts[0 + 1].free);
  }

  /** The run theorem. Whatever allocations and releases are made, in whatever order, the
      heap is a coalesced tiling of the arena with correct counters; free bytes, allocated
      bytes and headers add up to the arena; and once everything has been released it is
      again the single initial free block. */
  lemma HeapTheorem(base: nat, arena: u32, ops: seq<Op>)
    requires base > 0 && arena >= H && Proper(Initial(base, arena), ops)
    ensures var h := RunOps(Initial(base, arena), ops);
      && (exists ts :: Tiles(h, base, arena, ts) && h.freemem + Bytes(ts, false) + h.totalnodes * H == arena)
      && (h.used == [] ==> h == Initial(base, arena) && h.freemem == h.totalmem)
  {
    InitialSound(base, arena);
    RunSound(Initial(base, arena), base, arena, ops);
    var h := RunOps(Initial(base, arena), ops);
    var ts: seq<Tile> :| Tiles(h, base, arena, ts);
    Conservation(ts);
    if h.used == [] { EmptyIsInitial(h, base, arena); }
  }
}
