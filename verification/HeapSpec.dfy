/** The allocator on plain values: the two address-sorted block lists and the counters,
    and the tiling of the arena that they describe. */
module HeapSpec {
  import opened Words

  /** Size of a block header. */
  const H: nat := 24

  /** A block: the address of its header and the size reported to the user. */
  datatype Block = Block(at: nat, size: nat)

  datatype HeapState = HeapState(free: seq<Block>, used: seq<Block>, freemem: nat, totalmem: nat, totalnodes: nat)

  function Wrap(v: int): u32 { v % TWO32 }

  /** Insertion by address. */
  function Insert(bs: seq<Block>, b: Block): (r: seq<Block>)
    ensures |r| == |bs| + 1
  {
    if bs == [] || b.at < bs[0].at then [b] + bs else [bs[0]] + Insert(bs[1..], b)
  }

  /** Index of the first block that is large enough. */
  function FirstFit(free: seq<Block>, n: nat): (i: nat)
    ensures i <= |free| && (i < |free| ==> free[i].size >= n)
    ensures forall j :: 0 <= j < i ==> free[j].size < n
  {
    if free == [] || free[0].size >= n then 0 else 1 + FirstFit(free[1..], n)
  }

  function Remove(bs: seq<Block>, i: nat): seq<Block>
    requires i < |bs|
  {
    bs[..i] + bs[i + 1..]
  }

  /** Allocation: the first block that fits moves to the used list; unless it fits exactly,
      what is left of it becomes a free block, its size computed in 32 bits. */
  function Malloc(h: HeapState, n: nat): HeapState {
    var i := FirstFit(h.free, n);
    if i == |h.free| then h else
    var b := h.free[i];
    var rest := Remove(h.free, i);
    var used := Insert(h.used, Block(b.at, n));
    if b.size == n then h.(free := rest, used := used, freemem := Wrap(h.freemem - n))
    else h.(free := Insert(rest, Remnant(b, n)), used := used,
            freemem := Wrap(h.freemem - H - n), totalnodes := Wrap(h.totalnodes + 1))
  }

  function Remnant(b: Block, n: nat): Block { Block(b.at + H + n, Wrap(b.size - H - n)) }

  /** The user address handed out, 0 when nothing fits. */
  function MallocResult(h: HeapState, n: nat): nat {
    var i := FirstFit(h.free, n);
    if i == |h.free| then 0 else h.free[i].at + H
  }

  /** The chosen block fits exactly or leaves room for the header of its remainder. */
  predicate Fits(h: HeapState, n: nat) {
    var i := FirstFit(h.free, n);
    i < |h.free| ==> h.free[i].size == n || h.free[i].size >= n + H
  }

  function End(b: Block): nat { b.at + H + b.size }

  /** First block of the contiguous stretch that ends with block `j`. */
  function ScanBack(bs: seq<Block>, j: nat): (i: nat)
    requires j < |bs|
    ensures i <= j
  {
    if j > 0 && End(bs[j - 1]) == bs[j].at then ScanBack(bs, j - 1) else j
  }

  predicate Joins(bs: seq<Block>, j: nat) {
    j + 1 < |bs| && bs[j + 1].at == End(bs[j])
  }

  /** Block `j` with its right neighbour absorbed. */
  function JoinOne(bs: seq<Block>, j: nat): (r: seq<Block>)
    requires Joins(bs, j)
    ensures |r| == |bs| - 1
  {
    bs[..j] + [Block(bs[j].at, Wrap(bs[j].size + bs[j + 1].size + H))] + bs[j + 2..]
  }

  function MergeForward(bs: seq<Block>, j: nat): (r: seq<Block>)
    requires j < |bs|
    ensures |r| <= |bs|
    decreases |bs|
  {
    if Joins(bs, j) then MergeForward(JoinOne(bs, j), j) else bs
  }

  function IndexOf(bs: seq<Block>, at: nat): (i: nat)
    ensures i <= |bs| && (i < |bs| ==> bs[i].at == at)
    ensures forall j :: 0 <= j < i ==> bs[j].at != at
  {
    if bs == [] || bs[0].at == at then 0 else 1 + IndexOf(bs[1..], at)
  }

  predicate Allocated(h: HeapState, at: nat) { IndexOf(h.used, at) < |h.used| }

  /** Release of the block at `at`: it moves to the free list, the scan goes back to the
      start of its contiguous stretch, and everything contiguous after that is merged. */
  function Free(h: HeapState, at: nat): HeapState
    requires Allocated(h, at)
  {
    var i := IndexOf(h.used, at);
    var listed := Insert(h.free, h.used[i]);
    InsertedAt(h.free, h.used[i]);
    var j := ScanBack(listed, IndexOf(listed, at));
    var merged := MergeForward(listed, j);
    h.(free := merged, used := Remove(h.used, i),
       freemem := Wrap(h.freemem + h.used[i].size + H * (|listed| - |merged|)),
       totalnodes := Wrap(h.totalnodes - (|listed| - |merged|)))
  }

  lemma {:induction false} InsertedAt(bs: seq<Block>, b: Block)
    ensures exists j :: 0 <= j < |Insert(bs, b)| && Insert(bs, b)[j] == b
    ensures IndexOf(Insert(bs, b), b.at) < |bs| + 1
  {
    var r := Insert(bs, b);
    if bs == [] || b.at < bs[0].at {
      assert r[0] == b;
    } else {
      InsertedAt(bs[1..], b);
      var j :| 0 <= j < |Insert(bs[1..], b)| && Insert(bs[1..], b)[j] == b;
      assert r[j + 1] == b;
    }
  }

  /** The heap after the arena has been handed over. */
  function Initial(base: nat, arena: u32): HeapState
    requires arena >= H
  {
    HeapState([Block(base, arena - H)], [], arena - H, arena - H, 1)
  }

  // ---- Tilings ----

  /** A piece of the arena: a header and `size` bytes, free or in use. */
  datatype Tile = Tile(size: nat, free: bool)

  function Total(ts: seq<Tile>): nat {
    if ts == [] then 0 else H + ts[0].size + Total(ts[1..])
  }

  function Bytes(ts: seq<Tile>, free: bool): nat {
    if ts == [] then 0 else (if ts[0].free == free then ts[0].size else 0) + Bytes(ts[1..], free)
  }

  /** The blocks of one kind, in address order, when the first tile is at `at`. */
  function Blocks(ts: seq<Tile>, at: nat, free: bool): seq<Block>
  {
    if ts == [] then [] else
    (if ts[0].free == free then [Block(at, ts[0].size)] else []) + Blocks(ts[1..], at + H + ts[0].size, free)
  }

  predicate Coalesced(ts: seq<Tile>) {
    forall i :: 0 <= i < |ts| - 1 ==> !(ts[i].free && ts[i + 1].free)
  }

  /** The two lists are exactly the free and the used tiles of a coalesced tiling of the
      arena, and the counters are its statistics. */
  ghost predicate Tiles(h: HeapState, base: nat, arena: u32, ts: seq<Tile>) {
    && base > 0 && Total(ts) == arena && Coalesced(ts)
    && h.free == Blocks(ts, base, true) && h.used == Blocks(ts, base, false)
    && h.freemem == Bytes(ts, true) && h.totalnodes == |ts| && h.totalmem == arena - H
  }

  ghost predicate Sound(h: HeapState, base: nat, arena: u32) {
    exists ts :: Tiles(h, base, arena, ts)
  }

  lemma {:induction false} TotalAppend(a: seq<Tile>, b: seq<Tile>)
    ensures Total(a + b) == Total(a) + Total(b)
    ensures Bytes(a + b, true) == Bytes(a, true) + Bytes(b, true)
    ensures Bytes(a + b, false) == Bytes(a, false) + Bytes(b, false)
  {
    if a == [] {
      assert a + b == b;
    } else {
      assert (a + b)[1..] == a[1..] + b;
      TotalAppend(a[1..], b);
    }
  }

  lemma {:induction false} BlocksAppend(a: seq<Tile>, b: seq<Tile>, at: nat, free: bool)
    ensures Blocks(a + b, at, free) == Blocks(a, at, free) + Blocks(b, at + Total(a), free)
  {
    if a == [] {
      assert a + b == b;
    } else {
      assert (a + b)[1..] == a[1..] + b;
      BlocksAppend(a[1..], b, at + H + a[0].size, free);
    }
  }

  /** Conservation: every byte of the arena is free, in use, or header. */
  lemma {:induction false} Conservation(ts: seq<Tile>)
    ensures Bytes(ts, true) + Bytes(ts, false) + |ts| * H == Total(ts)
  {
    if ts != [] { Conservation(ts[1..]); }
  }

  /** Blocks of either kind lie within the tiles, in order and without overlap. */
  lemma {:induction false} BlocksWithin(ts: seq<Tile>, at: nat, free: bool)
    ensures forall i :: 0 <= i < |Blocks(ts, at, free)| ==>
      at <= Blocks(ts, at, free)[i].at && End(Blocks(ts, at, free)[i]) <= at + Total(ts)
    ensures forall i, j :: 0 <= i < j < |Blocks(ts, at, free)| ==>
      End(Blocks(ts, at, free)[i]) <= Blocks(ts, at, free)[j].at
    ensures |Blocks(ts, at, free)| <= |ts|
  {
    if ts != [] { BlocksWithin(ts[1..], at + H + ts[0].size, free); }
  }

  /** The tile behind a block of a list. */
  lemma {:induction false} TileOf(ts: seq<Tile>, at: nat, free: bool, i: nat) returns (k: nat)
    requires i < |Blocks(ts, at, free)|
    ensures k < |ts| && ts[k].free == free && Total(ts[..k]) <= Total(ts)
    ensures |Blocks(ts[..k], at, free)| == i
    ensures Blocks(ts, at, free)[i] == Block(at + Total(ts[..k]), ts[k].size)
  {
    var head, rest := ts[0], ts[1..];
    if head.free == free && i == 0 {
      k := 0;
      assert ts[..0] == [];
    } else {
      var m := TileOf(rest, at + H + head.size, free, if head.free == free then i - 1 else i);
      k := m + 1;
      assert ts[..k][1..] == rest[..m];
    }
  }

  function Single(t: Tile, at: nat, free: bool): seq<Block> {
    if t.free == free then [Block(at, t.size)] else []
  }

  /** Cutting a tiling into what lies left of a tile, the tile, and what lies right of it. */
  lemma Cut(l: seq<Tile>, t: Tile, r: seq<Tile>, base: nat, free: bool)
    ensures Total(l + [t] + r) == Total(l) + H + t.size + Total(r)
    ensures Blocks(l + [t] + r, base, free)
         == Blocks(l, base, free) + Single(t, base + Total(l), free) + Blocks(r, base + Total(l) + H + t.size, free)
    ensures Bytes(l + [t] + r, free) == Bytes(l, free) + (if t.free == free then t.size else 0) + Bytes(r, free)
  {
    assert [t][1..] == [];
    TotalAppend(l, [t]);
    TotalAppend(l + [t], r);
    BlocksAppend(l, [t], base, free);
    BlocksAppend(l + [t], r, base, free);
    assert Blocks([t], base + Total(l), free) == Single(t, base + Total(l), free);
  }

  /** Inserting by address between smaller and larger blocks. */
  lemma {:induction false} InsertBetween(a: seq<Block>, b: Block, c: seq<Block>)
    requires forall i :: 0 <= i < |a| ==> a[i].at < b.at
    requires forall i :: 0 <= i < |c| ==> b.at < c[i].at
    ensures Insert(a + c, b) == a + [b] + c
  {
    if a == [] {
      assert a + c == c && a + [b] + c == [b] + c;
    } else {
      assert (a + c)[1..] == a[1..] + c && (a + c)[0] == a[0];
      InsertBetween(a[1..], b, c);
      assert a + [b] + c == [a[0]] + (a[1..] + [b] + c);
    }
  }
}
