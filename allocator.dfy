/**
 * `Allocator` of allocator.rs: `Allocator::new` tiles the user memory range
 * [0x10000000, 0x20000000) from left to right with power-of-two blocks of
 * 2^12 to 2^20 bytes, registering each in an AVL tree keyed by block size;
 * `allocate_block` looks up a block whose size key is at least the request.
 */
module BlockAllocator {
  import opened Wrappers
  import opened Avl

  const USER_MEM_START: int := 0x1000_0000
  const USER_MEM_SIZE: int := 0x1000_0000
  const USER_MEM_END: int := USER_MEM_START + USER_MEM_SIZE
  const MAX_BLOCK_SIZE_EXP: int := 20
  const MIN_BLOCK_SIZE_EXP: int := 12

  /** `1 << MIN_BLOCK_SIZE_EXP` and `1 << MAX_BLOCK_SIZE_EXP`. */
  const MIN_BLOCK_SIZE: int := 0x1000
  const MAX_BLOCK_SIZE: int := 0x10_0000

  /** `1 << e`. */
  function Pow2(e: nat): (p: nat)
    ensures p >= 1
  {
    if e == 0 then 1 else 2 * Pow2(e - 1)
  }

  lemma {:induction false} Pow2Monotone(a: nat, b: nat)
    requires a <= b
    ensures Pow2(a) <= Pow2(b)
  {
    if a < b {
      Pow2Monotone(a, b - 1);
    }
  }

  /** Every block size the allocator uses is a whole number of 4 KiB pages. */
  lemma {:induction false} Pow2Pages(e: nat)
    requires e >= MIN_BLOCK_SIZE_EXP
    ensures Pow2(e) == 4096 * Pow2(e - MIN_BLOCK_SIZE_EXP)
  {
    if e == MIN_BLOCK_SIZE_EXP {
      assert Pow2(12) == 4096;
    } else {
      Pow2Pages(e - 1);
    }
  }

  lemma MinMaxBlockSize()
    ensures Pow2(MIN_BLOCK_SIZE_EXP) == MIN_BLOCK_SIZE
    ensures Pow2(MAX_BLOCK_SIZE_EXP) == MAX_BLOCK_SIZE
  {
    assert Pow2(12) == 4096;
    assert Pow2(16) == 65536;
  }

  /** `(n as f64).log2().floor()`, computed exactly on integers. */
  function FloorLog2(n: int): (r: nat)
    requires n >= 1
    ensures Pow2(r) <= n < Pow2(r + 1)
    decreases n
  {
    if n == 1 then 0 else 1 + FloorLog2(n / 2)
  }

  function Min(a: int, b: int): int { if a < b then a else b }

  /** The largest exponent the loop may choose when `remaining` bytes are left. */
  function MaxExp(remaining: int): int
    requires remaining >= 1
  {
    Min(MAX_BLOCK_SIZE_EXP, FloorLog2(remaining))
  }

  /** `max_exp` is at most 20, its block fits in what remains, and below 20 it is the largest exponent whose block fits. */
  lemma MaxExpBounds(remaining: int)
    requires remaining >= 1
    ensures 0 <= MaxExp(remaining) <= MAX_BLOCK_SIZE_EXP
    ensures Pow2(MaxExp(remaining)) <= remaining
    ensures MaxExp(remaining) < MAX_BLOCK_SIZE_EXP ==> remaining < Pow2(MaxExp(remaining) + 1)
  {
    if MAX_BLOCK_SIZE_EXP <= FloorLog2(remaining) {
      Pow2Monotone(MAX_BLOCK_SIZE_EXP, FloorLog2(remaining));
    }
  }

  /** The weight `(MAX_BLOCK_SIZE_EXP - e)` of exponent `e` in the random draw. */
  function Weight(e: int): (w: int)
    ensures MIN_BLOCK_SIZE_EXP <= e <= MAX_BLOCK_SIZE_EXP ==> 0 <= w <= MAX_BLOCK_SIZE_EXP - MIN_BLOCK_SIZE_EXP
    ensures w == 0 <==> e == MAX_BLOCK_SIZE_EXP
  {
    MAX_BLOCK_SIZE_EXP - e
  }

  /** The sum of the weights of the exponents `MIN_BLOCK_SIZE_EXP ..= e` (0 for an empty range). */
  function CumulativeWeight(e: int): int
    decreases e - MIN_BLOCK_SIZE_EXP + 1
  {
    if e < MIN_BLOCK_SIZE_EXP then 0 else CumulativeWeight(e - 1) + Weight(e)
  }

  /** The running weight is 0 before exponent 12 and `(e - 11)(28 - e) / 2` from there on: 36 for the whole range 12..=20. */
  lemma {:induction false} CumulativeWeightClosedForm(e: int)
    ensures e < MIN_BLOCK_SIZE_EXP ==> CumulativeWeight(e) == 0
    ensures e >= MIN_BLOCK_SIZE_EXP - 1 ==> 2 * CumulativeWeight(e) == (e - 11) * (28 - e)
    decreases e - MIN_BLOCK_SIZE_EXP + 1
  {
    if e >= MIN_BLOCK_SIZE_EXP {
      CumulativeWeightClosedForm(e - 1);
    }
  }

  /** Up to `MAX_BLOCK_SIZE_EXP` every weight is non-negative, so the cumulative weight grows with the exponent. */
  lemma {:induction false} CumulativeWeightMonotone(a: int, b: int)
    requires a <= b <= MAX_BLOCK_SIZE_EXP
    ensures CumulativeWeight(a) <= CumulativeWeight(b)
    decreases b - a
  {
    if a < b {
      CumulativeWeightMonotone(a, b - 1);
    }
  }

  /**
   * The weighted choice inside `Allocator::new`: the first exponent of
   * `MIN_BLOCK_SIZE_EXP ..= maxExp` whose cumulative weight reaches
   * `randomWeight`; when none does (or the range is empty) the exponent keeps
   * its initial value `MIN_BLOCK_SIZE_EXP`. Because the weight of
   * `MAX_BLOCK_SIZE_EXP` is zero, that exponent is never chosen.
   */
  method DrawExponent(maxExp: int, randomWeight: real) returns (e: int)
    requires maxExp <= MAX_BLOCK_SIZE_EXP
    ensures MIN_BLOCK_SIZE_EXP <= e < MAX_BLOCK_SIZE_EXP
    ensures MIN_BLOCK_SIZE_EXP <= maxExp ==> e <= maxExp
    ensures MIN_BLOCK_SIZE_EXP <= maxExp && randomWeight <= CumulativeWeight(maxExp) as real ==>
              randomWeight <= CumulativeWeight(e) as real
    ensures forall x :: MIN_BLOCK_SIZE_EXP <= x < e ==> (CumulativeWeight(x) as real) < randomWeight
    ensures (CumulativeWeight(maxExp) as real) < randomWeight ==> e == MIN_BLOCK_SIZE_EXP
  {
    e := MIN_BLOCK_SIZE_EXP;
    var cumulativeWeight := 0.0;
    var x := MIN_BLOCK_SIZE_EXP;
    while x <= maxExp
      invariant MIN_BLOCK_SIZE_EXP <= x <= MAX_BLOCK_SIZE_EXP + 1
      invariant x <= maxExp + 1 || x == MIN_BLOCK_SIZE_EXP
      invariant cumulativeWeight == CumulativeWeight(x - 1) as real
      invariant forall y :: MIN_BLOCK_SIZE_EXP <= y < x ==> (CumulativeWeight(y) as real) < randomWeight
    {
      cumulativeWeight := cumulativeWeight + Weight(x) as real;
      if cumulativeWeight >= randomWeight {
        CumulativeWeightMonotone(x, maxExp);
        e := x;
        return;
      }
      x := x + 1;
    }
  }

  /** The value stored with each size key: the revised node's `value`, `start` and `end`. */
  datatype Block = Block(value: int, start: int, end: int)

  /** One block as the tiling loop produced it: its exponent, first and last address. */
  datatype Tile = Tile(exp: nat, start: int, end: int)

  function BlockOf(t: Tile): Block {
    Block(t.start, t.start, t.end)
  }

  /**
   * A tile obeys the loop's size rule: its exponent is one the draw can
   * return, and the block fits in the memory that was left when it was cut
   * (which, for such exponents, is `exp <= MaxExp(USER_MEM_END - start)`).
   */
  ghost predicate TileOk(t: Tile) {
    && USER_MEM_START <= t.start < USER_MEM_END
    && MIN_BLOCK_SIZE_EXP <= t.exp < MAX_BLOCK_SIZE_EXP
    && Pow2(t.exp) <= USER_MEM_END - t.start
    && t.end == t.start + Pow2(t.exp) - 1
  }

  /**
   * `ts` tiles `[USER_MEM_START, top)` from left to right: the first tile starts
   * at `USER_MEM_START`, each later one right after the previous one ends, and
   * the last one ends just below `top`.
   */
  ghost predicate Tiling(ts: seq<Tile>, top: int)
    decreases |ts|
  {
    if ts == [] then top == USER_MEM_START
    else
      var last := ts[|ts| - 1];
      && Tiling(ts[..|ts| - 1], last.start)
      && TileOk(last)
      && last.end + 1 == top
  }

  function SumSizes(ts: seq<Tile>): int {
    if ts == [] then 0 else SumSizes(ts[..|ts| - 1]) + Pow2(ts[|ts| - 1].exp)
  }

  /** The tree contents after inserting the tiles in order: a later tile of the same size overwrites an earlier one. */
  function TilesMap(ts: seq<Tile>): map<int, Block> {
    if ts == [] then map[] else TilesMap(ts[..|ts| - 1])[Pow2(ts[|ts| - 1].exp) := BlockOf(ts[|ts| - 1])]
  }

  /** The sizes of a tiling add up to the length of the range it covers. */
  lemma {:induction false} TilingSum(ts: seq<Tile>, top: int)
    requires Tiling(ts, top)
    ensures SumSizes(ts) == top - USER_MEM_START
  {
    if ts != [] {
      var n := |ts| - 1;
      TilingSum(ts[..n], ts[n].start);
    }
  }

  /** A size is a key of the tree exactly when some tile has that size. */
  lemma {:induction false} TilesMapKeys(ts: seq<Tile>, size: int)
    ensures size in TilesMap(ts) <==> exists i :: 0 <= i < |ts| && Pow2(ts[i].exp) == size
  {
    if ts != [] {
      var n := |ts| - 1;
      TilesMapKeys(ts[..n], size);
      if size in TilesMap(ts[..n]) {
        var i :| 0 <= i < n && Pow2(ts[..n][i].exp) == size;
        assert ts[i] == ts[..n][i];
      }
      if i :| 0 <= i < n && Pow2(ts[i].exp) == size {
        assert ts[..n][i] == ts[i];
      }
    }
  }

  /** The block registered for a size is the last tile of that size. */
  lemma {:induction false} TilesMapLastWins(ts: seq<Tile>, i: int)
    requires 0 <= i < |ts|
    requires forall j :: i < j < |ts| ==> Pow2(ts[j].exp) != Pow2(ts[i].exp)
    ensures Pow2(ts[i].exp) in TilesMap(ts)
    ensures TilesMap(ts)[Pow2(ts[i].exp)] == BlockOf(ts[i])
  {
    var n := |ts| - 1;
    if i < n {
      var init := ts[..n];
      assert init[i] == ts[i];
      forall j | i < j < |init| ensures Pow2(init[j].exp) != Pow2(init[i].exp) {
        assert init[j] == ts[j];
      }
      TilesMapLastWins(init, i);
    }
  }

  /** A block registered in the tree lies inside the user range and spans exactly its size key. */
  ghost predicate BlockFits(size: int, b: Block) {
    && b.value == b.start
    && b.end == b.start + size - 1
    && USER_MEM_START <= b.start
    && b.end < USER_MEM_END
  }

  /** A remaining length that is a positive multiple of 4 KiB allows at least the smallest block. */
  lemma MaxExpAtLeastMin(remaining: int)
    requires remaining >= 1 && remaining % 4096 == 0
    ensures MIN_BLOCK_SIZE_EXP <= MaxExp(remaining)
  {
    assert Pow2(12) == 4096;
    if FloorLog2(remaining) < MIN_BLOCK_SIZE_EXP {
      Pow2Monotone(FloorLog2(remaining) + 1, MIN_BLOCK_SIZE_EXP);
    }
  }

  /** A block of a permitted exponent fits in the remaining memory and leaves a multiple of 4 KiB. */
  lemma BlockFitsRemaining(remaining: int, e: nat)
    requires remaining >= 1 && remaining % 4096 == 0
    requires MIN_BLOCK_SIZE_EXP <= e <= MaxExp(remaining)
    ensures Pow2(e) <= remaining && (remaining - Pow2(e)) % 4096 == 0
  {
    Pow2Monotone(e, FloorLog2(remaining));
    Pow2Pages(e);
  }

  /** Every block registered from a tiling lies in the user range and spans its size key. */
  lemma {:induction false} TilesMapFits(ts: seq<Tile>, top: int)
    requires Tiling(ts, top) && top <= USER_MEM_END
    ensures forall size :: size in TilesMap(ts) ==> BlockFits(size, TilesMap(ts)[size])
  {
    if ts != [] {
      var n := |ts| - 1;
      var init := ts[..n];
      var last := ts[n];
      TilesMapFits(init, last.start);
      assert TileOk(last);
      assert BlockFits(Pow2(last.exp), BlockOf(last));
      forall size | size in TilesMap(ts) ensures BlockFits(size, TilesMap(ts)[size]) {
        if size != Pow2(last.exp) {
          assert TilesMap(ts)[size] == TilesMap(init)[size];
        }
      }
    }
  }

  /** The size keys of a tiling are between one page and half the largest block, and a non-empty tiling registers at least one. */
  lemma {:induction false} TilesMapSizes(ts: seq<Tile>, top: int)
    requires Tiling(ts, top)
    ensures forall size :: size in TilesMap(ts) ==> MIN_BLOCK_SIZE <= size < MAX_BLOCK_SIZE
    ensures ts != [] <==> TilesMap(ts) != map[]
  {
    MinMaxBlockSize();
    if ts != [] {
      var n := |ts| - 1;
      var init := ts[..n];
      var last := ts[n];
      TilesMapSizes(init, last.start);
      assert TileOk(last);
      Pow2Monotone(MIN_BLOCK_SIZE_EXP, last.exp);
      Pow2Monotone(last.exp + 1, MAX_BLOCK_SIZE_EXP);
      assert Pow2(last.exp) in TilesMap(ts);
      forall size | size in TilesMap(ts) ensures MIN_BLOCK_SIZE <= size < MAX_BLOCK_SIZE {
        if size != Pow2(last.exp) {
          assert size in TilesMap(init);
        }
      }
    }
  }

  /** One iteration of the tiling loop: cutting a permitted block off the remaining memory extends the tiling. */
  lemma TilingStep(ts: seq<Tile>, current: int, e: nat)
    requires Tiling(ts, current) && current < USER_MEM_END
    requires MIN_BLOCK_SIZE_EXP <= e < MAX_BLOCK_SIZE_EXP && Pow2(e) <= USER_MEM_END - current
    ensures Tiling(ts + [Tile(e, current, current + Pow2(e) - 1)], current + Pow2(e))
  {
    var t := Tile(e, current, current + Pow2(e) - 1);
    var ts' := ts + [t];
    assert TileOk(t);
    assert ts'[..|ts'| - 1] == ts;
  }

  /** Inserting one more tile updates the map of registered blocks at the tile's size. */
  lemma TilesMapStep(ts: seq<Tile>, t: Tile)
    ensures TilesMap(ts + [t]) == TilesMap(ts)[Pow2(t.exp) := BlockOf(t)]
  {
    var ts' := ts + [t];
    assert ts'[..|ts'| - 1] == ts;
  }

  /** A tiling of the whole user range adds up to its size and registers only fitting blocks of permitted sizes. */
  lemma TilingComplete(ts: seq<Tile>)
    requires Tiling(ts, USER_MEM_END)
    ensures SumSizes(ts) == USER_MEM_SIZE
    ensures forall size :: size in TilesMap(ts) ==> BlockFits(size, TilesMap(ts)[size])
    ensures forall size :: size in TilesMap(ts) ==> MIN_BLOCK_SIZE <= size < MAX_BLOCK_SIZE
    ensures TilesMap(ts) != map[]
  {
    TilingSum(ts, USER_MEM_END);
    TilesMapFits(ts, USER_MEM_END);
    TilesMapSizes(ts, USER_MEM_END);
  }

  class Allocator {
    var memoryTree: AvlTree<Block>
    /** The blocks in the order `Allocator::new` cut them. */
    ghost var tiles: seq<Tile>

    ghost predicate Valid()
      reads this, memoryTree
    {
      && memoryTree.Valid()
      && forall size :: size in Contents(memoryTree.root) ==> BlockFits(size, Contents(memoryTree.root)[size])
    }

    /**
     * `Allocator::new`. `random(i)` stands for the i-th value of `rand::random::<f64>()`,
     * a number in [0, 1) that is scaled by the sum of the weights to pick the next
     * exponent. The tiles cover the user range exactly and each is registered in
     * the tree under its size.
     */
    constructor (random: nat -> real)
      ensures Valid() && fresh(memoryTree)
      ensures Tiling(tiles, USER_MEM_END)
      ensures SumSizes(tiles) == USER_MEM_SIZE
      ensures Contents(memoryTree.root) == TilesMap(tiles)
      ensures Contents(memoryTree.root) != map[]
      ensures forall size :: size in Contents(memoryTree.root) ==>
                MIN_BLOCK_SIZE <= size < MAX_BLOCK_SIZE
    {
      var tree := new AvlTree<Block>();
      var remainingMemory := USER_MEM_SIZE;
      var currentAddress := USER_MEM_START;
      var draws: nat := 0;
      ghost var ts: seq<Tile> := [];
      while remainingMemory > 0
        invariant fresh(tree) && tree.Valid()
        invariant 0 <= remainingMemory && remainingMemory % 4096 == 0
        invariant currentAddress + remainingMemory == USER_MEM_END
        invariant Tiling(ts, currentAddress)
        invariant Contents(tree.root) == TilesMap(ts)
        decreases remainingMemory
      {
        var maxExp := MaxExp(remainingMemory);
        MaxExpAtLeastMin(remainingMemory);
        var sumWeights := CumulativeWeight(maxExp) as real;
        var randomWeight := random(draws) * sumWeights;
        var blockSizeExp := DrawExponent(maxExp, randomWeight);
        draws := draws + 1;
        var blockSize := Pow2(blockSizeExp);
        var tile := Tile(blockSizeExp, currentAddress, currentAddress + blockSize - 1);
        BlockFitsRemaining(remainingMemory, blockSizeExp);
        TilingStep(ts, currentAddress, blockSizeExp);
        TilesMapStep(ts, tile);
        tree.Insert(blockSize, BlockOf(tile));
        ts := ts + [tile];
        currentAddress := currentAddress + blockSize;
        remainingMemory := remainingMemory - blockSize;
      }
      TilingComplete(ts);
      memoryTree := tree;
      tiles := ts;
    }

    /**
     * `Allocator::allocate_block`: walks down from the root and returns the start
     * and end of the first block met whose size key is at least `size`, moving
     * right past every smaller key. The tree is not changed.
     */
    method AllocateBlock(size: nat) returns (block: Option<(int, int)>)
      requires Valid()
      ensures block.Some? ==> exists key :: key in Contents(memoryTree.root) && size <= key
                                && block.value == (Contents(memoryTree.root)[key].start, Contents(memoryTree.root)[key].end)
      ensures block.Some? ==> size <= block.value.1 - block.value.0 + 1
      ensures block.Some? ==> USER_MEM_START <= block.value.0 && block.value.1 < USER_MEM_END
      ensures block.None? <==> forall key :: key in Contents(memoryTree.root) ==> key < size
    {
      var current := memoryTree.root;
      ghost var all := Contents(memoryTree.root);
      while current.Node?
        invariant Ordered(current)
        invariant forall x :: x in Contents(current) ==> x in all && all[x] == Contents(current)[x]
        invariant forall x :: x in all && x !in Contents(current) ==> x < size
        decreases current
      {
        KeysOfNode(current);
        if current.key >= size {
          assert current.key !in Contents(current.right);
          assert all[current.key] == current.value;
          return Some((current.value.start, current.value.end));
        } else {
          // the `Ordering::Less` arm of the inner match cannot be taken here
          forall x | x in all && x !in Contents(current.right) ensures x < size {
            if x in Contents(current) {
              assert x == current.key || x in Contents(current.left);
            }
          }
          current := current.right;
        }
      }
      return None;
    }
  }
}
