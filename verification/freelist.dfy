/**
 * The free list of the user-space allocator, as values.  Memory is counted
 * in header units (one `Header`, 16 bytes on RV64) and addressed by unit.
 * A block is a header address and a size in units; the free list is the
 * ring of free blocks in address order, starting at the size-0 block
 * `base`, which lives in static storage below the heap.  The ring's links
 * are implicit: each block points to the next one, and the last (the
 * highest) back to `base`.
 */
module FreeList {

  /** `sizeof(Header)` on RV64: a pointer and a `uint`, aligned to 8. */
  const HeaderBytes: nat := 16

  /** Number of values of a 32-bit `uint`. */
  const Word: nat := 0x1_0000_0000

  /** The smallest request `morecore` makes of `sbrk`, in units. */
  const MinGrow: nat := 4096

  /** The null pointer. */
  const Null: int := 0

  /** The address of the static `base` header, below every heap block. */
  const Base: int := 1

  datatype Block = Block(addr: int, size: nat)

  /** One past the last unit of the block. */
  function End(b: Block): int {
    b.addr + b.size
  }

  // ------------------------------------------------------------- units

  /** `nunits`: the request rounded up to whole units, plus one for the header. */
  function Units(nbytes: nat): (n: nat)
    requires nbytes < Word
    ensures n >= 1
  {
    (nbytes + HeaderBytes - 1) / HeaderBytes + 1
  }

  /**
   * The units after the header hold the request, with less than one unit
   * to spare, and the count fits a `uint`.  (`sizeof(Header)` is a 64-bit
   * `size_t`, so `nbytes + 15` does not wrap.)
   */
  lemma UnitsCover(nbytes: nat)
    requires nbytes < Word
    ensures (Units(nbytes) - 1) * HeaderBytes >= nbytes
    ensures (Units(nbytes) - 1) * HeaderBytes < nbytes + HeaderBytes
    ensures Units(nbytes) < Word
  {
    var q := (nbytes + HeaderBytes - 1) / HeaderBytes;
    assert nbytes + HeaderBytes - 1 == q * HeaderBytes + (nbytes + HeaderBytes - 1) % HeaderBytes;
  }

  // ------------------------------------------------------- heap shape

  /** Block `i` ends before block `j` starts. */
  predicate Ordered(ring: seq<Block>, i: int, j: int)
    requires 0 <= i < |ring| && 0 <= j < |ring|
  {
    End(ring[i]) < ring[j].addr
  }

  /** Blocks in strictly increasing order, no two touching or overlapping. */
  predicate Separated(ring: seq<Block>) {
    forall i, j :: 0 <= i < j < |ring| ==> Ordered(ring, i, j)
  }

  /** The block [h, h + s) shares no unit with `b`. */
  predicate Apart(h: int, s: nat, b: Block) {
    h + s <= b.addr || End(b) <= h
  }

  /** Block `i` is a real block below the break. */
  predicate Live(ring: seq<Block>, i: int, brk: int)
    requires 0 <= i < |ring|
  {
    ring[i].size >= 1 && End(ring[i]) <= brk
  }

  /** A free list below the program break `brk`. */
  predicate FreeRing(ring: seq<Block>, brk: int) {
    && |ring| >= 1
    && ring[0] == Block(Base, 0)
    && Separated(ring)
    && (forall i :: 1 <= i < |ring| ==> Live(ring, i, brk))
  }

  /** The allocated block with header `h` lies in the heap, above `base`. */
  predicate Placed(headers: map<int, nat>, h: int, brk: int)
    requires h in headers
  {
    Base < h && headers[h] >= 1 && h + headers[h] <= brk
  }

  /** The allocated blocks with headers `h` and `g` share no unit. */
  predicate Disjoint(headers: map<int, nat>, h: int, g: int)
    requires h in headers && g in headers
  {
    Apart(h, headers[h], Block(g, headers[g]))
  }

  /** Allocated blocks, by header address and the size their header records. */
  predicate Allocated(headers: map<int, nat>, brk: int) {
    && (forall h :: h in headers ==> Placed(headers, h, brk))
    && (forall h, g :: h in headers && g in headers && h != g ==> Disjoint(headers, h, g))
  }

  /** The allocated block with header `h` shares no unit with free block `i`. */
  predicate Clear(ring: seq<Block>, headers: map<int, nat>, h: int, i: int)
    requires h in headers && 0 <= i < |ring|
  {
    Apart(h, headers[h], ring[i])
  }

  /** No allocated block shares a unit with a free one. */
  predicate AllApart(ring: seq<Block>, headers: map<int, nat>) {
    forall h, i :: h in headers && 0 <= i < |ring| ==> Clear(ring, headers, h, i)
  }

  /** The allocator's memory: free and allocated blocks, all apart. */
  predicate Heap(ring: seq<Block>, headers: map<int, nat>, brk: int) {
    FreeRing(ring, brk) && Allocated(headers, brk) && AllApart(ring, headers)
  }

  /** The free units in the list. */
  function Total(ring: seq<Block>): nat {
    if ring == [] then 0 else Total(ring[..|ring| - 1]) + ring[|ring| - 1].size
  }

  lemma {:induction false} TotalConcat(a: seq<Block>, b: seq<Block>)
    ensures Total(a + b) == Total(a) + Total(b)
  {
    if b != [] {
      assert (a + b)[..|a + b| - 1] == a + b[..|b| - 1];
      TotalConcat(a, b[..|b| - 1]);
    } else {
      assert a + b == a;
    }
  }

  /** Splitting a ring around position `j`. */
  lemma TotalAround(ring: seq<Block>, j: nat)
    requires j < |ring|
    ensures Total(ring) == Total(ring[..j]) + ring[j].size + Total(ring[j + 1..])
  {
    assert ring == ring[..j] + [ring[j]] + ring[j + 1..];
    TotalConcat(ring[..j] + [ring[j]], ring[j + 1..]);
    TotalConcat(ring[..j], [ring[j]]);
    assert [ring[j]][..0] == [];
  }

  /** A ring built from separated parts in order is separated. */
  lemma SeparatedSplice(pre: seq<Block>, x: Block, post: seq<Block>)
    requires Separated(pre) && Separated(post)
    requires forall i :: 0 <= i < |pre| ==> End(pre[i]) < x.addr
    requires forall j :: 0 <= j < |post| ==> End(x) < post[j].addr
    ensures Separated(pre + [x] + post)
  {
    var s := pre + [x] + post;
    forall i, j | 0 <= i < j < |s|
      ensures Ordered(s, i, j)
    {
      if j < |pre| {
        assert Ordered(pre, i, j);
        assert s[i] == pre[i] && s[j] == pre[j];
      } else if j == |pre| {
        assert s[i] == pre[i];
      } else if i < |pre| {
        assert s[i] == pre[i] && s[j] == post[j - |pre| - 1];
      } else if i == |pre| {
        assert s[j] == post[j - |pre| - 1];
      } else {
        assert Ordered(post, i - |pre| - 1, j - |pre| - 1);
        assert s[i] == post[i - |pre| - 1] && s[j] == post[j - |pre| - 1];
      }
    }
  }

  // ------------------------------------------------------- scan order

  /** The block a block points to. */
  function Next(len: nat, i: nat): (k: nat)
    requires i < len
    ensures k < len
  {
    if i + 1 == len then 0 else i + 1
  }

  /**
   * The step at which the scan that starts after `rover` reaches block `i`:
   * `rover`'s successor is step 0 and `rover` itself is the last step.
   */
  function Pos(len: nat, rover: nat, i: nat): (k: nat)
    requires rover < len && i < len
    ensures k < len
  {
    if i > rover then i - rover - 1 else i + len - rover - 1
  }

  /** The block visited at step `k`. */
  function At(len: nat, rover: nat, k: nat): (i: nat)
    requires rover < len && k < len
    ensures i < len && Pos(len, rover, i) == k
  {
    if rover + 1 + k < len then rover + 1 + k else rover + 1 + k - len
  }

  lemma AtPos(len: nat, rover: nat, i: nat)
    requires rover < len && i < len
    ensures At(len, rover, Pos(len, rover, i)) == i
  {
  }

  /** The scan visits the blocks one after the other and ends at `rover`. */
  lemma AtNext(len: nat, rover: nat, k: nat)
    requires rover < len && k < len
    ensures At(len, rover, k) == rover <==> k == len - 1
    ensures k + 1 < len ==> At(len, rover, k + 1) == Next(len, At(len, rover, k))
  {
  }

  // --------------------------------------------------------- best fit

  /**
   * The best fit among the first `k` blocks of the scan, as the loop of
   * `malloc` keeps it: a block replaces the current choice only when it is
   * strictly smaller.  -1 when none of them fits.
   */
  function BestUpTo(ring: seq<Block>, rover: nat, n: nat, k: nat): (r: int)
    requires rover < |ring| && k <= |ring|
    ensures -1 <= r < |ring|
  {
    if k == 0 then -1
    else
      var b := BestUpTo(ring, rover, n, k - 1);
      var i := At(|ring|, rover, k - 1);
      if ring[i].size >= n && (b < 0 || ring[i].size < ring[b].size) then i else b
  }

  /** The block the whole scan chooses. */
  function Best(ring: seq<Block>, rover: nat, n: nat): int
    requires rover < |ring|
  {
    BestUpTo(ring, rover, n, |ring|)
  }

  /** Some block has at least `n` units. */
  predicate Fits(ring: seq<Block>, n: nat) {
    exists i :: 0 <= i < |ring| && ring[i].size >= n
  }

  /**
   * `j` is the best fit: the smallest block with at least `n` units, and of
   * the smallest ones the first the scan from `rover` reaches.
   */
  predicate IsBestFit(ring: seq<Block>, rover: nat, n: nat, j: int)
    requires rover < |ring|
  {
    && 0 <= j < |ring| && ring[j].size >= n
    && forall i :: 0 <= i < |ring| && ring[i].size >= n ==>
         ring[j].size < ring[i].size ||
         (ring[j].size == ring[i].size && Pos(|ring|, rover, j) <= Pos(|ring|, rover, i))
  }

  /** What the first `k` steps of the scan have established. */
  lemma {:induction false} BestUpToCorrect(ring: seq<Block>, rover: nat, n: nat, k: nat)
    requires rover < |ring| && k <= |ring|
    ensures var r := BestUpTo(ring, rover, n, k);
      && (r < 0 <==> forall i :: 0 <= i < |ring| && Pos(|ring|, rover, i) < k ==> ring[i].size < n)
      && (r >= 0 ==> Pos(|ring|, rover, r) < k && ring[r].size >= n)
      && (r >= 0 ==> forall i :: 0 <= i < |ring| && Pos(|ring|, rover, i) < k && ring[i].size >= n ==>
            ring[r].size < ring[i].size ||
            (ring[r].size == ring[i].size && Pos(|ring|, rover, r) <= Pos(|ring|, rover, i)))
  {
    if k > 0 {
      BestUpToCorrect(ring, rover, n, k - 1);
      var i := At(|ring|, rover, k - 1);
      forall x | 0 <= x < |ring| && Pos(|ring|, rover, x) == k - 1
        ensures x == i
      {
        AtPos(|ring|, rover, x);
      }
    }
  }

  /**
   * The scan chooses a block exactly when one fits, and what it chooses is
   * the best fit.
   */
  lemma BestIsBestFit(ring: seq<Block>, rover: nat, n: nat)
    requires rover < |ring|
    ensures Best(ring, rover, n) >= 0 <==> Fits(ring, n)
    ensures Best(ring, rover, n) >= 0 ==> IsBestFit(ring, rover, n, Best(ring, rover, n))
  {
    BestUpToCorrect(ring, rover, n, |ring|);
  }

  /** There is only one best fit. */
  lemma BestFitUnique(ring: seq<Block>, rover: nat, n: nat, j1: int, j2: int)
    requires rover < |ring|
    requires IsBestFit(ring, rover, n, j1) && IsBestFit(ring, rover, n, j2)
    ensures j1 == j2
  {
    AtPos(|ring|, rover, j1);
    AtPos(|ring|, rover, j2);
  }

  /** A request is at least one unit, so the size-0 `base` is never chosen. */
  lemma BaseNeverChosen(ring: seq<Block>, rover: nat, n: nat)
    requires rover < |ring| && ring[0].size == 0 && n >= 1
    ensures Best(ring, rover, n) != 0
  {
    BestUpToCorrect(ring, rover, n, |ring|);
  }

  // ---------------------------------------------------------- carving

  /**
   * The free list after `malloc` takes `n` units from block `j`: an exact
   * fit is unlinked, a larger block keeps its head and loses its tail.
   * Every other block stays where it was: the predecessor of the chosen
   * block is still at position `j - 1`, and on a split the rest of the ring
   * is unchanged.
   */
  function Carve(ring: seq<Block>, j: nat, n: nat): (r: seq<Block>)
    requires 1 <= j < |ring| && ring[j].size >= n
    ensures j - 1 < |r| && r[..j] == ring[..j]
    ensures ring[j].size == n ==> r == ring[..j] + ring[j + 1..]
    ensures ring[j].size > n ==>
      && |r| == |ring|
      && r[j] == Block(ring[j].addr, ring[j].size - n)
      && r[j + 1..] == ring[j + 1..]
  {
    if ring[j].size == n then ring[..j] + ring[j + 1..]
    else ring[j := Block(ring[j].addr, ring[j].size - n)]
  }

  /** The header of the piece handed out: the last `n` units of block `j`. */
  function Carved(ring: seq<Block>, j: nat, n: nat): int
    requires j < |ring|
  {
    End(ring[j]) - n
  }

  /** The units handed out are exactly the units the free list loses. */
  lemma CarveTotal(ring: seq<Block>, j: nat, n: nat)
    requires 1 <= j < |ring| && ring[j].size >= n
    ensures Total(Carve(ring, j, n)) + n == Total(ring)
  {
    TotalAround(ring, j);
    var r := Carve(ring, j, n);
    if ring[j].size == n {
      TotalConcat(ring[..j], ring[j + 1..]);
    } else {
      TotalAround(r, j);
      assert r[..j] == ring[..j] && r[j + 1..] == ring[j + 1..];
    }
  }

  lemma SeparatedSlice(ring: seq<Block>, a: nat, b: nat)
    requires Separated(ring) && a <= b <= |ring|
    ensures Separated(ring[a..b])
  {
    var s := ring[a..b];
    forall i, j | 0 <= i < j < |s|
      ensures Ordered(s, i, j)
    {
      assert Ordered(ring, a + i, a + j);
      assert s[i] == ring[a + i] && s[j] == ring[a + j];
    }
  }

  /** The free list after carving is a free list. */
  lemma CarveKeepsRing(ring: seq<Block>, brk: int, j: nat, n: nat)
    requires FreeRing(ring, brk) && 1 <= j < |ring| && n >= 1 && ring[j].size >= n
    ensures FreeRing(Carve(ring, j, n), brk)
  {
    var r := Carve(ring, j, n);
    if ring[j].size == n {
      forall x, y | 0 <= x < y < |r|
        ensures Ordered(r, x, y)
      {
        var x', y' := if x < j then x else x + 1, if y < j then y else y + 1;
        assert Ordered(ring, x', y');
        assert r[x] == ring[x'] && r[y] == ring[y'];
      }
      forall x | 1 <= x < |r|
        ensures Live(r, x, brk)
      {
        var x' := if x < j then x else x + 1;
        assert Live(ring, x', brk);
        assert r[x] == ring[x'];
      }
    } else {
      forall x, y | 0 <= x < y < |r|
        ensures Ordered(r, x, y)
      {
        assert Ordered(ring, x, y);
        assert End(r[x]) <= End(ring[x]) && r[y].addr == ring[y].addr;
      }
      forall x | 1 <= x < |r|
        ensures Live(r, x, brk)
      {
        assert Live(ring, x, brk);
      }
    }
  }

  /**
   * The piece handed out is a new allocated block: it was free, so no
   * allocated block has its header, and the heap stays well formed once the
   * header records `n`.
   */
  lemma CarveKeepsHeap(ring: seq<Block>, headers: map<int, nat>, brk: int, j: nat, n: nat)
    requires Heap(ring, headers, brk) && 1 <= j < |ring| && n >= 1 && ring[j].size >= n
    ensures Carved(ring, j, n) !in headers
    ensures Heap(Carve(ring, j, n), headers[Carved(ring, j, n) := n], brk)
  {
    var h := Carved(ring, j, n);
    var r := Carve(ring, j, n);
    var hs := headers[h := n];
    CarveKeepsRing(ring, brk, j, n);
    assert Live(ring, j, brk) && Ordered(ring, 0, j);
    forall g | g in headers
      ensures Apart(g, headers[g], Block(h, n)) && Apart(h, n, Block(g, headers[g]))
    {
      assert Clear(ring, headers, g, j) && Placed(headers, g, brk);
    }
    forall g | g in hs
      ensures Placed(hs, g, brk)
    {
      if g != h {
        assert Placed(headers, g, brk);
      }
    }
    forall g, k | g in hs && k in hs && g != k
      ensures Disjoint(hs, g, k)
    {
      if g != h && k != h {
        assert Disjoint(headers, g, k);
      }
    }
    forall g, x | g in hs && 0 <= x < |r|
      ensures Clear(r, hs, g, x)
    {
      var x' := if ring[j].size == n && x >= j then x + 1 else x;
      if g != h {
        assert Clear(ring, headers, g, x');
      } else if x' < j {
        assert Ordered(ring, x', j);
      } else if x' > j {
        assert Ordered(ring, j, x');
      }
    }
  }

  // -------------------------------------------------------- inserting

  /** The last block of the list below `x`, from position `k` down. */
  function SlotFrom(ring: seq<Block>, x: int, k: nat): (t: nat)
    requires k < |ring| && ring[0].addr < x
    ensures t <= k && ring[t].addr < x
    ensures forall i :: t < i <= k ==> ring[i].addr >= x
  {
    if k == 0 || ring[k].addr < x then k else SlotFrom(ring, x, k - 1)
  }

  /**
   * Where `free` inserts a block with header `x`: after the last free block
   * below it (the highest block when `x` is above them all).
   */
  function Slot(ring: seq<Block>, x: int): (t: nat)
    requires |ring| >= 1 && ring[0].addr < x
    ensures t < |ring| && ring[t].addr < x
    ensures forall i :: t < i < |ring| ==> ring[i].addr >= x
  {
    SlotFrom(ring, x, |ring| - 1)
  }

  /** `bp + bp->s.size == p->s.ptr`: the freed block ends where the next starts. */
  predicate Upper(ring: seq<Block>, t: nat, b: Block)
    requires t < |ring|
  {
    End(b) == ring[Next(|ring|, t)].addr
  }

  /** `p + p->s.size == bp`: the block before ends where the freed one starts. */
  predicate Lower(ring: seq<Block>, t: nat, b: Block)
    requires t < |ring|
  {
    End(ring[t]) == b.addr
  }

  /**
   * The freed block after merging with the blocks it touches: it starts
   * where block `t` starts when that block ends at `b`, and ends where the
   * next block ends when `b` ends where that block starts.
   */
  function Merged(ring: seq<Block>, t: nat, b: Block): (m: Block)
    requires t < |ring|
    ensures m.addr == if Lower(ring, t, b) then ring[t].addr else b.addr
    ensures End(m) == if Upper(ring, t, b) then End(ring[Next(|ring|, t)]) else End(b)
  {
    var m := if Upper(ring, t, b) then Block(b.addr, b.size + ring[Next(|ring|, t)].size) else b;
    if Lower(ring, t, b) then Block(ring[t].addr, ring[t].size + m.size) else m
  }

  /**
   * The free list after `free` links block `b` in after block `t`, merging
   * it with the next block and with block `t` where they touch.  The
   * blocks below the slot keep their places, the merged block follows
   * them, and the blocks above the absorbed ones follow unchanged: the
   * list gains one block and loses one for each neighbour absorbed.
   */
  function Coalesce(ring: seq<Block>, t: nat, b: Block): (r: seq<Block>)
    requires t < |ring| && ring[0].addr < b.addr
    ensures t < |r|
    ensures |r| == |ring| + 1 - (if Lower(ring, t, b) then 1 else 0) - (if Upper(ring, t, b) then 1 else 0)
    ensures r[..Kept(ring, t, b)] == ring[..Kept(ring, t, b)]
    ensures r[Kept(ring, t, b)] == Merged(ring, t, b)
    ensures r[Kept(ring, t, b) + 1..] == ring[Resume(ring, t, b)..]
  {
    var upper := Upper(ring, t, b);
    ring[..if Lower(ring, t, b) then t else t + 1] + [Merged(ring, t, b)] + ring[t + 1 + (if upper then 1 else 0)..]
  }

  /** How many blocks before the freed block's slot `Coalesce` keeps. */
  function Kept(ring: seq<Block>, t: nat, b: Block): nat
    requires t < |ring|
  {
    if Lower(ring, t, b) then t else t + 1
  }

  /** Where the blocks after the merged block resume. */
  function Resume(ring: seq<Block>, t: nat, b: Block): nat
    requires t < |ring|
  {
    t + 1 + if Upper(ring, t, b) then 1 else 0
  }

  lemma TotalSplit(ring: seq<Block>, d: nat, e: nat)
    requires d <= e <= |ring|
    ensures Total(ring) == Total(ring[..d]) + Total(ring[d..e]) + Total(ring[e..])
  {
    assert ring == ring[..d] + ring[d..e] + ring[e..];
    TotalConcat(ring[..d] + ring[d..e], ring[e..]);
    TotalConcat(ring[..d], ring[d..e]);
  }

  /** The merged block holds the freed block and the blocks it absorbs. */
  lemma MergedSize(ring: seq<Block>, t: nat, b: Block)
    requires t < |ring| && ring[0].addr < b.addr
    ensures Kept(ring, t, b) <= Resume(ring, t, b) <= |ring|
    ensures Total(ring[Kept(ring, t, b)..Resume(ring, t, b)]) + b.size == Merged(ring, t, b).size
  {
    assert Upper(ring, t, b) ==> t + 1 < |ring| && Next(|ring|, t) == t + 1;
    var mid := ring[Kept(ring, t, b)..Resume(ring, t, b)];
    if |mid| == 2 {
      assert mid == [ring[t], ring[t + 1]];
      assert Total(mid) == Total([ring[t]]) + ring[t + 1].size;
      assert Total([ring[t]]) == ring[t].size by { assert [ring[t]][..0] == []; }
    } else if |mid| == 1 {
      assert mid[..0] == [];
    }
  }

  /** Freeing adds exactly the freed block's units to the free list. */
  lemma CoalesceTotal(ring: seq<Block>, t: nat, b: Block)
    requires t < |ring| && ring[0].addr < b.addr
    ensures Total(Coalesce(ring, t, b)) == Total(ring) + b.size
  {
    MergedSize(ring, t, b);
    var d, e := Kept(ring, t, b), Resume(ring, t, b);
    var m := Merged(ring, t, b);
    assert Coalesce(ring, t, b) == ring[..d] + [m] + ring[e..];
    TotalConcat(ring[..d] + [m], ring[e..]);
    TotalConcat(ring[..d], [m]);
    assert [m][..0] == [];
    TotalSplit(ring, d, e);
  }

  /** Facts about the freed block's place that `free` relies on. */
  lemma SlotBounds(ring: seq<Block>, headers: map<int, nat>, brk: int, bp: int)
    requires Heap(ring, headers, brk) && bp in headers
    ensures End(ring[Slot(ring, bp)]) <= bp
    ensures Slot(ring, bp) + 1 < |ring| ==> bp + headers[bp] <= ring[Slot(ring, bp) + 1].addr
  {
    var t := Slot(ring, bp);
    assert Clear(ring, headers, bp, t) && Placed(headers, bp, brk);
    if t + 1 < |ring| {
      assert Clear(ring, headers, bp, t + 1) && Live(ring, t + 1, brk);
    }
  }

  /** The merged block lies strictly between the blocks around it. */
  lemma FreeSeparated(ring: seq<Block>, headers: map<int, nat>, brk: int, bp: int)
    requires Heap(ring, headers, brk) && bp in headers
    ensures Separated(Coalesce(ring, Slot(ring, bp), Block(bp, headers[bp])))
  {
    var t := Slot(ring, bp);
    var b := Block(bp, headers[bp]);
    SlotBounds(ring, headers, brk, bp);
    var d, e := Kept(ring, t, b), Resume(ring, t, b);
    var m := Merged(ring, t, b);
    assert Upper(ring, t, b) ==> t + 1 < |ring| && e == t + 2;
    var pre, post := ring[..d], ring[e..];
    assert Coalesce(ring, t, b) == pre + [m] + post;
    assert m.addr == (if Lower(ring, t, b) then ring[t].addr else bp);
    assert End(m) == (if Upper(ring, t, b) then End(ring[t + 1]) else bp + headers[bp]);
    SeparatedSlice(ring, 0, d);
    SeparatedSlice(ring, e, |ring|);
    assert ring[e..|ring|] == post;
    forall i | 0 <= i < |pre|
      ensures End(pre[i]) < m.addr
    {
      assert pre[i] == ring[i];
      if i < t {
        assert Ordered(ring, i, t);
      }
    }
    forall j | 0 <= j < |post|
      ensures End(m) < post[j].addr
    {
      assert post[j] == ring[e + j];
      if e + j > t + 1 {
        assert Ordered(ring, t + 1, e + j);
      }
    }
    SeparatedSplice(pre, m, post);
  }

  lemma FreeKeepsRing(ring: seq<Block>, headers: map<int, nat>, brk: int, bp: int)
    requires Heap(ring, headers, brk) && bp in headers
    ensures FreeRing(Coalesce(ring, Slot(ring, bp), Block(bp, headers[bp])), brk)
  {
    var t := Slot(ring, bp);
    var b := Block(bp, headers[bp]);
    FreeSeparated(ring, headers, brk, bp);
    SlotBounds(ring, headers, brk, bp);
    var d, e := Kept(ring, t, b), Resume(ring, t, b);
    var m := Merged(ring, t, b);
    assert Upper(ring, t, b) ==> t + 1 < |ring| && e == t + 2;
    var pre, post := ring[..d], ring[e..];
    var r := pre + [m] + post;
    assert Coalesce(ring, t, b) == r;
    assert Placed(headers, bp, brk);
    if t > 0 {
      assert Live(ring, t, brk);
    }
    assert Upper(ring, t, b) ==> Live(ring, t + 1, brk);
    assert End(m) <= brk && m.size >= 1;
    assert d >= 1;
    forall i | 1 <= i < |r|
      ensures Live(r, i, brk)
    {
      if i < d {
        assert r[i] == pre[i] && Live(ring, i, brk);
      } else if i > d {
        assert r[i] == post[i - d - 1] && Live(ring, e + i - d - 1, brk);
      }
    }
  }

  lemma FreeKeepsApart(ring: seq<Block>, headers: map<int, nat>, brk: int, bp: int)
    requires Heap(ring, headers, brk) && bp in headers
    ensures AllApart(Coalesce(ring, Slot(ring, bp), Block(bp, headers[bp])), headers - {bp})
  {
    var t := Slot(ring, bp);
    var b := Block(bp, headers[bp]);
    var d, e := Kept(ring, t, b), Resume(ring, t, b);
    var m := Merged(ring, t, b);
    assert Upper(ring, t, b) ==> t + 1 < |ring| && e == t + 2;
    var r := Coalesce(ring, t, b);
    assert r == ring[..d] + [m] + ring[e..];
    var hs := headers - {bp};
    forall g, i | g in hs && 0 <= i < |r|
      ensures Clear(r, hs, g, i)
    {
      if i < d {
        assert r[i] == ring[i] && Clear(ring, headers, g, i);
      } else if i > d {
        assert r[i] == ring[e + i - d - 1] && Clear(ring, headers, g, e + i - d - 1);
      } else {
        assert Disjoint(headers, g, bp);
        assert Clear(ring, headers, g, t);
        if Upper(ring, t, b) {
          assert Clear(ring, headers, g, t + 1);
        }
      }
    }
  }

  /**
   * `free` keeps the heap well formed: the block leaves the allocated set
   * and its units rejoin the free list, merged with the free blocks it
   * touches.  `r` and `hs` are the list and the headers `free` leaves.
   */
  lemma FreeKeepsHeap(ring: seq<Block>, headers: map<int, nat>, brk: int, bp: int, r: seq<Block>, hs: map<int, nat>)
    requires Heap(ring, headers, brk) && bp in headers
    requires r == Coalesce(ring, Slot(ring, bp), Block(bp, headers[bp])) && hs == headers - {bp}
    ensures Heap(r, hs, brk)
  {
    FreeKeepsRing(ring, headers, brk, bp);
    FreeKeepsApart(ring, headers, brk, bp);
  }

  /** `free`'s search stops at `p` because `bp` lies between `p` and its successor. */
  predicate Between(ring: seq<Block>, p: nat, x: int)
    requires p < |ring|
  {
    ring[p].addr < x < ring[Next(|ring|, p)].addr
  }

  /** `free`'s search stops at the wrap point when `bp` is past either end. */
  predicate Wraps(ring: seq<Block>, p: nat, x: int)
    requires p < |ring|
  {
    ring[p].addr >= ring[Next(|ring|, p)].addr && (x > ring[p].addr || x < ring[Next(|ring|, p)].addr)
  }

  /**
   * The search loop of `free` stops exactly at the slot: the block is
   * between `p` and its successor, or `p` is the highest block and the
   * freed block lies above it.
   */
  lemma SearchStopsAtSlot(ring: seq<Block>, headers: map<int, nat>, brk: int, bp: int, p: nat)
    requires Heap(ring, headers, brk) && bp in headers && p < |ring|
    ensures Between(ring, p, bp) || Wraps(ring, p, bp) <==> p == Slot(ring, bp)
  {
    var t := Slot(ring, bp);
    var len := |ring|;
    assert Clear(ring, headers, bp, p) && Placed(headers, bp, brk);
    if p + 1 < len {
      assert Ordered(ring, p, p + 1);
      assert Clear(ring, headers, bp, p + 1) && Live(ring, p + 1, brk);
      if p < t {
        assert ring[p + 1].addr <= ring[t].addr by {
          if p + 1 < t {
            assert Ordered(ring, p + 1, t);
          }
        }
      }
    } else if p > 0 {
      assert Ordered(ring, 0, p);
    }
  }

  /** A block at or above the break goes after every free block. */
  lemma GrowSlot(ring: seq<Block>, brk: int, x: int)
    requires FreeRing(ring, brk) && brk <= x && Base < x
    ensures Slot(ring, x) == |ring| - 1
  {
    if |ring| > 1 {
      assert Live(ring, |ring| - 1, brk);
    }
  }

  /**
   * `morecore` keeps the heap well formed: the region `sbrk` returns at the
   * old break becomes an allocated block of `nu` units, fresh among the
   * headers, and the break moves past it.
   */
  lemma GrowKeepsHeap(ring: seq<Block>, headers: map<int, nat>, brk: int, nu: nat)
    requires Heap(ring, headers, brk) && brk > Base && nu >= 1
    ensures brk !in headers
    ensures Heap(ring, headers[brk := nu], brk + nu)
  {
    var hs := headers[brk := nu];
    forall h | h in hs
      ensures Placed(hs, h, brk + nu)
    {
      if h != brk {
        assert Placed(headers, h, brk);
      }
    }
    forall h, g | h in hs && g in hs && h != g
      ensures Disjoint(hs, h, g)
    {
      if h != brk && g != brk {
        assert Disjoint(headers, h, g);
      } else if h != brk {
        assert Placed(headers, h, brk);
      } else {
        assert Placed(headers, g, brk);
      }
    }
    forall h, i | h in hs && 0 <= i < |ring|
      ensures Clear(ring, hs, h, i)
    {
      if h != brk {
        assert Clear(ring, headers, h, i);
      } else if i > 0 {
        assert Live(ring, i, brk);
      }
    }
    var top := brk + nu;
    forall i | 1 <= i < |ring|
      ensures Live(ring, i, top)
    {
      assert Live(ring, i, brk);
    }
  }

  /** Adding a fresh header and removing it again leaves the headers as they were. */
  lemma AddThenRemove(headers: map<int, nat>, h: int, s: nat)
    requires h !in headers
    ensures headers[h := s] - {h} == headers
  {
  }

  /** After `free`, some free block holds at least the freed block's units. */
  lemma CoalesceFits(ring: seq<Block>, t: nat, b: Block, n: nat)
    requires t < |ring| && ring[0].addr < b.addr && b.size >= n
    ensures Fits(Coalesce(ring, t, b), n)
  {
    var d := Kept(ring, t, b);
    assert Upper(ring, t, b) ==> t + 1 < |ring|;
    assert Coalesce(ring, t, b)[d] == Merged(ring, t, b);
  }

  // ------------------------------------------------- the whole operations

  /** What `malloc` leaves behind when a block fits: the list, `freep`, and the header handed out. */
  datatype Taken = Taken(ring: seq<Block>, rover: nat, header: int)

  /**
   * `malloc` on a list where some block fits: the best fit gives up its
   * last `n` units, and `freep` becomes its predecessor.
   */
  function Take(ring: seq<Block>, rover: nat, n: nat): (r: Taken)
    requires rover < |ring| && ring[0].size == 0 && n >= 1 && Fits(ring, n)
    ensures r.rover + 1 < |ring| && IsBestFit(ring, rover, n, r.rover + 1)
    ensures r.header + n == End(ring[r.rover + 1])
  {
    BestIsBestFit(ring, rover, n);
    BaseNeverChosen(ring, rover, n);
    var j := Best(ring, rover, n);
    Taken(Carve(ring, j, n), j - 1, Carved(ring, j, n))
  }

  /**
   * Taking a block keeps the heap well formed: the header handed out is
   * fresh, the free list loses exactly the `n` units handed out, and
   * `freep` stays in the list.
   */
  lemma TakeKeepsHeap(ring: seq<Block>, headers: map<int, nat>, brk: int, rover: nat, n: nat, r: Taken, hs: map<int, nat>)
    requires Heap(ring, headers, brk) && rover < |ring| && n >= 1 && Fits(ring, n)
    requires r == Take(ring, rover, n) && hs == headers[r.header := n]
    ensures r.header !in headers && Heap(r.ring, hs, brk) && r.rover < |r.ring|
    ensures Total(r.ring) + n == Total(ring)
  {
    BestIsBestFit(ring, rover, n);
    BaseNeverChosen(ring, rover, n);
    var j := Best(ring, rover, n);
    CarveKeepsHeap(ring, headers, brk, j, n);
    CarveTotal(ring, j, n);
  }

  /**
   * The list after `morecore` frees a region of `Grown(n)` units at the
   * break: a block that fits `n` is then on it.
   */
  function Grow(ring: seq<Block>, brk: int, nu: nat, n: nat): (r: seq<Block>)
    requires |ring| >= 1 && ring[0] == Block(Base, 0) && Base < brk && nu >= n
    ensures |r| >= |ring| && r[0] == Block(Base, 0) && Fits(r, n)
  {
    CoalesceFits(ring, |ring| - 1, Block(brk, nu), n);
    assert !Upper(ring, |ring| - 1, Block(brk, nu));
    Coalesce(ring, |ring| - 1, Block(brk, nu))
  }
}
