/**
 * The best-fit allocator of the user library: the static `base` and
 * `freep`, and `malloc`, `free` and `morecore` updating them.  The free
 * list is a field holding the ring of free blocks in address order (see
 * module FreeList), and `freep` is the position of the roving block in it.
 * The allocated blocks are recorded by header, with the size their header
 * holds, and the program break is a field that only `morecore` moves.
 */
module Umalloc {
  import opened FreeList

  /** What `morecore` asks `sbrk` for: at least 4096 units. */
  function Grown(n: nat): (nu: nat)
    ensures nu >= n && nu >= MinGrow
  {
    if n < MinGrow then MinGrow else n
  }

  /** The one-block ring `malloc` starts from on its first call: `base` alone. */
  function InitRing(): seq<Block> {
    [Block(Base, 0)]
  }

  /**
   * What a pass of `malloc` for `n` units takes from list `start` with
   * `freep` at `rover` and the break at `brk`: the best fit when one fits,
   * otherwise the best fit after `morecore` has freed `Grown(n)` units at
   * the break.
   */
  ghost function Outcome(start: seq<Block>, rover: nat, brk: int, n: nat): (r: Taken)
    requires |start| >= 1 && start[0] == Block(Base, 0) && rover < |start| && Base < brk && n >= 1
    ensures Fits(start, n) ==>
      && r.rover + 1 < |start| && IsBestFit(start, rover, n, r.rover + 1)
      && r.header + n == End(start[r.rover + 1])
    ensures !Fits(start, n) ==>
      var grown := Grow(start, brk, Grown(n), n);
      && r.rover + 1 < |grown| && IsBestFit(grown, |start| - 1, n, r.rover + 1)
      && r.header + n == End(grown[r.rover + 1])
  {
    if Fits(start, n) then Take(start, rover, n) else Take(Grow(start, brk, Grown(n), n), |start| - 1, n)
  }

  /** The pass after `morecore` scans the grown list from the old highest block. */
  lemma OutcomeAfterGrow(start: seq<Block>, rover: nat, brk: int, n: nat, grown: seq<Block>, from: nat)
    requires |start| >= 1 && start[0] == Block(Base, 0) && rover < |start| && Base < brk && n >= 1
    requires !Fits(start, n) && grown == Grow(start, brk, Grown(n), n) && from == |start| - 1
    ensures Take(grown, from, n) == Outcome(start, rover, brk, n)
  {
  }

  class Allocator {
    /** `freep != 0`: the free list has been set up. */
    var started: bool
    /** The free list, `base` first. */
    var ring: seq<Block>
    /** The position of `freep` in the ring. */
    var rover: nat
    /** The allocated blocks: header address to the size in the header. */
    var headers: map<int, nat>
    /** The program break: the heap ends here. */
    var brk: int

    ghost predicate Valid()
      reads this
    {
      && Base < brk
      && (started ==> Heap(ring, headers, brk) && rover < |ring|)
      && (!started ==> ring == [] && rover == 0 && headers == map[])
    }

    /** A process starts with no free list and nothing allocated. */
    constructor(heapStart: int)
      requires Base < heapStart
      ensures Valid() && !started && brk == heapStart
    {
      started, ring, rover, headers, brk := false, [], 0, map[], heapStart;
    }

    /**
     * One pass of the loop of `malloc` over the whole ring, starting after
     * `freep` and ending at it: the block it chooses, and the block before
     * it.  Changes nothing.
     */
    method Scan(n: nat) returns (best: int, bestPrev: int)
      requires rover < |ring| && ring[0].size == 0 && n >= 1
      ensures best == Best(ring, rover, n)
      ensures best >= 0 <==> Fits(ring, n)
      ensures best >= 0 ==> best >= 1 && bestPrev == best - 1
    {
      var len := |ring|;
      var prevp: nat := rover;
      var p: nat := Next(len, rover);
      ghost var k: nat := 0;
      best, bestPrev := -1, -1;
      while true
        invariant 0 <= k < len && prevp < len
        invariant p == At(len, rover, k) && p == Next(len, prevp)
        invariant best == BestUpTo(ring, rover, n, k)
        invariant best >= 0 ==> 0 <= bestPrev < len && best == Next(len, bestPrev)
        decreases len - k
      {
        if ring[p].size >= n && (best < 0 || ring[p].size < ring[best].size) {
          best, bestPrev := p, prevp;
        }
        assert best == BestUpTo(ring, rover, n, k + 1);
        AtNext(len, rover, k);
        if p == rover {
          break;
        }
        prevp, p, k := p, Next(len, p), k + 1;
      }
      BaseNeverChosen(ring, rover, n);
      BestIsBestFit(ring, rover, n);
    }

    /** The search loop of `free`: the block to link block `bp` in after. */
    method Search(bp: int) returns (p: nat)
      requires Heap(ring, headers, brk) && rover < |ring| && bp in headers
      ensures p == Slot(ring, bp)
    {
      ghost var t := Slot(ring, bp);
      var len := |ring|;
      p := rover;
      while !(ring[p].addr < bp && bp < ring[Next(len, p)].addr)
        invariant p < len
        decreases if p <= t then t - p else t + len - p
      {
        SearchStopsAtSlot(ring, headers, brk, bp, p);
        if ring[p].addr >= ring[Next(len, p)].addr && (bp > ring[p].addr || bp < ring[Next(len, p)].addr) {
          break;
        }
        p := Next(len, p);
      }
      SearchStopsAtSlot(ring, headers, brk, bp, p);
    }

    /**
     * The pointer updates of `free` once the search has stopped at `p`:
     * block `b` absorbs the next block when it ends where that one starts,
     * and block `p` absorbs `b` when it ends where `b` starts.
     */
    method Link(p: nat, b: Block)
      requires p < |ring| && ring[0].addr < b.addr
      modifies this
      ensures ring == Coalesce(old(ring), p, b)
      ensures started == old(started) && rover == old(rover) && headers == old(headers) && brk == old(brk)
    {
      var s := Next(|ring|, p);
      var m, resume := b, p + 1;
      if End(b) == ring[s].addr {
        m, resume := Block(b.addr, b.size + ring[s].size), p + 2;
      }
      if End(ring[p]) == b.addr {
        ring := ring[..p] + [Block(ring[p].addr, ring[p].size + m.size)] + ring[resume..];
      } else {
        ring := ring[..p + 1] + [m] + ring[resume..];
      }
    }

    /**
     * `free(ap)`: the block whose header is just below `ap` goes back on
     * the free list after the last free block below it, merged with the
     * free blocks it touches, and `freep` becomes the block it was linked
     * in after.
     */
    method Free(ap: int)
      requires Valid() && ap - 1 in headers
      modifies this
      ensures Valid() && started && brk == old(brk)
      ensures rover == Slot(old(ring), ap - 1)
      ensures ring == Coalesce(old(ring), rover, Block(ap - 1, old(headers)[ap - 1]))
      ensures headers == old(headers) - {ap - 1}
      ensures Total(ring) == old(Total(ring)) + old(headers)[ap - 1]
    {
      var bp := ap - 1;
      assert started;
      var p := Search(bp);
      var b := Block(bp, headers[bp]);
      ghost var r0, h0 := ring, headers;
      Link(p, b);
      headers := headers - {bp};
      rover := p;
      FreeKeepsHeap(r0, h0, brk, bp, ring, headers);
      CoalesceTotal(r0, p, b);
    }

    /**
     * `morecore(n)`: asks `sbrk` for `Grown(n)` units (`grow` says whether
     * it succeeds) and frees the new region into the list.  On success some
     * free block then fits `n`.
     */
    method MoreCore(n: nat, grow: bool) returns (ok: bool)
      requires Valid() && started && n >= 1
      modifies this
      ensures Valid() && started && ok == grow && headers == old(headers)
      ensures !grow ==> ring == old(ring) && rover == old(rover) && brk == old(brk)
      ensures grow ==>
        && brk == old(brk) + Grown(n)
        && rover == |old(ring)| - 1
        && ring == Grow(old(ring), old(brk), Grown(n), n)
    {
      var nu := n;
      if nu < MinGrow {
        nu := MinGrow;
      }
      if !grow {
        return false;
      }
      var hp := brk;
      GrowKeepsHeap(ring, headers, brk, nu);
      GrowSlot(ring, brk, hp);
      ghost var before := headers;
      brk := brk + nu;
      headers := headers[hp := nu];
      AddThenRemove(before, hp, nu);
      Free(hp + 1);
      return true;
    }

    /**
     * The list update of `malloc` once block `j` is chosen: an exact fit is
     * unlinked by pointing its predecessor past it, a larger block keeps
     * its head and loses `n` units.
     */
    method Cut(j: nat, n: nat)
      requires 1 <= j < |ring| && ring[j].size >= n
      modifies this
      ensures ring == Carve(old(ring), j, n)
      ensures started == old(started) && rover == old(rover) && headers == old(headers) && brk == old(brk)
    {
      if ring[j].size == n {
        ring := ring[..j] + ring[j + 1..];
      } else {
        ring := ring[j := Block(ring[j].addr, ring[j].size - n)];
      }
    }

    /**
     * The end of a pass of `malloc` that found the best fit `best`, with
     * `bestPrev` before it: an exact fit is unlinked, a larger block gives
     * up its tail; the piece's header records `n`, `freep` becomes
     * `bestPrev`, and the address past the header is returned.
     */
    method TakeBlock(best: int, bestPrev: int, n: nat) returns (ap: int)
      requires Valid() && started && n >= 1 && Fits(ring, n)
      requires best == Best(ring, rover, n) && bestPrev == best - 1
      modifies this
      ensures Valid() && started && brk == old(brk)
      ensures Taken(ring, rover, ap - 1) == Take(old(ring), old(rover), n)
      ensures ap - 1 !in old(headers) && headers == old(headers)[ap - 1 := n]
    {
      ghost var r0, h0, v0 := ring, headers, rover;
      BestIsBestFit(ring, rover, n);
      BaseNeverChosen(ring, rover, n);
      var h := End(ring[best]) - n;
      Cut(best, n);
      headers := headers[h := n];
      rover := bestPrev;
      ap := h + 1;
      TakeKeepsHeap(r0, h0, brk, v0, n, Taken(ring, rover, h), headers);
    }

    /**
     * The search loop of `malloc` for `n` units: a pass over the ring, and
     * when it finds nothing, `morecore` and a second pass.  A negative
     * `best` means `sbrk` failed.
     */
    method Find(n: nat, grow: bool) returns (best: int, bestPrev: int)
      requires Valid() && started && n >= 1
      modifies this
      ensures Valid() && started && headers == old(headers)
      ensures best >= 0 <==> grow || Fits(old(ring), n)
      ensures best >= 0 ==> Fits(ring, n) && best == Best(ring, rover, n) && bestPrev == best - 1
      ensures best >= 0 ==> Take(ring, rover, n) == Outcome(old(ring), old(rover), old(brk), n)
      ensures brk == old(brk) + (if !Fits(old(ring), n) && grow then Grown(n) else 0)
      ensures best < 0 ==> ring == old(ring) && rover == old(rover)
    {
      best, bestPrev := Scan(n);
      if best < 0 {
        ghost var r0, v0, b0 := ring, rover, brk;
        var ok := MoreCore(n, grow);
        if ok {
          best, bestPrev := Scan(n);
          OutcomeAfterGrow(r0, v0, b0, n, ring, rover);
        }
      }
    }

    /** `Start()` and `StartRover()`: the ring and `freep` a call of `malloc` scans first. */
    ghost function Start(): seq<Block>
      reads this
    {
      if started then ring else InitRing()
    }

    ghost function StartRover(): nat
      reads this
    {
      if started then rover else 0
    }

    /**
     * `malloc(nbytes)`: sets up the free list on the first call, takes the
     * best fit for `Units(nbytes)` units, growing the heap once when no
     * block fits, and returns the address just past the header, or `Null`
     * when `sbrk` fails.
     */
    method Malloc(nbytes: nat, grow: bool) returns (ap: int)
      requires Valid() && nbytes < Word
      modifies this
      ensures Valid() && started
      ensures ap == Null <==> !grow && !Fits(old(Start()), Units(nbytes))
      ensures ap == Null ==> ring == old(Start()) && rover == old(StartRover()) && headers == old(headers) && brk == old(brk)
      ensures ap != Null ==> ap - 1 !in old(headers) && headers == old(headers)[ap - 1 := Units(nbytes)]
      ensures ap != Null ==> Taken(ring, rover, ap - 1) == Outcome(old(Start()), old(StartRover()), old(brk), Units(nbytes))
      ensures brk == old(brk) + (if !Fits(old(Start()), Units(nbytes)) && grow then Grown(Units(nbytes)) else 0)
    {
      var n := Units(nbytes);
      if !started {
        started, ring, rover := true, InitRing(), 0;
      }
      ghost var r0, b0 := ring, brk;
      assert r0 == old(Start()) && rover == old(StartRover()) && b0 == old(brk);
      var best, bestPrev := Find(n, grow);
      if best < 0 {
        return Null;
      }
      ap := TakeBlock(best, bestPrev, n);
    }
  }
}
