/** The kernel heap as a sequence of blocks that tile one 4 MiB pool.

    The pool holds headers of 12 bytes, each followed by its payload. A block's address is the number
    of bytes in front of it, so the sequence alone determines where everything is; payload pointers
    are offsets into the pool. */
module HeapModel {
  const POOL_SIZE: nat := 4194304        // PAGE_SIZE * MAX_PAGES
  const HEADER: nat := 12                // sizeof(MemoryBlock) with 32-bit pointers
  const MIN_REST: nat := 8               // smallest payload worth splitting off
  const SIZE_T_RANGE: nat := 0x1_0000_0000

  datatype Option<+T> = None | Some(value: T)

  datatype Block = Block(size: nat, used: bool)

  /** The result of an allocation: the new block sequence, and the payload pointer or NULL. */
  datatype Outcome = Outcome(blocks: seq<Block>, ptr: Option<nat>)

  const FRESH: seq<Block> := [Block(POOL_SIZE - HEADER, false)]

  function Bytes(bs: seq<Block>): nat {
    if bs == [] then 0 else HEADER + bs[0].size + Bytes(bs[1..])
  }

  /** The live payloads of the blocks starting at address `base`: pointer to payload size. */
  function Live(bs: seq<Block>, base: nat): map<nat, nat> {
    if bs == [] then map[]
    else
      var rest := Live(bs[1..], base + HEADER + bs[0].size);
      if bs[0].used then rest[base + HEADER := bs[0].size] else rest
  }

  function FreeBytes(bs: seq<Block>): nat {
    if bs == [] then 0 else (if bs[0].used then 0 else bs[0].size) + FreeBytes(bs[1..])
  }

  /** Number of neighbouring pairs of free blocks. */
  function FreePairs(bs: seq<Block>): nat {
    if |bs| < 2 then 0
    else (if !bs[0].used && !bs[1].used then 1 else 0) + FreePairs(bs[1..])
  }

  ghost predicate Aligned(bs: seq<Block>) {
    forall b | b in bs :: b.size % 4 == 0
  }

  /** `(size + 7) & ~7` in 32-bit unsigned arithmetic. */
  function RoundUp8(request: nat): nat {
    (request + 7) % SIZE_T_RANGE / 8 * 8
  }

  predicate Fits(b: Block, size: nat) {
    !b.used && b.size >= size
  }

  /** What a fitting free block turns into when `size` bytes are taken from it. */
  function PlaceIn(b: Block, size: nat): seq<Block>
    requires Fits(b, size)
  {
    if b.size >= size + HEADER + MIN_REST
    then [Block(size, true), Block(b.size - size - HEADER, false)]
    else [Block(b.size, true)]
  }

  /** First fit, on a size that is already rounded. */
  function FirstFit(bs: seq<Block>, base: nat, size: nat): Outcome {
    if bs == [] then Outcome([], None)
    else if Fits(bs[0], size) then Outcome(PlaceIn(bs[0], size) + bs[1..], Some(base + HEADER))
    else
      var rest := FirstFit(bs[1..], base + HEADER + bs[0].size, size);
      Outcome([bs[0]] + rest.blocks, rest.ptr)
  }

  function Allocate(bs: seq<Block>, request: nat): Outcome {
    if request == 0 then Outcome(bs, None) else FirstFit(bs, 0, RoundUp8(request))
  }

  /** Clears the used flag of the block whose payload is at `ptr`. */
  function Release(bs: seq<Block>, base: nat, ptr: nat): seq<Block> {
    if bs == [] then []
    else if base + HEADER == ptr then [Block(bs[0].size, false)] + bs[1..]
    else [bs[0]] + Release(bs[1..], base + HEADER + bs[0].size, ptr)
  }

  function Join(b: Block, c: Block): Block {
    Block(b.size + HEADER + c.size, false)
  }

  /** One pass of the merge loop: after a merge it moves on past the merged block. */
  function MergePass(bs: seq<Block>): seq<Block> {
    if |bs| < 2 then bs
    else if !bs[0].used && !bs[1].used then [Join(bs[0], bs[1])] + MergePass(bs[2..])
    else [bs[0]] + MergePass(bs[1..])
  }

  function Deallocate(bs: seq<Block>, ptr: nat): seq<Block> {
    MergePass(Release(bs, 0, ptr))
  }

  // ----- one block in front of others

  lemma ConcatAssociates(a: seq<Block>, b: seq<Block>, c: seq<Block>)
    ensures a + b + c == a + (b + c)
  {
  }

  lemma LiveCons(b: Block, c: seq<Block>, base: nat)
    ensures Bytes([b] + c) == HEADER + b.size + Bytes(c)
    ensures Live([b] + c, base) ==
            var rest := Live(c, base + HEADER + b.size);
            if b.used then rest[base + HEADER := b.size] else rest
  {
    assert ([b] + c)[1..] == c;
  }

  lemma FreeCons(b: Block, c: seq<Block>)
    ensures FreeBytes([b] + c) == (if b.used then 0 else b.size) + FreeBytes(c)
    ensures FreePairs([b] + c) == (if c != [] && !b.used && !c[0].used then 1 else 0) + FreePairs(c)
  {
    assert ([b] + c)[1..] == c;
  }

  lemma FourTimes(n: nat)
    ensures (4 * n) % 4 == 0
  {
  }

  lemma FourSum(a: nat, b: nat)
    requires a % 4 == 0 && b % 4 == 0
    ensures (a + HEADER + b) % 4 == 0
  {
    FourTimes(a / 4 + HEADER / 4 + b / 4);
    assert a + HEADER + b == 4 * (a / 4 + HEADER / 4 + b / 4);
  }

  lemma AlignedConcat(a: seq<Block>, b: seq<Block>)
    ensures Aligned(a + b) <==> Aligned(a) && Aligned(b)
  {
    var bs := a + b;
    assert forall x | x in a :: x in bs;
    assert forall x | x in b :: x in bs;
  }

  lemma AlignedParts(bs: seq<Block>)
    requires bs != []
    ensures Aligned(bs) <==> Aligned([bs[0]]) && Aligned(bs[1..])
  {
    assert bs == [bs[0]] + bs[1..];
    AlignedConcat([bs[0]], bs[1..]);
  }

  // ----- addresses and live payloads

  lemma {:induction false} BytesConcat(a: seq<Block>, b: seq<Block>)
    ensures Bytes(a + b) == Bytes(a) + Bytes(b)
  {
    if a == [] {
      assert a + b == b;
    } else {
      assert (a + b)[1..] == a[1..] + b;
      BytesConcat(a[1..], b);
    }
  }

  lemma InsertRight(m: map<nat, nat>, n: map<nat, nat>, p: nat, s: nat)
    ensures m + n[p := s] == (m + n)[p := s]
  {
  }

  lemma LiveBetweenStep(x: Block, a: seq<Block>, b: seq<Block>, base: nat)
    requires var next := base + HEADER + x.size;
             Live(a + b, next) == Live(b, next + Bytes(a)) + Live(a, next)
    ensures Live([x] + a + b, base) == Live(b, base + Bytes([x] + a)) + Live([x] + a, base)
  {
    var next := base + HEADER + x.size;
    ConcatAssociates([x], a, b);
    LiveCons(x, a + b, base);
    LiveCons(x, a, base);
    InsertRight(Live(b, next + Bytes(a)), Live(a, next), base + HEADER, x.size);
  }

  /** The payloads of two groups of blocks, one behind the other. */
  lemma {:induction false} LiveBetween(a: seq<Block>, b: seq<Block>, base: nat)
    ensures Live(a + b, base) == Live(b, base + Bytes(a)) + Live(a, base)
  {
    if a == [] {
      assert a + b == b;
    } else {
      LiveBetween(a[1..], b, base + HEADER + a[0].size);
      LiveBetweenStep(a[0], a[1..], b, base);
      assert [a[0]] + a[1..] == a;
    }
  }

  /** Every live payload lies inside the blocks, behind its own header. */
  lemma {:induction false} LiveRange(bs: seq<Block>, base: nat)
    ensures forall p | p in Live(bs, base) ::
              base + HEADER <= p && p + Live(bs, base)[p] <= base + Bytes(bs)
  {
    if bs == [] {
    } else {
      LiveRange(bs[1..], base + HEADER + bs[0].size);
    }
  }

  ghost predicate Apart(live: map<nat, nat>) {
    forall p, q | p in live && q in live && p < q :: p + live[p] + HEADER <= q
  }

  /** Two live payloads never overlap: the second one's whole header lies between them. */
  lemma {:induction false} LiveApart(bs: seq<Block>, base: nat)
    ensures Apart(Live(bs, base))
  {
    if bs == [] {
    } else {
      LiveApart(bs[1..], base + HEADER + bs[0].size);
      LiveRange(bs[1..], base + HEADER + bs[0].size);
    }
  }

  /** The live pointer `ptr` belongs to exactly one used block. */
  lemma {:induction false} LiveSplit(bs: seq<Block>, base: nat, ptr: nat) returns (a: seq<Block>, b: seq<Block>)
    requires ptr in Live(bs, base)
    ensures bs == a + b && b != [] && b[0].used
    ensures base + Bytes(a) + HEADER == ptr && Live(bs, base)[ptr] == b[0].size
    ensures Release(bs, base, ptr) == a + [Block(b[0].size, false)] + b[1..]
  {
    LiveRange(bs[1..], base + HEADER + bs[0].size);
    if base + HEADER == ptr {
      a, b := [], bs;
    } else {
      var a', b' := LiveSplit(bs[1..], base + HEADER + bs[0].size, ptr);
      a, b := [bs[0]] + a', b';
      LiveCons(bs[0], a', base);
      assert bs == a + b;
      ConcatAssociates([bs[0]], a', [Block(b[0].size, false)]);
      ConcatAssociates([bs[0]], a' + [Block(b[0].size, false)], b[1..]);
    }
  }

  // ----- allocation

  /** First fit answers NULL exactly when no free block is large enough; it then changes nothing. */
  lemma {:induction false} FirstFitFails(bs: seq<Block>, base: nat, size: nat)
    ensures FirstFit(bs, base, size).ptr.None? <==> forall b | b in bs :: !Fits(b, size)
    ensures FirstFit(bs, base, size).ptr.None? ==> FirstFit(bs, base, size).blocks == bs
  {
    if bs == [] {
    } else {
      FirstFitFails(bs[1..], base + HEADER + bs[0].size, size);
      assert bs == [bs[0]] + bs[1..];
    }
  }

  lemma {:induction false} FirstFitAt(bs: seq<Block>, base: nat, size: nat)
    returns (a: seq<Block>, b: Block, c: seq<Block>)
    requires FirstFit(bs, base, size).ptr.Some?
    ensures bs == a + [b] + c && Fits(b, size) && forall x | x in a :: !Fits(x, size)
    ensures FirstFit(bs, base, size) == Outcome(a + PlaceIn(b, size) + c, Some(base + Bytes(a) + HEADER))
  {
    if Fits(bs[0], size) {
      a, b, c := [], bs[0], bs[1..];
    } else {
      var a', b', c' := FirstFitAt(bs[1..], base + HEADER + bs[0].size, size);
      a, b, c := [bs[0]] + a', b', c';
      assert a[1..] == a';
      assert bs == [bs[0]] + bs[1..];
    }
  }

  /** A served request takes the fitting block at the lowest address and touches nothing else; the
      block is split exactly when a header and 8 bytes more remain. */
  lemma {:induction false} FirstFitSplit(bs: seq<Block>, base: nat, size: nat)
    returns (a: seq<Block>, b: Block, c: seq<Block>)
    requires FirstFit(bs, base, size).ptr.Some?
    ensures bs == a + [b] + c && Fits(b, size) && forall x | x in a :: !Fits(x, size)
    ensures PlaceIn(b, size) == if b.size >= size + 12 + 8
                                then [Block(size, true), Block(b.size - size - 12, false)] else [Block(b.size, true)]
    ensures FirstFit(bs, base, size) == Outcome(a + PlaceIn(b, size) + c, Some(base + Bytes(a) + HEADER))
  {
    a, b, c := FirstFitAt(bs, base, size);
  }

  lemma PlaceInLive(b: Block, size: nat, tail: seq<Block>, base: nat)
    requires Fits(b, size)
    ensures var bs := PlaceIn(b, size) + tail;
            && Live(bs, base) == Live(tail, base + HEADER + b.size)[base + HEADER := PlaceIn(b, size)[0].size]
            && Bytes(bs) == HEADER + b.size + Bytes(tail)
  {
    var m := PlaceIn(b, size);
    if |m| == 2 {
      assert m + tail == [m[0]] + ([m[1]] + tail);
      LiveCons(m[1], tail, base + HEADER + size);
      LiveCons(m[0], [m[1]] + tail, base);
    } else {
      LiveCons(m[0], tail, base);
    }
  }

  lemma InsertLeft(m: map<nat, nat>, n: map<nat, nat>, p: nat, s: nat)
    requires p !in n
    ensures m[p := s] + n == (m + n)[p := s]
  {
  }

  /** A pointer behind the blocks `a` and in front of the blocks `c` belongs to neither. */
  lemma OutsideBoth(a: seq<Block>, c: seq<Block>, base: nat, p: nat, next: nat)
    requires base + Bytes(a) < p < next + HEADER
    ensures p !in Live(a, base) && p !in Live(c, next)
  {
    LiveRange(a, base);
    LiveRange(c, next);
  }

  /** Taking `size` bytes from the free block `b` adds the first payload of what it turns into. */
  lemma TakenLive(a: seq<Block>, b: Block, c: seq<Block>, size: nat, base: nat)
    requires Fits(b, size)
    ensures var before, after := Live(a + ([b] + c), base), Live(a + (PlaceIn(b, size) + c), base);
            var p := base + Bytes(a) + HEADER;
            p !in before && after == before[p := PlaceIn(b, size)[0].size]
  {
    var at, m := base + Bytes(a), PlaceIn(b, size);
    var rest := Live(c, at + HEADER + b.size);
    LiveBetween(a, m + c, base);
    assert Live(m + c, at) == rest[at + HEADER := m[0].size] by { PlaceInLive(b, size, c, at); }
    LiveBetween(a, [b] + c, base);
    assert Live([b] + c, at) == rest by { LiveCons(b, c, at); }
    OutsideBoth(a, c, base, at + HEADER, at + HEADER + b.size);
    InsertLeft(rest, Live(a, base), at + HEADER, m[0].size);
  }

  lemma TakenBytes(a: seq<Block>, b: Block, c: seq<Block>, size: nat)
    requires Fits(b, size)
    ensures Bytes(a + (PlaceIn(b, size) + c)) == Bytes(a + ([b] + c))
  {
    BytesConcat(a, [b] + c);
    BytesConcat(a, PlaceIn(b, size) + c);
    PlaceInLive(b, size, c, 0);
    LiveCons(b, c, 0);
  }

  /** A split takes no more than was asked for, and without one at most 16 bytes are lost. */
  lemma PlaceInSize(b: Block, size: nat)
    requires Fits(b, size)
    ensures size <= PlaceIn(b, size)[0].size
    ensures size % 4 == 0 && b.size % 4 == 0 ==> PlaceIn(b, size)[0].size <= size + 16
  {
  }

  /** A served request adds one live payload, large enough and at most 16 bytes larger than the
      rounded request, and leaves every other live payload where it was. */
  lemma FirstFitLive(bs: seq<Block>, base: nat, size: nat)
    requires FirstFit(bs, base, size).ptr.Some?
    ensures var r := FirstFit(bs, base, size);
            var p := r.ptr.value;
            && base + HEADER <= p && p !in Live(bs, base)
            && p in Live(r.blocks, base)
            && Live(r.blocks, base) == Live(bs, base)[p := Live(r.blocks, base)[p]]
            && size <= Live(r.blocks, base)[p]
            && (size % 4 == 0 && Aligned(bs) ==> Live(r.blocks, base)[p] <= size + 16)
            && Bytes(r.blocks) == Bytes(bs)
  {
    var a, b, c := FirstFitSplit(bs, base, size);
    ConcatAssociates(a, [b], c);
    ConcatAssociates(a, PlaceIn(b, size), c);
    TakenLive(a, b, c, size, base);
    TakenBytes(a, b, c, size);
    PlaceInSize(b, size);
    assert b in bs;
  }

  lemma {:induction false} FirstFitAligned(bs: seq<Block>, base: nat, size: nat)
    requires size % 4 == 0 && Aligned(bs)
    ensures Aligned(FirstFit(bs, base, size).blocks)
  {
    if bs == [] {
    } else {
      assert bs[0] in bs;
      var tail := bs[1..];
      assert Aligned(tail) by {
        assert forall b | b in tail :: b in bs;
      }
      FirstFitAligned(tail, base + HEADER + bs[0].size, size);
    }
  }

  /** Every payload, used or free, holds at least 8 bytes. */
  ghost predicate Big(bs: seq<Block>) {
    forall b | b in bs :: b.size >= 8
  }

  lemma BigConcat(a: seq<Block>, b: seq<Block>)
    ensures Big(a + b) <==> Big(a) && Big(b)
  {
    var bs := a + b;
    assert forall x | x in a :: x in bs;
    assert forall x | x in b :: x in bs;
  }

  lemma BigParts(bs: seq<Block>)
    requires bs != []
    ensures Big(bs) <==> bs[0].size >= 8 && Big(bs[1..])
  {
    assert bs == [bs[0]] + bs[1..];
    BigConcat([bs[0]], bs[1..]);
    assert bs[0] in [bs[0]];
  }

  /** No split leaves a block of less than 8 bytes. */
  lemma FirstFitBig(bs: seq<Block>, base: nat, size: nat)
    requires Big(bs) && size >= 8
    ensures Big(FirstFit(bs, base, size).blocks)
  {
    if FirstFit(bs, base, size).ptr.None? {
      FirstFitFails(bs, base, size);
    } else {
      var a, b, c := FirstFitSplit(bs, base, size);
      BigConcat(a + [b], c);
      BigConcat(a, [b]);
      assert b in [b];
      BigConcat(a + PlaceIn(b, size), c);
      BigConcat(a, PlaceIn(b, size));
    }
  }

  lemma {:induction false} MergeBig(bs: seq<Block>)
    requires Big(bs)
    ensures Big(MergePass(bs))
  {
    if |bs| < 2 {
    } else if !bs[0].used && !bs[1].used {
      var c := bs[2..];
      assert bs == [bs[0], bs[1]] + c;
      BigConcat([bs[0], bs[1]], c);
      assert bs[0] in [bs[0], bs[1]];
      MergeBig(c);
      BigConcat([Join(bs[0], bs[1])], MergePass(c));
    } else {
      BigParts(bs);
      MergeBig(bs[1..]);
      BigConcat([bs[0]], MergePass(bs[1..]));
    }
  }

  lemma DeallocateBig(bs: seq<Block>, ptr: nat)
    requires Big(bs) && ptr in Live(bs, 0)
    ensures Big(Deallocate(bs, ptr))
  {
    var a, b := LiveSplit(bs, 0, ptr);
    var freed := Block(b[0].size, false);
    BigConcat(a, b);
    BigParts(b);
    BigConcat(a + [freed], b[1..]);
    BigConcat(a, [freed]);
    MergeBig(Release(bs, 0, ptr));
  }

  /** The payload covers the request exactly when the rounding does not wrap. */
  lemma RoundUp8Covers(request: nat)
    requires request < SIZE_T_RANGE
    ensures RoundUp8(request) % 8 == 0
    ensures RoundUp8(request) >= request <==> request <= SIZE_T_RANGE - 8
    ensures request <= SIZE_T_RANGE - 8 ==> RoundUp8(request) < request + 8
    ensures request > SIZE_T_RANGE - 8 ==> RoundUp8(request) == 0
  {
  }

  // ----- the merge pass

  ghost predicate ThreeFree(bs: seq<Block>) {
    exists i {:trigger bs[i]} :: 0 <= i < |bs| - 2 && !bs[i].used && !bs[i + 1].used && !bs[i + 2].used
  }

  /** A merge pass at least halves the number of free pairs. */
  lemma {:induction false} MergeHalvesPairs(bs: seq<Block>)
    ensures 2 * FreePairs(MergePass(bs)) <= FreePairs(bs)
    ensures MergePass(bs) == [] <==> bs == []
    ensures bs != [] ==> MergePass(bs)[0].used == bs[0].used
  {
    if |bs| < 2 {
    } else {
      if !bs[0].used && !bs[1].used {
        MergeHalvesPairs(bs[2..]);
        assert MergePass(bs)[1..] == MergePass(bs[2..]);
      } else {
        MergeHalvesPairs(bs[1..]);
        assert MergePass(bs)[1..] == MergePass(bs[1..]);
      }
    }
  }

  lemma ThreeFreeSkip(bs: seq<Block>)
    requires bs != [] && (|bs| == 1 || bs[0].used || bs[1].used)
    ensures ThreeFree(bs) <==> ThreeFree(bs[1..])
  {
    var c := bs[1..];
    if ThreeFree(bs) {
      var i :| 0 <= i < |bs| - 2 && !bs[i].used && !bs[i + 1].used && !bs[i + 2].used;
      assert i >= 1 && bs[i] == c[i - 1];
    }
    if ThreeFree(c) {
      var i :| 0 <= i < |c| - 2 && !c[i].used && !c[i + 1].used && !c[i + 2].used;
      assert c[i] == bs[i + 1];
    }
  }

  lemma ThreeFreeAfter(bs: seq<Block>)
    requires |bs| >= 2 && (|bs| > 2 ==> bs[2].used)
    ensures ThreeFree(bs) <==> ThreeFree(bs[2..])
  {
    var c := bs[2..];
    if ThreeFree(bs) {
      var i :| 0 <= i < |bs| - 2 && !bs[i].used && !bs[i + 1].used && !bs[i + 2].used;
      assert i >= 3 && bs[i] == c[i - 2];
    }
    if ThreeFree(c) {
      var i :| 0 <= i < |c| - 2 && !c[i].used && !c[i + 1].used && !c[i + 2].used;
      assert c[i] == bs[i + 2];
    }
  }

  lemma ThreeFreePair(bs: seq<Block>)
    requires |bs| >= 2 && !bs[0].used && !bs[1].used
    ensures ThreeFree(bs) <==> (|bs| > 2 && !bs[2].used) || ThreeFree(bs[2..])
  {
    if |bs| > 2 && !bs[2].used {
      assert !bs[0].used && !bs[0 + 1].used && !bs[0 + 2].used;
    } else {
      ThreeFreeAfter(bs);
    }
  }

  /** A merge pass leaves no free neighbours exactly when no three blocks in a row were free. */
  lemma {:induction false} MergeCoalesces(bs: seq<Block>)
    ensures FreePairs(MergePass(bs)) == 0 <==> !ThreeFree(bs)
  {
    if |bs| < 2 {
    } else if !bs[0].used && !bs[1].used {
      var c := bs[2..];
      MergeCoalesces(c);
      MergeHalvesPairs(c);
      FreeCons(Join(bs[0], bs[1]), MergePass(c));
      ThreeFreePair(bs);
    } else {
      var c := bs[1..];
      MergeCoalesces(c);
      MergeHalvesPairs(c);
      FreeCons(bs[0], MergePass(c));
      ThreeFreeSkip(bs);
    }
  }

  ghost predicate AllFree(bs: seq<Block>) {
    forall b | b in bs :: !b.used
  }

  lemma MergeKeep(b: Block, c: seq<Block>)
    requires c == [] || b.used || c[0].used
    ensures MergePass([b] + c) == [b] + MergePass(c)
  {
    assert ([b] + c)[1..] == c;
  }

  lemma MergeJoin(b: Block, c: Block, d: seq<Block>)
    requires !b.used && !c.used
    ensures MergePass([b, c] + d) == [Join(b, c)] + MergePass(d)
  {
    assert ([b, c] + d)[2..] == d;
  }

  lemma MergeSplitsKeep(x: Block, c: seq<Block>, b: seq<Block>)
    requires MergePass(c + b) == MergePass(c) + MergePass(b)
    requires x.used || (if c == [] then b == [] || b[0].used else c[0].used)
    ensures MergePass([x] + c + b) == MergePass([x] + c) + MergePass(b)
  {
    ConcatAssociates([x], c, b);
    MergeKeep(x, c + b);
    MergeKeep(x, c);
    ConcatAssociates([x], MergePass(c), MergePass(b));
  }

  lemma MergeSplitsJoin(x: Block, y: Block, c: seq<Block>, b: seq<Block>)
    requires MergePass(c + b) == MergePass(c) + MergePass(b)
    requires !x.used && !y.used
    ensures MergePass([x, y] + c + b) == MergePass([x, y] + c) + MergePass(b)
  {
    ConcatAssociates([x, y], c, b);
    MergeJoin(x, y, c + b);
    MergeJoin(x, y, c);
    ConcatAssociates([Join(x, y)], MergePass(c), MergePass(b));
  }

  /** The pass works on the two sides of a used block independently. */
  lemma {:induction false} MergeSplits(a: seq<Block>, b: seq<Block>)
    requires a == [] || a[|a| - 1].used || b == [] || b[0].used
    ensures MergePass(a + b) == MergePass(a) + MergePass(b)
  {
    if a == [] {
      assert a + b == b;
    } else if |a| >= 2 && !a[0].used && !a[1].used {
      MergeSplits(a[2..], b);
      MergeSplitsJoin(a[0], a[1], a[2..], b);
      assert [a[0], a[1]] + a[2..] == a;
    } else {
      MergeSplits(a[1..], b);
      MergeSplitsKeep(a[0], a[1..], b);
      assert [a[0]] + a[1..] == a;
    }
  }

  /** A run of k free blocks becomes ceil(k/2) free blocks over the same bytes. */
  lemma {:induction false} MergeFreeRun(run: seq<Block>)
    requires AllFree(run)
    ensures |MergePass(run)| == (|run| + 1) / 2
    ensures AllFree(MergePass(run)) && Bytes(MergePass(run)) == Bytes(run)
  {
    if |run| < 2 {
    } else {
      assert run[0] in run && run[1] in run;
      MergeFreeRun(run[2..]);
      var m := MergePass(run);
      assert m[1..] == MergePass(run[2..]);
      assert run[1..][1..] == run[2..];
      assert forall b | b in m :: b == m[0] || b in m[1..];
    }
  }

  /** A pass moves no live payload and covers the same bytes. */
  lemma {:induction false} MergeKeepsLive(bs: seq<Block>, base: nat)
    ensures Live(MergePass(bs), base) == Live(bs, base)
    ensures Bytes(MergePass(bs)) == Bytes(bs)
  {
    if |bs| < 2 {
    } else {
      var m := MergePass(bs);
      if !bs[0].used && !bs[1].used {
        assert bs[1..][1..] == bs[2..];
        assert m[1..] == MergePass(bs[2..]);
        MergeKeepsLive(bs[2..], base + HEADER + m[0].size);
      } else {
        assert m[1..] == MergePass(bs[1..]);
        MergeKeepsLive(bs[1..], base + HEADER + bs[0].size);
      }
    }
  }

  /** What one pass does to a heap, run by run: a maximal run of k free blocks between used
      neighbours becomes ceil(k/2) free blocks at the same place, whatever surrounds it. */
  lemma MergeRun(pre: seq<Block>, run: seq<Block>, post: seq<Block>)
    requires AllFree(run)
    requires pre == [] || pre[|pre| - 1].used
    requires post == [] || post[0].used
    ensures MergePass(pre + run + post) == MergePass(pre) + MergePass(run) + MergePass(post)
    ensures |MergePass(run)| == (|run| + 1) / 2
    ensures AllFree(MergePass(run)) && Bytes(MergePass(run)) == Bytes(run)
    ensures Bytes(MergePass(pre)) == Bytes(pre)
  {
    MergeFreeRun(run);
    MergeSplits(pre, run);
    MergeSplits(pre + run, post);
    MergeKeepsLive(pre, 0);
  }

  lemma JoinAligned(b: Block, c: Block)
    requires Aligned([b, c])
    ensures Aligned([Join(b, c)])
  {
    assert b in [b, c] && c in [b, c];
    FourSum(b.size, c.size);
  }

  lemma {:induction false} MergeAligned(bs: seq<Block>)
    requires Aligned(bs)
    ensures Aligned(MergePass(bs))
  {
    if |bs| < 2 {
    } else if !bs[0].used && !bs[1].used {
      var c := bs[2..];
      assert bs == [bs[0], bs[1]] + c;
      AlignedConcat([bs[0], bs[1]], c);
      JoinAligned(bs[0], bs[1]);
      MergeAligned(c);
      AlignedConcat([Join(bs[0], bs[1])], MergePass(c));
    } else {
      AlignedParts(bs);
      MergeAligned(bs[1..]);
      AlignedConcat([bs[0]], MergePass(bs[1..]));
    }
  }

  /** A pass gains one header of free space per merge. */
  lemma {:induction false} MergeGains(bs: seq<Block>)
    ensures |MergePass(bs)| <= |bs|
    ensures FreeBytes(MergePass(bs)) == FreeBytes(bs) + HEADER * (|bs| - |MergePass(bs)|)
    ensures Aligned(bs) ==> Aligned(MergePass(bs))
  {
    if |bs| < 2 {
    } else if !bs[0].used && !bs[1].used {
      var c := bs[2..];
      MergeGains(c);
      FreeCons(Join(bs[0], bs[1]), MergePass(c));
      assert bs[1..][1..] == c;
    } else {
      MergeGains(bs[1..]);
      FreeCons(bs[0], MergePass(bs[1..]));
    }
    assert Aligned(bs) ==> Aligned(MergePass(bs)) by {
      if Aligned(bs) {
        MergeAligned(bs);
      }
    }
  }

  // ----- freeing

  /** Freeing one block creates at most two free pairs. */
  lemma {:induction false} ReleasePairs(bs: seq<Block>, base: nat, ptr: nat)
    ensures FreePairs(Release(bs, base, ptr)) <= FreePairs(bs) + if base + HEADER == ptr then 1 else 2
    ensures |Release(bs, base, ptr)| == |bs|
    ensures bs != [] && base + HEADER != ptr ==> Release(bs, base, ptr)[0] == bs[0]
  {
    if bs == [] {
    } else {
      var r := Release(bs, base, ptr);
      if base + HEADER == ptr {
        assert r[1..] == bs[1..];
      } else {
        ReleasePairs(bs[1..], base + HEADER + bs[0].size, ptr);
        assert r[1..] == Release(bs[1..], base + HEADER + bs[0].size, ptr);
      }
    }
  }

  lemma RemoveLeft(m: map<nat, nat>, n: map<nat, nat>, p: nat, s: nat)
    requires p !in m && p !in n
    ensures m[p := s] + n - {p} == m + n
  {
  }

  lemma ReleasedLive(a: seq<Block>, b: Block, c: seq<Block>, base: nat)
    requires b.used
    ensures Live(a + ([Block(b.size, false)] + c), base) == Live(a + ([b] + c), base) - {base + Bytes(a) + HEADER}
  {
    var at, freed := base + Bytes(a), Block(b.size, false);
    LiveCons(b, c, at);
    LiveCons(freed, c, at);
    LiveBetween(a, [b] + c, base);
    LiveBetween(a, [freed] + c, base);
    OutsideBoth(a, c, base, at + HEADER, at + HEADER + b.size);
    RemoveLeft(Live(c, at + HEADER + b.size), Live(a, base), at + HEADER, b.size);
  }

  lemma ReleasedBytes(a: seq<Block>, b: Block, c: seq<Block>)
    ensures Bytes(a + ([Block(b.size, false)] + c)) == Bytes(a + ([b] + c))
  {
    BytesConcat(a, [b] + c);
    BytesConcat(a, [Block(b.size, false)] + c);
    LiveCons(b, c, 0);
    LiveCons(Block(b.size, false), c, 0);
  }

  /** Releasing takes exactly one payload out of the live ones. */
  lemma ReleaseLive(bs: seq<Block>, base: nat, ptr: nat)
    requires ptr in Live(bs, base)
    ensures Live(Release(bs, base, ptr), base) == Live(bs, base) - {ptr}
    ensures Bytes(Release(bs, base, ptr)) == Bytes(bs)
  {
    var a, b := LiveSplit(bs, base, ptr);
    ConcatAssociates(a, [Block(b[0].size, false)], b[1..]);
    ReleasedLive(a, b[0], b[1..], base);
    ReleasedBytes(a, b[0], b[1..]);
    assert b == [b[0]] + b[1..];
  }

  /** The released payload becomes free space. */
  lemma {:induction false} ReleaseGains(bs: seq<Block>, base: nat, ptr: nat)
    requires ptr in Live(bs, base)
    ensures FreeBytes(Release(bs, base, ptr)) == FreeBytes(bs) + Live(bs, base)[ptr]
    ensures |Release(bs, base, ptr)| == |bs|
  {
    var tail, next := bs[1..], base + HEADER + bs[0].size;
    if base + HEADER == ptr {
      LiveRange(tail, next);
      FreeCons(Block(bs[0].size, false), tail);
    } else {
      ReleaseGains(tail, next, ptr);
      FreeCons(bs[0], Release(tail, next, ptr));
    }
  }

  lemma FreedAligned(b: Block)
    ensures Aligned([Block(b.size, false)]) <==> Aligned([b])
  {
    assert b in [b] && Block(b.size, false) in [Block(b.size, false)];
  }

  lemma {:induction false} ReleaseAligned(bs: seq<Block>, base: nat, ptr: nat)
    requires Aligned(bs)
    ensures Aligned(Release(bs, base, ptr))
  {
    if bs == [] {
    } else {
      var tail, next := bs[1..], base + HEADER + bs[0].size;
      AlignedParts(bs);
      if base + HEADER == ptr {
        FreedAligned(bs[0]);
        AlignedConcat([Block(bs[0].size, false)], tail);
      } else {
        ReleaseAligned(tail, next, ptr);
        AlignedConcat([bs[0]], Release(tail, next, ptr));
      }
    }
  }

  /** Freeing a live payload removes exactly that payload, loses no byte, and turns the payload and
      one header per merge into free space. */
  lemma DeallocateLive(bs: seq<Block>, ptr: nat)
    requires ptr in Live(bs, 0)
    ensures Live(Deallocate(bs, ptr), 0) == Live(bs, 0) - {ptr}
    ensures Bytes(Deallocate(bs, ptr)) == Bytes(bs)
    ensures FreeBytes(Deallocate(bs, ptr)) ==
            FreeBytes(bs) + Live(bs, 0)[ptr] + HEADER * (|bs| - |Deallocate(bs, ptr)|)
    ensures Aligned(bs) ==> Aligned(Deallocate(bs, ptr))
  {
    ReleaseLive(bs, 0, ptr);
    ReleaseGains(bs, 0, ptr);
    if Aligned(bs) {
      ReleaseAligned(bs, 0, ptr);
    }
    MergeKeepsLive(Release(bs, 0, ptr), 0);
    MergeGains(Release(bs, 0, ptr));
  }

  /** A merge pass keeps a fitting block, joined to its neighbour perhaps. */
  lemma {:induction false} MergeKeepsFit(bs: seq<Block>, b: Block, size: nat) returns (c: Block)
    requires b in bs && Fits(b, size)
    ensures c in MergePass(bs) && Fits(c, size)
  {
    if |bs| < 2 {
      c := b;
    } else if !bs[0].used && !bs[1].used {
      var joined := Join(bs[0], bs[1]);
      if b == bs[0] || b == bs[1] {
        c := joined;
      } else {
        c := MergeKeepsFit(bs[2..], b, size);
      }
      assert MergePass(bs) == [joined] + MergePass(bs[2..]);
    } else if b == bs[0] {
      c := b;
      assert MergePass(bs) == [b] + MergePass(bs[1..]);
    } else {
      c := MergeKeepsFit(bs[1..], b, size);
      assert MergePass(bs) == [bs[0]] + MergePass(bs[1..]);
    }
  }

  /** What was freed can be handed out again: any request it is large enough for is served. */
  lemma FreedIsServed(bs: seq<Block>, ptr: nat, request: nat)
    requires ptr in Live(bs, 0) && 0 < request && RoundUp8(request) <= Live(bs, 0)[ptr]
    ensures Allocate(Deallocate(bs, ptr), request).ptr.Some?
  {
    var a, b := LiveSplit(bs, 0, ptr);
    var freed := Block(b[0].size, false);
    var c := MergeKeepsFit(a + [freed] + b[1..], freed, RoundUp8(request));
    FirstFitFails(Deallocate(bs, ptr), 0, RoundUp8(request));
  }

  /** A free leaves no free neighbours exactly when the block it marks free does not make three free
      blocks stand in a row. */
  lemma DeallocateCoalesces(bs: seq<Block>, ptr: nat)
    ensures FreePairs(Deallocate(bs, ptr)) == 0 <==> !ThreeFree(Release(bs, 0, ptr))
  {
    MergeCoalesces(Release(bs, 0, ptr));
  }

  lemma PlaceInPairs(b: Block, size: nat, tail: seq<Block>)
    requires Fits(b, size)
    ensures FreePairs(PlaceIn(b, size) + tail) <= FreePairs([b] + tail)
  {
    var m := PlaceIn(b, size);
    FreeCons(b, tail);
    if |m| == 2 {
      assert m + tail == [m[0]] + ([m[1]] + tail);
      FreeCons(m[0], [m[1]] + tail);
      FreeCons(m[1], tail);
    } else {
      FreeCons(m[0], tail);
    }
  }

  /** Allocation never adds a free pair. */
  lemma {:induction false} FirstFitPairs(bs: seq<Block>, base: nat, size: nat)
    ensures FreePairs(FirstFit(bs, base, size).blocks) <= FreePairs(bs)
    ensures FirstFit(bs, base, size).blocks == [] <==> bs == []
    ensures bs != [] && bs[0].used ==> FirstFit(bs, base, size).blocks[0].used
  {
    if bs == [] {
    } else {
      var tail := bs[1..];
      assert bs == [bs[0]] + tail;
      FreeCons(bs[0], tail);
      if Fits(bs[0], size) {
        PlaceInPairs(bs[0], size, tail);
      } else {
        var next := base + HEADER + bs[0].size;
        FirstFitPairs(tail, next, size);
        FreeCons(bs[0], FirstFit(tail, next, size).blocks);
      }
    }
  }

  // ----- an allocation undone by its free

  lemma {:induction false} MergeIdentity(bs: seq<Block>)
    ensures MergePass(bs) == bs <==> FreePairs(bs) == 0
  {
    if |bs| < 2 {
    } else {
      if !bs[0].used && !bs[1].used {
        MergeGains(bs[2..]);
      } else {
        MergeIdentity(bs[1..]);
        assert MergePass(bs)[1..] == MergePass(bs[1..]);
        assert bs == [bs[0]] + bs[1..];
      }
    }
  }

  /** Allocation and release both leave the first block alone unless they work on it. */
  lemma {:induction false} FirstFitThenRelease(bs: seq<Block>, base: nat, size: nat)
    requires FirstFit(bs, base, size).ptr.Some?
    ensures var r := FirstFit(bs, base, size);
            var rel := Release(r.blocks, base, r.ptr.value);
            && base + HEADER <= r.ptr.value && rel != []
            && (Fits(bs[0], size) ==>
                  rel == (if bs[0].size >= size + HEADER + MIN_REST
                          then [Block(size, false), Block(bs[0].size - size - HEADER, false)] else [bs[0]]) + bs[1..])
            && (!Fits(bs[0], size) ==>
                  var r' := FirstFit(bs[1..], base + HEADER + bs[0].size, size);
                  && r'.ptr == r.ptr
                  && rel == [bs[0]] + Release(r'.blocks, base + HEADER + bs[0].size, r.ptr.value))
  {
    var r := FirstFit(bs, base, size);
    var tail := bs[1..];
    if Fits(bs[0], size) {
      var m := PlaceIn(bs[0], size);
      assert r.blocks[1..] == m[1..] + tail;
    } else {
      FirstFitThenRelease(tail, base + HEADER + bs[0].size, size);
      assert r.blocks[1..] == FirstFit(tail, base + HEADER + bs[0].size, size).blocks;
    }
  }

  /** The allocation splits a block whose right neighbour is free as well. */
  predicate SplitsBesideFree(bs: seq<Block>, size: nat) {
    bs != [] &&
    if Fits(bs[0], size) then bs[0].size >= size + HEADER + MIN_REST && |bs| > 1 && !bs[1].used
    else SplitsBesideFree(bs[1..], size)
  }

  lemma {:induction false} SplitsBesidePair(bs: seq<Block>, size: nat)
    ensures SplitsBesideFree(bs, size) ==> FreePairs(bs) > 0
  {
    if bs != [] && !Fits(bs[0], size) {
      SplitsBesidePair(bs[1..], size);
    }
  }

  lemma UndoneHere(bs: seq<Block>, base: nat, size: nat)
    requires FreePairs(bs) <= 1 && bs != [] && Fits(bs[0], size)
    ensures var r := FirstFit(bs, base, size);
            MergePass(Release(r.blocks, base, r.ptr.value)) == bs
            <==> FreePairs(bs) == 0 || SplitsBesideFree(bs, size)
  {
    var r := FirstFit(bs, base, size);
    var rel := Release(r.blocks, base, r.ptr.value);
    var tail := bs[1..];
    FirstFitThenRelease(bs, base, size);
    MergeIdentity(bs);
    assert bs == [bs[0]] + tail;
    if bs[0].size >= size + HEADER + MIN_REST {
      MergeIdentity(tail);
      MergeJoin(Block(size, false), Block(bs[0].size - size - HEADER, false), tail);
      assert MergePass(rel) == [bs[0]] + MergePass(tail);
      assert ([bs[0]] + MergePass(tail))[1..] == MergePass(tail);
    } else {
      assert rel == bs;
    }
  }

  /** A pass restores what follows a block exactly if it restores it alone and does not join it. */
  lemma MergeBehind(b: Block, rel: seq<Block>, tail: seq<Block>)
    requires rel != [] && tail != [] && rel[0].used == tail[0].used
    ensures MergePass([b] + rel) == [b] + tail <==> (b.used || tail[0].used) && MergePass(rel) == tail
  {
    if b.used || tail[0].used {
      MergeKeep(b, rel);
      assert ([b] + MergePass(rel))[1..] == MergePass(rel) && ([b] + tail)[1..] == tail;
    } else {
      assert [b] + rel == [b, rel[0]] + rel[1..];
      MergeJoin(b, rel[0], rel[1..]);
      assert MergePass([b] + rel)[0] != b;
    }
  }

  lemma UndoneBehind(b: Block, rel: seq<Block>, tail: seq<Block>, size: nat)
    requires !Fits(b, size) && rel != [] && tail != [] && rel[0].used == tail[0].used
    requires FreePairs([b] + tail) <= 1
    requires MergePass(rel) == tail <==> FreePairs(tail) == 0 || SplitsBesideFree(tail, size)
    ensures MergePass([b] + rel) == [b] + tail
            <==> FreePairs([b] + tail) == 0 || SplitsBesideFree([b] + tail, size)
  {
    FreeCons(b, tail);
    SplitsBesidePair(tail, size);
    MergeBehind(b, rel, tail);
    assert ([b] + tail)[1..] == tail;
  }

  /** Freeing what was just allocated restores every block exactly when the heap had no free
      neighbours, or its only pair of them is the split block and the block after it. */
  lemma {:induction false} FreeUndoesFirstFit(bs: seq<Block>, base: nat, size: nat)
    requires FreePairs(bs) <= 1
    requires FirstFit(bs, base, size).ptr.Some?
    ensures var r := FirstFit(bs, base, size);
            MergePass(Release(r.blocks, base, r.ptr.value)) == bs
            <==> FreePairs(bs) == 0 || SplitsBesideFree(bs, size)
  {
    FirstFitThenRelease(bs, base, size);
    if Fits(bs[0], size) {
      UndoneHere(bs, base, size);
    } else {
      var tail, next := bs[1..], base + HEADER + bs[0].size;
      var r := FirstFit(tail, next, size);
      FreeUndoesFirstFit(tail, next, size);
      FirstFitThenRelease(tail, next, size);
      assert bs == [bs[0]] + tail;
      UndoneBehind(bs[0], Release(r.blocks, next, r.ptr.value), tail, size);
    }
  }
}
