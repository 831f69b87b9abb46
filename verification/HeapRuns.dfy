/** Whole runs of the allocator: what every reachable heap satisfies. */
module HeapRuns {
  import opened HeapModel

  datatype Op = Malloc(request: nat) | Free(ptr: nat)

  /** The heap, with the rounded size that was asked for at each pointer handed out. */
  datatype State = State(blocks: seq<Block>, asked: map<nat, nat>)

  const START: State := State(FRESH, map[])

  /** A request is any 32-bit size; only a live pointer may be freed. */
  predicate Legal(s: State, op: Op) {
    match op
    case Malloc(request) => request < SIZE_T_RANGE
    case Free(ptr) => ptr in Live(s.blocks, 0)
  }

  function Step(s: State, op: Op): State
    requires Legal(s, op)
  {
    match op
    case Malloc(request) =>
      var r := Allocate(s.blocks, request);
      State(r.blocks, if r.ptr.Some? then s.asked[r.ptr.value := RoundUp8(request)] else s.asked)
    case Free(ptr) =>
      State(Deallocate(s.blocks, ptr), s.asked - {ptr})
  }

  predicate LegalRun(s: State, ops: seq<Op>)
    decreases ops
  {
    ops == [] || (Legal(s, ops[0]) && LegalRun(Step(s, ops[0]), ops[1..]))
  }

  function Run(s: State, ops: seq<Op>): State
    requires LegalRun(s, ops)
    decreases ops
  {
    if ops == [] then s else Run(Step(s, ops[0]), ops[1..])
  }

  ghost predicate Invariant(s: State) {
    var live := Live(s.blocks, 0);
    && Bytes(s.blocks) == POOL_SIZE
    && Aligned(s.blocks)
    && FreePairs(s.blocks) <= 1
    && live.Keys == s.asked.Keys
    && forall p | p in live :: s.asked[p] <= live[p] <= s.asked[p] + 16
  }

  lemma ServedInvariant(s: State, size: nat)
    requires Invariant(s) && size % 4 == 0
    requires FirstFit(s.blocks, 0, size).ptr.Some?
    ensures var r := FirstFit(s.blocks, 0, size);
            Invariant(State(r.blocks, s.asked[r.ptr.value := size]))
  {
    FirstFitPairs(s.blocks, 0, size);
    FirstFitLive(s.blocks, 0, size);
    FirstFitAligned(s.blocks, 0, size);
  }

  lemma RoundUp8Aligned(request: nat)
    ensures RoundUp8(request) % 4 == 0
  {
    FourTimes(2 * ((request + 7) % SIZE_T_RANGE / 8));
  }

  lemma MallocInvariant(s: State, request: nat)
    requires Invariant(s) && request < SIZE_T_RANGE
    ensures Invariant(Step(s, Malloc(request)))
  {
    var size := RoundUp8(request);
    if request == 0 {
    } else if FirstFit(s.blocks, 0, size).ptr.None? {
      FirstFitFails(s.blocks, 0, size);
    } else {
      RoundUp8Aligned(request);
      ServedInvariant(s, size);
    }
  }

  lemma FreeInvariant(s: State, ptr: nat)
    requires Invariant(s) && ptr in Live(s.blocks, 0)
    ensures Invariant(Step(s, Free(ptr)))
  {
    DeallocateLive(s.blocks, ptr);
    ReleasePairs(s.blocks, 0, ptr);
    MergeHalvesPairs(Release(s.blocks, 0, ptr));
  }

  lemma StepInvariant(s: State, op: Op)
    requires Invariant(s) && Legal(s, op)
    ensures Invariant(Step(s, op))
  {
    match op
    case Malloc(request) => MallocInvariant(s, request);
    case Free(ptr) => FreeInvariant(s, ptr);
  }

  lemma {:induction false} RunInvariantFrom(s: State, ops: seq<Op>)
    requires Invariant(s) && LegalRun(s, ops)
    ensures Invariant(Run(s, ops))
    decreases ops
  {
    if ops == [] {
    } else {
      StepInvariant(s, ops[0]);
      RunInvariantFrom(Step(s, ops[0]), ops[1..]);
    }
  }

  function Count(bs: seq<Block>, used: bool): nat {
    if bs == [] then 0 else (if bs[0].used == used then 1 else 0) + Count(bs[1..], used)
  }

  lemma {:induction false} FreeCountBound(bs: seq<Block>)
    ensures Count(bs, false) <= Count(bs, true) + FreePairs(bs) + if bs != [] && bs[0].used then 0 else 1
  {
    if bs == [] {
    } else {
      FreeCountBound(bs[1..]);
    }
  }

  lemma {:induction false} ThreeFreeMakeTwoPairs(bs: seq<Block>)
    ensures ThreeFree(bs) ==> FreePairs(bs) >= 2
  {
    if |bs| < 3 {
    } else {
      ThreeFreeMakeTwoPairs(bs[1..]);
      if ThreeFree(bs) {
        var i :| 0 <= i < |bs| - 2 && !bs[i].used && !bs[i + 1].used && !bs[i + 2].used;
        if i > 0 {
          assert bs[1..][i - 1] == bs[i] && !bs[1..][i - 1 + 1].used && !bs[1..][i - 1 + 2].used;
        }
      }
    }
  }

  lemma {:induction false} LivePointersAligned(bs: seq<Block>, base: nat)
    requires Aligned(bs) && base % 4 == 0
    ensures forall p | p in Live(bs, base) :: p % 4 == 0
  {
    if bs == [] {
    } else {
      assert bs[0] in bs;
      assert forall b | b in bs[1..] :: b in bs;
      FourSum(base, bs[0].size);
      LivePointersAligned(bs[1..], base + HEADER + bs[0].size);
    }
  }

  /** Every heap that legal calls can reach from a fresh pool tiles the pool exactly, keeps the live
      payloads aligned, inside the pool and apart from one another, gives each at least what was
      rounded up and at most 16 bytes more, and has at most one pair of free neighbours. */
  lemma ReachableHeap(ops: seq<Op>)
    requires LegalRun(START, ops)
    ensures var s := Run(START, ops);
            var live := Live(s.blocks, 0);
            && Bytes(s.blocks) == POOL_SIZE && Aligned(s.blocks)
            && live.Keys == s.asked.Keys
            && (forall p | p in live ::
                  p % 4 == 0 && HEADER <= p && p + live[p] <= POOL_SIZE && s.asked[p] <= live[p] <= s.asked[p] + 16)
            && Apart(live)
            && FreePairs(s.blocks) <= 1 && !ThreeFree(s.blocks)
            && Count(s.blocks, false) <= Count(s.blocks, true) + 2
  {
    var s := Run(START, ops);
    assert FRESH[1..] == [];
    RunInvariantFrom(START, ops);
    LivePointersAligned(s.blocks, 0);
    LiveRange(s.blocks, 0);
    LiveApart(s.blocks, 0);
    ThreeFreeMakeTwoPairs(s.blocks);
    FreeCountBound(s.blocks);
  }

  /** In every reachable heap, the payload handed out covers the request exactly when the rounding
      does not wrap. */
  lemma ServedCovers(ops: seq<Op>, request: nat)
    requires LegalRun(START, ops) && request < SIZE_T_RANGE
    requires Allocate(Run(START, ops).blocks, request).ptr.Some?
    ensures var r := Allocate(Run(START, ops).blocks, request);
            var live := Live(r.blocks, 0);
            r.ptr.value in live && (live[r.ptr.value] >= request <==> request <= SIZE_T_RANGE - 8)
  {
    ReachableHeap(ops);
    RoundUp8Covers(request);
    RoundUp8Aligned(request);
    FirstFitLive(Run(START, ops).blocks, 0, RoundUp8(request));
  }

  /** The requests of a run are such that rounding them does not wrap. */
  ghost predicate NoneWraps(ops: seq<Op>) {
    forall op | op in ops :: op.Malloc? ==> op.request <= SIZE_T_RANGE - 8
  }

  lemma RoundedPositive(request: nat)
    requires 0 < request <= SIZE_T_RANGE - 8
    ensures RoundUp8(request) >= 8
  {
  }

  lemma StepBig(s: State, op: Op)
    requires Big(s.blocks) && Legal(s, op) && (op.Malloc? ==> op.request <= SIZE_T_RANGE - 8)
    ensures Big(Step(s, op).blocks)
  {
    match op
    case Malloc(request) =>
      if request > 0 {
        RoundUp8Covers(request);
        RoundedPositive(request);
        FirstFitBig(s.blocks, 0, RoundUp8(request));
      }
    case Free(ptr) => DeallocateBig(s.blocks, ptr);
  }

  lemma {:induction false} RunBigFrom(s: State, ops: seq<Op>)
    requires Big(s.blocks) && LegalRun(s, ops) && NoneWraps(ops)
    ensures Big(Run(s, ops).blocks)
    decreases ops
  {
    if ops == [] {
    } else {
      assert ops[0] in ops && forall op | op in ops[1..] :: op in ops;
      StepBig(s, ops[0]);
      RunBigFrom(Step(s, ops[0]), ops[1..]);
    }
  }

  /** Over every run whose requests do not wrap, no block is ever smaller than 8 bytes; together with
      the 16 bytes by which a payload may exceed its request, this fixes when a block is split. */
  lemma BlocksHoldEight(ops: seq<Op>)
    requires LegalRun(START, ops) && NoneWraps(ops)
    ensures forall b | b in Run(START, ops).blocks :: b.size >= 8
  {
    RunBigFrom(START, ops);
  }

  /** A request that wraps is served exactly when some block is free. */
  lemma HugeServedIff(bs: seq<Block>, request: nat)
    requires SIZE_T_RANGE - 8 < request < SIZE_T_RANGE
    ensures Allocate(bs, request).ptr.Some? <==> exists b | b in bs :: !b.used
  {
    RoundUp8Covers(request);
    FirstFitFails(bs, 0, 0);
  }

  /** On a fresh pool the largest request of all is served with an empty payload. */
  lemma HugeServed()
    ensures var r := Allocate(FRESH, SIZE_T_RANGE - 1);
            r.ptr == Some(HEADER) && HEADER in Live(r.blocks, 0) && Live(r.blocks, 0)[HEADER] == 0
  {
    assert FRESH == [FRESH[0]] + [];
    PlaceInLive(FRESH[0], 0, [], 0);
    assert FirstFit(FRESH, 0, 0).blocks == PlaceIn(FRESH[0], 0) + [];
  }

  /** A live payload stays where it is, at its size, through every legal run that does not free it. */
  lemma {:induction false} PayloadStays(s: State, ops: seq<Op>, ptr: nat)
    requires LegalRun(s, ops) && ptr in Live(s.blocks, 0)
    requires Free(ptr) !in ops
    ensures var live := Live(Run(s, ops).blocks, 0);
            ptr in live && live[ptr] == Live(s.blocks, 0)[ptr]
    decreases ops
  {
    if ops == [] {
    } else {
      match ops[0] {
        case Malloc(request) =>
          var size := RoundUp8(request);
          if FirstFit(s.blocks, 0, size).ptr.Some? {
            FirstFitLive(s.blocks, 0, size);
          } else {
            FirstFitFails(s.blocks, 0, size);
          }
        case Free(p) =>
          assert ops[0] in ops;
          DeallocateLive(s.blocks, p);
      }
      assert forall op | op in ops[1..] :: op in ops;
      PayloadStays(Step(s, ops[0]), ops[1..], ptr);
    }
  }

  // ----- runs that reach a given heap

  ghost predicate AllUsed(bs: seq<Block>) {
    forall b | b in bs :: b.used
  }

  /** First fit has passed the used blocks `u` when it comes to `at`. */
  ghost predicate Skips(u: seq<Block>, x: seq<Block>, base: nat, at: nat, size: nat) {
    var r := FirstFit(x, at, size);
    FirstFit(u + x, base, size) == Outcome(u + r.blocks, r.ptr)
  }

  lemma {:induction false} SkipsNone(x: seq<Block>, at: nat, size: nat)
    ensures Skips([], x, at, at, size)
  {
    var r := FirstFit(x, at, size);
    assert [] + x == x && [] + r.blocks == r.blocks;
  }

  lemma {:induction false} SkipsMore(b: Block, u: seq<Block>, x: seq<Block>, base: nat, at: nat, size: nat)
    requires b.used && Skips(u, x, base + HEADER + b.size, at, size)
    ensures Skips([b] + u, x, base, at, size)
  {
    ConcatAssociates([b], u, x);
    assert ([b] + (u + x))[1..] == u + x;
    ConcatAssociates([b], u, FirstFit(x, at, size).blocks);
  }

  lemma {:induction false} SkipsUsed(u: seq<Block>, x: seq<Block>, base: nat, at: nat, size: nat)
    requires AllUsed(u) && at == base + Bytes(u)
    ensures Skips(u, x, base, at, size)
  {
    if u == [] {
      SkipsNone(x, at, size);
    } else {
      var b, c := u[0], u[1..];
      assert b in u && forall d | d in c :: d in u;
      SkipsUsed(c, x, base + HEADER + b.size, at, size);
      SkipsMore(b, c, x, base, at, size);
      assert [b] + c == u;
    }
  }

  lemma FirstFitSkipsUsed(u: seq<Block>, x: seq<Block>, base: nat, size: nat)
    requires AllUsed(u)
    ensures var r := FirstFit(x, base + Bytes(u), size);
            FirstFit(u + x, base, size) == Outcome(u + r.blocks, r.ptr)
  {
    SkipsUsed(u, x, base, base + Bytes(u), size);
  }

  lemma ServeFromTail(u: seq<Block>, free: nat, asked: map<nat, nat>)
    requires AllUsed(u) && free >= 28
    ensures Step(State(u + [Block(free, false)], asked), Malloc(8))
            == State((u + [Block(8, true)]) + [Block(free - 20, false)], asked[Bytes(u) + HEADER := 8])
  {
    var x := [Block(free, false)];
    FirstFitSkipsUsed(u, x, 0, 8);
    assert x[1..] == [];
    assert u + FirstFit(x, Bytes(u), 8).blocks == (u + [Block(8, true)]) + [Block(free - 20, false)];
  }

  lemma {:induction false} NoPairs(bs: seq<Block>)
    requires forall i | 0 <= i < |bs| - 1 :: bs[i].used || bs[i + 1].used
    ensures FreePairs(bs) == 0 && MergePass(bs) == bs
  {
    if |bs| < 2 {
    } else {
      assert forall i | 0 <= i < |bs| - 2 :: bs[1..][i] == bs[i + 1];
      NoPairs(bs[1..]);
      assert bs == [bs[0]] + bs[1..];
    }
  }

  /** Freeing the used block between `a` and `c`. */
  lemma {:induction false} FreeAt(a: seq<Block>, b: Block, c: seq<Block>, base: nat)
    requires b.used
    ensures var ptr := base + Bytes(a) + HEADER;
            && ptr in Live(a + [b] + c, base)
            && Release(a + [b] + c, base, ptr) == a + [Block(b.size, false)] + c
  {
    var bs := a + [b] + c;
    if a == [] {
    } else {
      assert bs[1..] == a[1..] + [b] + c;
      FreeAt(a[1..], b, c, base + HEADER + a[0].size);
    }
  }

  lemma {:induction false} RunSnoc(s: State, ops: seq<Op>, op: Op)
    requires LegalRun(s, ops) && Legal(Run(s, ops), op)
    ensures LegalRun(s, ops + [op]) && Run(s, ops + [op]) == Step(Run(s, ops), op)
    decreases ops
  {
    if ops == [] {
      assert ops + [op] == [op] && [op][1..] == [];
    } else {
      RunSnoc(Step(s, ops[0]), ops[1..], op);
      assert (ops + [op])[1..] == ops[1..] + [op];
    }
  }

  function Small(n: nat): seq<Block> {
    seq(n, _ => Block(8, true))
  }

  /** A small request at the end of a run that left only the last block free. */
  lemma SmallAfter(ops: seq<Op>, u: seq<Block>, free: nat) returns (ops': seq<Op>)
    requires LegalRun(START, ops) && Run(START, ops).blocks == u + [Block(free, false)]
    requires AllUsed(u) && free >= 28
    ensures LegalRun(START, ops')
    ensures Run(START, ops').blocks == (u + [Block(8, true)]) + [Block(free - 20, false)]
  {
    ServeFromTail(u, free, Run(START, ops).asked);
    RunSnoc(START, ops, Malloc(8));
    ops' := ops + [Malloc(8)];
  }

  /** Some run ends with `n` small blocks and the rest of the pool free. */
  lemma {:induction false} SmallServed(n: nat) returns (ops: seq<Op>)
    requires 20 * n <= POOL_SIZE - 20
    ensures LegalRun(START, ops)
    ensures Run(START, ops).blocks == Small(n) + [Block(POOL_SIZE - HEADER - 20 * n, false)]
  {
    if n == 0 {
      ops := [];
    } else {
      ops := SmallServed(n - 1);
      ops := SmallAfter(ops, Small(n - 1), POOL_SIZE - HEADER - 20 * (n - 1));
      assert Small(n) == Small(n - 1) + [Block(8, true)];
    }
  }

  /** Freeing the used block `b` at the end of a run. */
  lemma FreedAfter(ops: seq<Op>, a: seq<Block>, b: Block, c: seq<Block>) returns (ops': seq<Op>)
    requires LegalRun(START, ops) && Run(START, ops).blocks == a + [b] + c && b.used
    ensures LegalRun(START, ops') && Run(START, ops').blocks == MergePass(a + [Block(b.size, false)] + c)
  {
    var op := Free(Bytes(a) + HEADER);
    FreeAt(a, b, c, 0);
    RunSnoc(START, ops, op);
    ops' := ops + [op];
  }

  lemma MergeOfThree(f: Block, r: seq<Block>)
    requires !f.used && r != [] && r[0].used && MergePass(r) == r
    ensures MergePass([f, f, f] + r) == [Join(f, f), f] + r
  {
    assert [f, f, f] + r == [f, f] + ([f] + r);
    MergeJoin(f, f, [f] + r);
    MergeKeep(f, r);
    assert [Join(f, f)] + ([f] + r) == [Join(f, f), f] + r;
  }

  lemma FreedQuietly(ops: seq<Op>, a: seq<Block>, b: Block, c: seq<Block>, freed: seq<Block>)
    returns (ops': seq<Op>)
    requires LegalRun(START, ops) && Run(START, ops).blocks == a + [b] + c && b.used
    requires freed == a + [Block(b.size, false)] + c
    requires forall i | 0 <= i < |freed| - 1 :: freed[i].used || freed[i + 1].used
    ensures LegalRun(START, ops') && Run(START, ops').blocks == freed
  {
    ops' := FreedAfter(ops, a, b, c);
    NoPairs(freed);
  }

  /** Of four small blocks the first and the third are freed. */
  lemma TwoFreed() returns (ops: seq<Op>)
    ensures LegalRun(START, ops)
    ensures var u, f := Block(8, true), Block(8, false);
            Run(START, ops).blocks == [f, u, f, u, Block(POOL_SIZE - 92, false)]
  {
    var u, f, r := Block(8, true), Block(8, false), Block(POOL_SIZE - 92, false);
    ops := SmallServed(4);
    assert Small(4) + [r] == [] + [u] + [u, u, u, r];
    ops := FreedQuietly(ops, [], u, [u, u, u, r], [f, u, u, u, r]);
    ops := FreedQuietly(ops, [f, u], u, [u, r], [f, u, f, u, r]);
  }

  /** Now the second is freed: the first two merge, and the pass steps over the third. */
  lemma PairLeft() returns (ops: seq<Op>)
    ensures LegalRun(START, ops)
    ensures Run(START, ops).blocks ==
            [Block(28, false), Block(8, false), Block(8, true), Block(POOL_SIZE - 92, false)]
  {
    var u, f, r := Block(8, true), Block(8, false), Block(POOL_SIZE - 92, false);
    ops := TwoFreed();
    assert [f, u, f, u, r] == [f] + [u] + [f, u, r];
    ops := FreedAfter(ops, [f], u, [f, u, r]);
    NoPairs([u, r]);
    assert [f] + [f] + [f, u, r] == [f, f, f] + [u, r];
    MergeOfThree(f, [u, r]);
  }

  /** The bound of one free pair is attained: the merge pass does not coalesce a run of three. */
  lemma FreePairReached()
    ensures exists ops :: LegalRun(START, ops) && FreePairs(Run(START, ops).blocks) == 1
  {
    var ops := PairLeft();
    var bs := Run(START, ops).blocks;
    NoPairs(bs[1..]);
    assert FreePairs(bs) == 1;
  }

  /** In every reachable heap, a served request followed by the free of its result restores every
      block exactly when there was no free pair, or the split block was the left half of it. */
  lemma AllocateThenFree(ops: seq<Op>, request: nat)
    requires LegalRun(START, ops) && request < SIZE_T_RANGE
    requires Allocate(Run(START, ops).blocks, request).ptr.Some?
    ensures var bs := Run(START, ops).blocks;
            var r := Allocate(bs, request);
            Deallocate(r.blocks, r.ptr.value) == bs
            <==> FreePairs(bs) == 0 || SplitsBesideFree(bs, RoundUp8(request))
  {
    ReachableHeap(ops);
    FreeUndoesFirstFit(Run(START, ops).blocks, 0, RoundUp8(request));
  }

  /** The last block has no neighbour behind it, so splitting it makes no pair. */
  lemma {:induction false} OnlyLastFits(a: seq<Block>, b: Block, base: nat, size: nat)
    requires (forall x | x in a :: !Fits(x, size)) && Fits(b, size)
    ensures FirstFit(a + [b], base, size).ptr.Some? && !SplitsBesideFree(a + [b], size)
  {
    if a == [] {
      assert (a + [b])[1..] == [];
    } else {
      assert a[0] in a && (a + [b])[1..] == a[1..] + [b];
      OnlyLastFits(a[1..], b, base + HEADER + a[0].size, size);
    }
  }

  lemma FirstPair(f: Block, c: seq<Block>)
    requires c != [] && !f.used && !c[0].used && FreePairs(c) == 0
    ensures FreePairs([f] + c) == 1
  {
    FreeCons(f, c);
  }

  /** There is a reachable heap and a served request whose free does not restore it. */
  lemma FreeDoesNotUndo() returns (ops: seq<Op>)
    ensures LegalRun(START, ops)
    ensures var bs := Run(START, ops).blocks;
            var r := Allocate(bs, 40);
            r.ptr.Some? && Deallocate(r.blocks, r.ptr.value) != bs
  {
    ops := PairLeft();
    var f, g, u, r := Block(28, false), Block(8, false), Block(8, true), Block(POOL_SIZE - 92, false);
    assert FreePairs([f, g, u, r]) == 1 by {
      NoPairs([g, u, r]);
      FirstPair(f, [g, u, r]);
      assert [f] + [g, u, r] == [f, g, u, r];
    }
    OnlyLastFits([f, g, u], r, 0, 40);
    assert [f, g, u] + [r] == [f, g, u, r];
    AllocateThenFree(ops, 40);
  }

  // ----- how much a fresh pool can serve

  function Need(requests: seq<nat>): nat {
    if requests == [] then 0 else RoundUp8(requests[0]) + HEADER + Need(requests[1..])
  }

  predicate AllServed(bs: seq<Block>, requests: seq<nat>)
    decreases requests
  {
    requests == [] ||
    (Allocate(bs, requests[0]).ptr.Some? && AllServed(Allocate(bs, requests[0]).blocks, requests[1..]))
  }

  ghost predicate Ordinary(requests: seq<nat>) {
    forall n | n in requests :: 0 < n <= SIZE_T_RANGE - 8
  }

  /** What one ordinary request does when only the last block is free. */
  lemma TailRequest(u: seq<Block>, free: nat, request: nat)
    requires AllUsed(u) && 0 < request <= SIZE_T_RANGE - 8
    ensures var size := RoundUp8(request);
            var r := Allocate(u + [Block(free, false)], request);
            && (free < size ==> r.ptr.None? && r.blocks == u + [Block(free, false)])
            && (free >= size ==> r.ptr == Some(Bytes(u) + HEADER))
            && (size <= free < size + HEADER + MIN_REST ==> r.blocks == u + [Block(free, true)])
            && (free >= size + HEADER + MIN_REST ==>
                  r.blocks == (u + [Block(size, true)]) + [Block(free - size - HEADER, false)])
  {
    var size := RoundUp8(request);
    var x := [Block(free, false)];
    FirstFitSkipsUsed(u, x, 0, size);
    assert x[1..] == [];
    if free >= size + HEADER + MIN_REST {
      assert FirstFit(x, Bytes(u), size).blocks == [Block(size, true), Block(free - size - HEADER, false)];
    } else if free >= size {
      assert FirstFit(x, Bytes(u), size).blocks == [Block(free, true)];
    }
  }

  lemma NoneServed(u: seq<Block>, requests: seq<nat>)
    requires AllUsed(u) && Ordinary(requests)
    ensures AllServed(u, requests) <==> requests == []
    ensures requests != [] ==> Need(requests) >= HEADER + MIN_REST
  {
    if requests != [] {
      assert requests[0] in requests;
      RoundUp8Covers(requests[0]);
      FirstFitFails(u, 0, RoundUp8(requests[0]));
    }
  }

  lemma {:induction false} TailServes(u: seq<Block>, free: nat, requests: seq<nat>)
    requires AllUsed(u) && Ordinary(requests)
    ensures AllServed(u + [Block(free, false)], requests) <==> Need(requests) <= free + HEADER
    decreases requests
  {
    if requests == [] {
    } else {
      var n, rest := requests[0], requests[1..];
      var size := RoundUp8(n);
      assert n in requests && forall m | m in rest :: m in requests;
      TailRequest(u, free, n);
      if free >= size + HEADER + MIN_REST {
        TailServes(u + [Block(size, true)], free - size - HEADER, rest);
      } else if free >= size {
        NoneServed(u + [Block(free, true)], rest);
      }
    }
  }

  /** A fresh pool serves a series of requests exactly when their rounded sizes and headers fit. */
  lemma FreshServes(requests: seq<nat>)
    requires Ordinary(requests)
    ensures AllServed(FRESH, requests) <==> Need(requests) <= 4194304
  {
    assert [] + FRESH == FRESH;
    TailServes([], POOL_SIZE - HEADER, requests);
  }
}
