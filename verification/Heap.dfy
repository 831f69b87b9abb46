/** The allocator itself: headers in the pool, linked by address, updated in place. */
module Heap {
  import opened HeapModel
  import opened HeapRuns

  /** The header at one pool address; `next` is a pool address or NULL. */
  datatype Header = Header(size: nat, used: bool, next: Option<nat>)

  /** The address of the block after `at`, when the blocks `rest` follow there. */
  ghost function Link(rest: seq<Block>, at: nat): Option<nat> {
    if rest == [] then None else Some(at)
  }

  /** The headers at `at` describe the blocks `bs`, each linked to the next and the last to `tail`. */
  ghost predicate Chain(hs: seq<Header>, bs: seq<Block>, at: nat, tail: Option<nat>) {
    bs == [] ||
    var next := at + HEADER + bs[0].size;
    && at < |hs|
    && hs[at] == Header(bs[0].size, bs[0].used, if |bs| == 1 then tail else Some(next))
    && Chain(hs, bs[1..], next, tail)
  }

  lemma {:induction false} ChainConcat(hs: seq<Header>, a: seq<Block>, b: seq<Block>, at: nat, tail: Option<nat>)
    ensures Chain(hs, a + b, at, tail) <==>
            && Chain(hs, a, at, if b == [] then tail else Some(at + Bytes(a)))
            && Chain(hs, b, at + Bytes(a), tail)
  {
    if a == [] {
      assert a + b == b;
    } else {
      assert (a + b)[1..] == a[1..] + b;
      ChainConcat(hs, a[1..], b, at + HEADER + a[0].size, tail);
    }
  }

  lemma {:induction false} ChainFrame(hs: seq<Header>, hs': seq<Header>, bs: seq<Block>, at: nat, tail: Option<nat>)
    requires |hs| == |hs'|
    requires forall k | at <= k < at + Bytes(bs) && k < |hs| :: hs'[k] == hs[k]
    ensures Chain(hs, bs, at, tail) <==> Chain(hs', bs, at, tail)
  {
    if bs == [] {
    } else {
      ChainFrame(hs, hs', bs[1..], at + HEADER + bs[0].size, tail);
    }
  }

  lemma {:induction false} RelinkFront(hs: seq<Header>, hs': seq<Header>,
                                       a: seq<Block>, m: seq<Block>, m': seq<Block>, tail: Option<nat>)
    requires Chain(hs, a + m, 0, tail) && Chain(hs', m', Bytes(a), tail)
    requires |hs| == |hs'| && m != [] && m' != []
    requires forall k | 0 <= k < Bytes(a) && k < |hs| :: hs'[k] == hs[k]
    ensures Chain(hs', a + m', 0, tail)
  {
    ChainConcat(hs, a, m, 0, tail);
    ChainFrame(hs, hs', a, 0, Some(Bytes(a)));
    ChainConcat(hs', a, m', 0, tail);
  }

  lemma {:induction false} RelinkBack(hs: seq<Header>, hs': seq<Header>, u: seq<Block>, u': seq<Block>, c: seq<Block>)
    requires Chain(hs, u + c, 0, None) && Chain(hs', u', 0, Link(c, Bytes(u)))
    requires |hs| == |hs'| && Bytes(u') == Bytes(u)
    requires forall k | Bytes(u) <= k < |hs| :: hs'[k] == hs[k]
    ensures Chain(hs', u' + c, 0, None)
  {
    ChainConcat(hs, u, c, 0, None);
    ChainFrame(hs, hs', c, Bytes(u), None);
    ChainConcat(hs', u', c, 0, None);
  }

  lemma {:induction false} RelinkBytes(u: seq<Block>, u': seq<Block>, c: seq<Block>)
    requires Bytes(u) == Bytes(u')
    ensures Bytes(u' + c) == Bytes(u + c)
  {
    BytesConcat(u, c);
    BytesConcat(u', c);
  }

  /** Rewriting the headers of a middle part in place keeps the chain around it. */
  lemma {:induction false} Relink(hs: seq<Header>, hs': seq<Header>,
                                  a: seq<Block>, m: seq<Block>, m': seq<Block>, c: seq<Block>)
    requires Chain(hs, a + m + c, 0, None)
    requires |hs| == |hs'| && m != [] && m' != []
    requires Bytes(m) == Bytes(m')
    requires forall k | 0 <= k < Bytes(a) && k < |hs| :: hs'[k] == hs[k]
    requires forall k | Bytes(a) + Bytes(m) <= k < |hs| :: hs'[k] == hs[k]
    requires Chain(hs', m', Bytes(a), Link(c, Bytes(a) + Bytes(m)))
    ensures Chain(hs', a + m' + c, 0, None)
    ensures Bytes(a + m' + c) == Bytes(a + m + c)
  {
    BytesConcat(a, m);
    BytesConcat(a, m');
    RelinkBytes(a + m, a + m', c);
    assert Chain(hs, a + m, 0, Link(c, Bytes(a + m))) by { ChainConcat(hs, a + m, c, 0, None); }
    RelinkFront(hs, hs', a, m, m', Link(c, Bytes(a + m)));
    RelinkBack(hs, hs', a + m, a + m', c);
  }

  /** The header of a block inside the chain. */
  lemma {:induction false} HeaderAt(hs: seq<Header>, a: seq<Block>, b: seq<Block>)
    requires Chain(hs, a + b, 0, None) && b != []
    ensures Bytes(a) < |hs|
    ensures hs[Bytes(a)] ==
            Header(b[0].size, b[0].used, Link(b[1..], Bytes(a) + HEADER + b[0].size))
    ensures Bytes(a + b) == Bytes(a) + HEADER + b[0].size + Bytes(b[1..])
  {
    ChainConcat(hs, a, b, 0, None);
    BytesConcat(a, b);
  }

  /** Stepping past one block. */
  lemma {:induction false} Advance(a: seq<Block>, b: seq<Block>)
    requires b != []
    ensures Bytes(a + [b[0]]) == Bytes(a) + HEADER + b[0].size
    ensures a + b == a + [b[0]] + b[1..]
  {
    BytesConcat(a, [b[0]]);
    assert [b[0]][1..] == [];
  }

  lemma KeepsBig(bs: seq<Block>, request: nat)
    ensures Big(bs) && request <= SIZE_T_RANGE - 8 ==> Big(Allocate(bs, request).blocks)
  {
    if Big(bs) && 0 < request <= SIZE_T_RANGE - 8 {
      RoundedPositive(request);
      FirstFitBig(bs, 0, RoundUp8(request));
    }
  }

  /** First fit has passed the blocks `a` and goes on with `b`; `target` is what it comes to. */
  ghost predicate Searching(target: Outcome, a: seq<Block>, b: seq<Block>, size: nat) {
    var r := FirstFit(b, Bytes(a), size);
    target == Outcome(a + r.blocks, r.ptr)
  }

  lemma {:induction false} SearchStart(bs: seq<Block>, size: nat)
    ensures Searching(FirstFit(bs, 0, size), [], bs, size)
  {
    var r := FirstFit(bs, 0, size);
    assert [] + r.blocks == r.blocks;
  }

  lemma {:induction false} SearchStep(target: Outcome, a: seq<Block>, b: seq<Block>, size: nat)
    requires Searching(target, a, b, size)
    ensures b == [] ==> target == Outcome(a + b, None)
    ensures b != [] && Fits(b[0], size) ==>
              target == Outcome(a + PlaceIn(b[0], size) + b[1..], Some(Bytes(a) + HEADER))
    ensures b != [] && !Fits(b[0], size) ==> Searching(target, a + [b[0]], b[1..], size)
  {
    if b != [] {
      if Fits(b[0], size) {
        assert a + (PlaceIn(b[0], size) + b[1..]) == a + PlaceIn(b[0], size) + b[1..];
      } else {
        Advance(a, b);
        var rest := FirstFit(b[1..], Bytes(a) + HEADER + b[0].size, size).blocks;
        assert a + ([b[0]] + rest) == a + [b[0]] + rest;
      }
    }
  }

  /** The headers after `size` bytes are taken from the free block at `at`. */
  ghost function Taken(hs: seq<Header>, at: nat, size: nat): seq<Header>
    requires at < |hs| && size <= hs[at].size && at + HEADER + hs[at].size <= |hs|
  {
    var h := hs[at];
    if h.size >= size + HEADER + MIN_REST then
      var rest := at + HEADER + size;
      hs[rest := Header(h.size - size - HEADER, false, h.next)][at := Header(size, true, Some(rest))]
    else hs[at := h.(used := true)]
  }

  /** The new headers describe what the block at `at` turns into. */
  lemma {:induction false} TakenLinks(hs: seq<Header>, at: nat, b: Block, size: nat, tail: Option<nat>)
    requires Fits(b, size) && at < |hs| && at + HEADER + b.size <= |hs|
    requires hs[at] == Header(b.size, b.used, tail)
    ensures var m := PlaceIn(b, size);
            Chain(Taken(hs, at, size), m, at, tail) && Bytes(m) == Bytes([b]) == HEADER + b.size
  {
    var m := PlaceIn(b, size);
    assert [b][1..] == [];
    if |m| == 2 {
      assert m[1..] == [m[1]] && [m[1]][1..] == [];
    } else {
      assert m[1..] == [];
    }
  }

  lemma TakenFrame(hs: seq<Header>, at: nat, size: nat)
    requires at < |hs| && size <= hs[at].size && at + HEADER + hs[at].size <= |hs|
    ensures |Taken(hs, at, size)| == |hs|
    ensures forall k | 0 <= k < at :: Taken(hs, at, size)[k] == hs[k]
    ensures forall k | at + HEADER + hs[at].size <= k < |hs| :: Taken(hs, at, size)[k] == hs[k]
  {
  }

  lemma {:induction false} TakenChain(hs: seq<Header>, a: seq<Block>, b: seq<Block>, size: nat)
    requires Chain(hs, a + b, 0, None) && Bytes(a + b) == |hs|
    requires b != [] && Fits(b[0], size)
    ensures Bytes(a) < |hs| && hs[Bytes(a)].size == b[0].size && Bytes(a) + HEADER + b[0].size <= |hs|
    ensures var bs := a + PlaceIn(b[0], size) + b[1..];
            Chain(Taken(hs, Bytes(a), size), bs, 0, None) && Bytes(bs) == |hs|
  {
    var at, tail := Bytes(a), Link(b[1..], Bytes(a) + HEADER + b[0].size);
    HeaderAt(hs, a, b);
    Advance(a, b);
    TakenLinks(hs, at, b[0], size, tail);
    TakenFrame(hs, at, size);
    Relink(hs, Taken(hs, at, size), a, [b[0]], PlaceIn(b[0], size), b[1..]);
  }

  /** Clearing a used flag. */
  lemma {:induction false} FreedChain(hs: seq<Header>, a: seq<Block>, b: seq<Block>)
    requires Chain(hs, a + b, 0, None) && Bytes(a + b) == |hs|
    requires b != []
    ensures Bytes(a) < |hs|
    ensures var bs := a + [Block(b[0].size, false)] + b[1..];
            Chain(hs[Bytes(a) := hs[Bytes(a)].(used := false)], bs, 0, None) && Bytes(bs) == |hs|
  {
    HeaderAt(hs, a, b);
    Advance(a, b);
    var m := [Block(b[0].size, false)];
    assert [b[0]][1..] == [] && m[1..] == [];
    Relink(hs, hs[Bytes(a) := hs[Bytes(a)].(used := false)], a, [b[0]], m, b[1..]);
  }

  lemma {:induction false} TwoHeaders(hs: seq<Header>, a: seq<Block>, b: seq<Block>)
    requires Chain(hs, a + b, 0, None) && |b| > 1
    ensures var at, next := Bytes(a), Bytes(a) + HEADER + b[0].size;
            && next < |hs|
            && hs[at] == Header(b[0].size, b[0].used, Some(next))
            && hs[next] == Header(b[1].size, b[1].used, Link(b[2..], next + HEADER + b[1].size))
  {
    HeaderAt(hs, a, b);
    Advance(a, b);
    HeaderAt(hs, a + [b[0]], b[1..]);
    assert b[1..][1..] == b[2..];
  }

  /** Joining two neighbours. */
  lemma {:induction false} JoinedChain(hs: seq<Header>, a: seq<Block>, b: seq<Block>)
    requires Chain(hs, a + b, 0, None) && Bytes(a + b) == |hs|
    requires |b| > 1 && !b[0].used && !b[1].used
    ensures Bytes(a) + HEADER + b[0].size < |hs|
    ensures hs[Bytes(a)] == Header(b[0].size, false, Some(Bytes(a) + HEADER + b[0].size))
    ensures hs[Bytes(a) + HEADER + b[0].size] ==
            Header(b[1].size, false, Link(b[2..], Bytes(a) + HEADER + b[0].size + HEADER + b[1].size))
    ensures var bs := a + [Join(b[0], b[1])] + b[2..];
            var next := hs[Bytes(a) + HEADER + b[0].size].next;
            && Chain(hs[Bytes(a) := Header(Join(b[0], b[1]).size, false, next)], bs, 0, None)
            && Bytes(bs) == |hs|
  {
    TwoHeaders(hs, a, b);
    var m, m' := [b[0], b[1]], [Join(b[0], b[1])];
    assert a + b == a + m + b[2..];
    assert m[1..] == [b[1]] && [b[1]][1..] == [] && m'[1..] == [];
    var next := hs[Bytes(a) + HEADER + b[0].size].next;
    Relink(hs, hs[Bytes(a) := Header(m'[0].size, false, next)], a, m, m', b[2..]);
  }

  /** What the guard of the merge loop finds out. */
  lemma {:induction false} MergeGuard(hs: seq<Header>, a: seq<Block>, b: seq<Block>)
    requires Chain(hs, a + b, 0, None) && b != []
    ensures Bytes(a) < |hs|
    ensures hs[Bytes(a)].used == b[0].used
    ensures hs[Bytes(a)].next == Link(b[1..], Bytes(a + [b[0]]))
    ensures |b| > 1 ==> hs[Bytes(a)].next.value < |hs| && hs[hs[Bytes(a)].next.value].used == b[1].used
    ensures a + b == a + [b[0]] + b[1..]
  {
    HeaderAt(hs, a, b);
    Advance(a, b);
    if |b| > 1 {
      HeaderAt(hs, a + [b[0]], b[1..]);
    }
  }

  ghost predicate Joins(b: seq<Block>) {
    |b| > 1 && !b[0].used && !b[1].used
  }

  /** The block that one turn of the merge loop leaves behind, and the blocks still to come. */
  ghost function MergedHead(b: seq<Block>): Block
    requires b != []
  {
    if Joins(b) then Join(b[0], b[1]) else b[0]
  }

  ghost function MergedRest(b: seq<Block>): seq<Block>
    requires b != []
  {
    if Joins(b) then b[2..] else b[1..]
  }

  lemma {:induction false} MergeStep(a: seq<Block>, b: seq<Block>)
    requires b != []
    ensures a + MergePass(b) == a + [MergedHead(b)] + MergePass(MergedRest(b))
  {
    assert |b| == 1 ==> MergePass(b) == [b[0]] + MergePass(b[1..]);
  }

  class KernelHeap {
    const pool: array<Header>
    var freeList: Option<nat>
    ghost var blocks: seq<Block>

    /** The list in the pool is exactly `blocks`; before `MemoryInit` it is empty. */
    ghost predicate Valid()
      reads this, pool
    {
      && pool.Length == POOL_SIZE
      && freeList == Link(blocks, 0)
      && (blocks != [] ==> Bytes(blocks) == POOL_SIZE)
      && Chain(pool[..], blocks, 0, None)
    }

    constructor ()
      ensures Valid() && blocks == []
      ensures fresh(pool)
    {
      pool := new Header[POOL_SIZE](_ => Header(0, false, None));
      freeList := None;
      blocks := [];
    }

    method MemoryInit()
      requires pool.Length == POOL_SIZE
      modifies this, pool
      ensures Valid() && blocks == FRESH == [Block(4194304 - 12, false)]
    {
      freeList := Some(0);
      pool[0] := Header(POOL_SIZE - HEADER, false, None);
      blocks := FRESH;
      assert FRESH[1..] == [];
    }

    /** The header writes of a split (kernel/memory.c:38-44). */
    method SplitAt(at: nat, size: nat)
      requires at < pool.Length && size + HEADER + MIN_REST <= pool[at].size
      requires at + HEADER + pool[at].size <= pool.Length
      modifies pool
      ensures var h, rest := old(pool[at]), at + HEADER + size;
              pool[..] == old(pool[..])[rest := Header(h.size - size - HEADER, false, h.next)]
                                       [at := Header(size, h.used, Some(rest))]
    {
      var rest := at + HEADER + size;
      pool[rest] := pool[rest].(size := pool[at].size - size - HEADER);
      pool[rest] := pool[rest].(used := false);
      pool[rest] := pool[rest].(next := pool[at].next);
      pool[at] := pool[at].(size := size);
      pool[at] := pool[at].(next := Some(rest));
    }

    /** The split-and-mark step of an allocation (kernel/memory.c:37-47). */
    method Take(at: nat, size: nat, ghost a: seq<Block>, ghost b: seq<Block>)
      requires Valid() && blocks == a + b && b != []
      requires at == Bytes(a) && Fits(b[0], size)
      modifies this`blocks, pool
      ensures Valid()
      ensures blocks == a + PlaceIn(b[0], size) + b[1..]
      ensures blocks == a + (if b[0].size >= size + 12 + 8
                             then [Block(size, true), Block(b[0].size - size - 12, false)]
                             else [Block(b[0].size, true)]) + b[1..]
    {
      ghost var hs := pool[..];
      HeaderAt(hs, a, b);
      TakenChain(hs, a, b, size);
      if pool[at].size >= size + HEADER + MIN_REST {
        SplitAt(at, size);
      }
      pool[at] := pool[at].(used := true);
      assert pool[..] == Taken(hs, at, size);
      blocks := a + PlaceIn(b[0], size) + b[1..];
      assert a == [] ==> blocks != [];
    }

    /** The walk along the list (kernel/memory.c:33-53). */
    method Search(size: nat) returns (ptr: Option<nat>)
      requires Valid()
      modifies this`blocks, pool
      ensures Valid() && Outcome(blocks, ptr) == FirstFit(old(blocks), 0, size)
    {
      var current := freeList;
      ghost var a, b, target := [], blocks, FirstFit(blocks, 0, size);
      SearchStart(blocks, size);
      while current.Some?
        invariant blocks == old(blocks) == a + b && Valid()
        invariant current == Link(b, Bytes(a))
        invariant Searching(target, a, b, size)
        decreases |b|
      {
        var at := current.value;
        HeaderAt(pool[..], a, b);
        SearchStep(target, a, b, size);
        if !pool[at].used && pool[at].size >= size {
          Take(at, size, a, b);
          return Some(at + HEADER);
        }
        Advance(a, b);
        a, b := a + [b[0]], b[1..];
        current := pool[at].next;
      }
      SearchStep(target, a, b, size);
      return None;
    }

    method KMalloc(request: nat) returns (ptr: Option<nat>)
      requires Valid() && request < SIZE_T_RANGE
      modifies this`blocks, pool
      ensures Valid()
      ensures Outcome(blocks, ptr) == Allocate(old(blocks), request)
      ensures request == 0 ==> ptr.None? && blocks == old(blocks)
      ensures Big(old(blocks)) && request <= SIZE_T_RANGE - 8 ==> Big(blocks)
    {
      if request == 0 {
        return None;
      }
      KeepsBig(blocks, request);
      ptr := Search(RoundUp8(request));
    }

    /** The marking step of a free (kernel/memory.c:60-61). */
    method ClearUsed(block: nat, ghost a: seq<Block>, ghost b: seq<Block>)
      requires Valid() && blocks == a + b && b != [] && block == Bytes(a)
      modifies this`blocks, pool
      ensures Valid()
      ensures blocks == a + [Block(b[0].size, false)] + b[1..]
    {
      ghost var hs := pool[..];
      FreedChain(hs, a, b);
      pool[block] := pool[block].(used := false);
      assert pool[..] == hs[block := hs[block].(used := false)];
      blocks := a + [Block(b[0].size, false)] + b[1..];
      HeaderAt(hs, a, b);
      assert a == [] ==> blocks != [];
    }

    /** The joining step of the merge pass (kernel/memory.c:67-68). */
    method JoinWithNext(at: nat, ghost a: seq<Block>, ghost b: seq<Block>)
      requires Valid() && blocks == a + b && |b| > 1 && at == Bytes(a)
      requires !b[0].used && !b[1].used
      modifies this`blocks, pool
      ensures Valid()
      ensures blocks == a + [Join(b[0], b[1])] + b[2..]
    {
      ghost var hs := pool[..];
      JoinedChain(hs, a, b);
      var next := pool[at].next.value;
      pool[at] := pool[at].(size := pool[at].size + HEADER + pool[next].size);
      pool[at] := pool[at].(next := pool[next].next);
      assert pool[..] == hs[at := Header(Join(b[0], b[1]).size, false, hs[next].next)];
      blocks := a + [Join(b[0], b[1])] + b[2..];
      assert a == [] ==> blocks != [];
    }

    /** One turn of the merge loop (kernel/memory.c:65-70). */
    method MergeTurn(at: nat, ghost a: seq<Block>, ghost b: seq<Block>) returns (next: Option<nat>)
      requires Valid() && blocks == a + b && b != [] && at == Bytes(a)
      modifies this`blocks, pool
      ensures Valid()
      ensures blocks == a + [MergedHead(b)] + MergedRest(b)
      ensures next == Link(MergedRest(b), Bytes(a + [MergedHead(b)]))
    {
      MergeGuard(pool[..], a, b);
      if !pool[at].used && pool[at].next.Some? && !pool[pool[at].next.value].used {
        JoinWithNext(at, a, b);
        ghost var joined := [Join(b[0], b[1])] + b[2..];
        assert blocks == a + joined && joined[1..] == b[2..];
        MergeGuard(pool[..], a, joined);
      }
      next := pool[at].next;
    }

    method KFree(ptr: Option<nat>)
      requires Valid()
      requires ptr.Some? ==> ptr.value in Live(blocks, 0)
      modifies this`blocks, pool
      ensures Valid()
      ensures blocks == if ptr.None? then old(blocks) else Deallocate(old(blocks), ptr.value)
    {
      if ptr.None? {
        return;
      }
      ghost var a, b := LiveSplit(blocks, 0, ptr.value);
      ClearUsed(ptr.value - HEADER, a, b);

      ghost var target := Deallocate(old(blocks), ptr.value);
      var current := freeList;
      a, b := [], blocks;
      while current.Some?
        invariant blocks == a + b && Valid()
        invariant current == Link(b, Bytes(a))
        invariant a + MergePass(b) == target
        decreases |b|
      {
        MergeStep(a, b);
        current := MergeTurn(current.value, a, b);
        a, b := a + [MergedHead(b)], MergedRest(b);
      }
    }
  }

  /** The calls of any legal run, from initialisation on: the pool goes through the heaps of the run,
      so what holds of every reachable heap holds of the list in the pool. */
  method RunAll(heap: KernelHeap, ops: seq<Op>)
    requires heap.Valid() && LegalRun(START, ops)
    modifies heap, heap.pool
    ensures heap.Valid() && heap.blocks == Run(START, ops).blocks
    ensures Apart(Live(heap.blocks, 0)) && FreePairs(heap.blocks) <= 1
    ensures NoneWraps(ops) ==> forall b | b in heap.blocks :: b.size >= 8
  {
    heap.MemoryInit();
    ghost var s := START;
    var i := 0;
    assert ops[0..] == ops;
    while i < |ops|
      invariant 0 <= i <= |ops| && heap.Valid() && heap.blocks == s.blocks
      invariant LegalRun(s, ops[i..]) && Run(s, ops[i..]) == Run(START, ops)
    {
      assert ops[i..][1..] == ops[i + 1..];
      match ops[i] {
        case Malloc(request) =>
          var ptr := heap.KMalloc(request);
        case Free(ptr) =>
          heap.KFree(Some(ptr));
      }
      s := Step(s, ops[i]);
      i := i + 1;
    }
    ReachableHeap(ops);
    if NoneWraps(ops) {
      BlocksHoldEight(ops);
    }
  }
}
