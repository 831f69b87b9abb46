/** The allocation sequence of `init_paging`: one page directory and 1024 page tables. */
module Paging {
  import opened HeapModel
  import HeapRuns
  import opened Heap

  const PAGE_SIZE: nat := 4096
  const TABLES: nat := 1024

  function UsedBytes(bs: seq<Block>): nat {
    if bs == [] then 0 else (if bs[0].used then HEADER + bs[0].size else 0) + UsedBytes(bs[1..])
  }

  lemma {:induction false} UsedBytesBound(bs: seq<Block>)
    ensures UsedBytes(bs) <= Bytes(bs)
  {
    if bs == [] {
    } else {
      UsedBytesBound(bs[1..]);
    }
  }

  /** A served request uses up its size and a header. */
  lemma {:induction false} FirstFitUses(bs: seq<Block>, base: nat, size: nat)
    requires FirstFit(bs, base, size).ptr.Some?
    ensures UsedBytes(FirstFit(bs, base, size).blocks) >= UsedBytes(bs) + HEADER + size
    ensures FirstFit(bs, base, size).blocks != []
  {
    var r := FirstFit(bs, base, size).blocks;
    if Fits(bs[0], size) {
      var m := PlaceIn(bs[0], size);
      assert r[1..] == m[1..] + bs[1..];
      assert |m| == 2 ==> r[1..][1..] == bs[1..];
    } else {
      FirstFitUses(bs[1..], base + HEADER + bs[0].size, size);
      assert r[1..] == FirstFit(bs[1..], base + HEADER + bs[0].size, size).blocks;
    }
  }

  function Pages(n: nat): seq<Block> {
    seq(n, _ => Block(PAGE_SIZE, true))
  }

  lemma {:induction false} PagesBytes(n: nat)
    ensures Bytes(Pages(n)) == n * (HEADER + PAGE_SIZE)
  {
    if n == 0 {
    } else {
      PagesBytes(n - 1);
      assert Pages(n)[1..] == Pages(n - 1);
    }
  }

  /** A fresh pool after `n` page-sized requests. */
  function Carved(n: nat): seq<Block>
    requires n <= 1021
  {
    Pages(n) + [Block(POOL_SIZE - HEADER - n * (HEADER + PAGE_SIZE), false)]
  }

  lemma {:induction false} CarveNext(n: nat)
    requires n <= 1021
    ensures Allocate(Carved(n), PAGE_SIZE) ==
            if n < 1021 then Outcome(Carved(n + 1), Some(n * (HEADER + PAGE_SIZE) + HEADER))
            else Outcome(Carved(n), None)
  {
    PagesBytes(n);
    HeapRuns.TailRequest(Pages(n), POOL_SIZE - HEADER - n * (HEADER + PAGE_SIZE), PAGE_SIZE);
    assert Pages(n) + [Block(PAGE_SIZE, true)] == Pages(n + 1);
  }

  const LEFTOVER: seq<Block> := [Block(PAGE_SIZE, false)] + Pages(1020) + [Block(24, false)]

  lemma {:induction false} CarvedThenFreed()
    ensures HEADER in Live(Carved(1021), 0)
    ensures Deallocate(Carved(1021), HEADER) == LEFTOVER
  {
    var c := Pages(1020) + [Block(24, false)];
    assert Carved(1021) == [] + [Block(PAGE_SIZE, true)] + c;
    HeapRuns.FreeAt([], Block(PAGE_SIZE, true), c, 0);
    assert [] + [Block(PAGE_SIZE, false)] + c == LEFTOVER;
    HeapRuns.NoPairs(LEFTOVER);
  }

  /** What one page-sized request does to any heap. */
  lemma PageRequest(bs: seq<Block>)
    ensures var r := Allocate(bs, PAGE_SIZE);
            && (r.ptr.None? ==> r.blocks == bs)
            && (r.ptr.Some? ==>
                  && r.blocks != []
                  && UsedBytes(r.blocks) >= UsedBytes(bs) + HEADER + PAGE_SIZE
                  && Live(bs, 0).Keys + {r.ptr.value} <= Live(r.blocks, 0).Keys)
  {
    if FirstFit(bs, 0, PAGE_SIZE).ptr.Some? {
      FirstFitUses(bs, 0, PAGE_SIZE);
      FirstFitLive(bs, 0, PAGE_SIZE);
    } else {
      FirstFitFails(bs, 0, PAGE_SIZE);
    }
  }

  /** The heap after the directory and `n` tables were handed out; `fromFresh` says whether the pool
      was fresh before. */
  ghost predicate Progress(bs: seq<Block>, directory: nat, n: nat, fromFresh: bool) {
    && UsedBytes(bs) >= (n + 1) * (HEADER + PAGE_SIZE)
    && directory in Live(bs, 0)
    && (fromFresh ==> n <= 1020 && bs == Carved(n + 1) && directory == HEADER)
  }

  lemma FirstPage(bs: seq<Block>)
    ensures var r := Allocate(bs, PAGE_SIZE);
            && (r.ptr.Some? ==> Progress(r.blocks, r.ptr.value, 0, bs == FRESH))
            && (r.ptr.None? ==> bs != FRESH)
  {
    PageRequest(bs);
    CarveNext(0);
    assert Carved(0) == FRESH;
  }

  function TablePtr(i: nat): nat {
    (i + 1) * (HEADER + PAGE_SIZE) + HEADER
  }

  lemma NextPage(bs: seq<Block>, directory: nat, n: nat, fromFresh: bool)
    requires Progress(bs, directory, n, fromFresh)
    ensures var r := Allocate(bs, PAGE_SIZE);
            && (r.ptr.Some? ==>
                  && Progress(r.blocks, directory, n + 1, fromFresh)
                  && (fromFresh ==> r.ptr.value == TablePtr(n)))
            && (r.ptr.None? ==>
                  && directory in Live(r.blocks, 0)
                  && (fromFresh ==> n == 1020 && Deallocate(r.blocks, directory) == LEFTOVER))
  {
    PageRequest(bs);
    if fromFresh {
      CarveNext(n + 1);
      CarvedThenFreed();
    }
  }

  /** 1025 pages do not fit the pool. */
  lemma TooManyPages(bs: seq<Block>, directory: nat, fromFresh: bool)
    requires Progress(bs, directory, TABLES, fromFresh)
    ensures Bytes(bs) > POOL_SIZE
  {
    UsedBytesBound(bs);
  }

  /** One turn of the loop over the tables (kernel/kernel.c:384-388). */
  method FillTable(heap: KernelHeap, tables: array<Option<nat>>, directory: nat, i: nat, ghost fromFresh: bool)
    returns (ok: bool)
    requires heap.Valid() && Progress(heap.blocks, directory, i, fromFresh)
    requires i < tables.Length && tables as object != heap.pool
    modifies heap`blocks, heap.pool, tables
    ensures heap.Valid()
    ensures forall k | 0 <= k < tables.Length && k != i :: tables[k] == old(tables[k])
    ensures ok ==> Progress(heap.blocks, directory, i + 1, fromFresh)
    ensures fromFresh ==> if ok then tables[i] == Some(TablePtr(i))
                          else i == 1020 && tables[i] == None && heap.blocks == LEFTOVER
  {
    NextPage(heap.blocks, directory, i, fromFresh);
    var table := heap.KMalloc(PAGE_SIZE);
    tables[i] := table;
    if table.None? {
      heap.KFree(Some(directory));
    }
    ok := table.Some?;
  }

  /** Never succeeds: 1025 page-sized requests do not fit the pool, whatever its state. From a fresh
      pool it hands out the directory and 1020 tables, fails on the next, and gives back the
      directory only. */
  method InitPaging(heap: KernelHeap, tables: array<Option<nat>>) returns (directory: Option<nat>, ok: bool)
    requires heap.Valid() && tables.Length == TABLES
    requires tables as object != heap.pool
    modifies heap`blocks, heap.pool, tables
    ensures heap.Valid()
    ensures !ok
    ensures old(heap.blocks) == FRESH ==>
              && heap.blocks == LEFTOVER
              && directory == Some(HEADER)
              && tables[1020] == None
              && forall i | 0 <= i < 1020 :: tables[i] == Some(TablePtr(i))
  {
    ghost var fromFresh := heap.blocks == FRESH;
    FirstPage(heap.blocks);
    directory := heap.KMalloc(PAGE_SIZE);
    if directory.None? {
      return directory, false;
    }
    for i := 0 to TABLES
      invariant heap.Valid()
      invariant directory.Some? && Progress(heap.blocks, directory.value, i, fromFresh)
      invariant fromFresh ==> forall k | 0 <= k < i :: tables[k] == Some(TablePtr(k))
    {
      ok := FillTable(heap, tables, directory.value, i, fromFresh);
      if !ok {
        return directory, false;
      }
    }
    TooManyPages(heap.blocks, directory.value, fromFresh);
    assert false;
    return directory, true;
  }
}
