/** The basic memory manager: a fixed row of integer cells where 0 marks a
    free cell and any other value is the id of the block occupying it.
    Allocation scans the cells for the first run of enough free cells;
    freeing clears every cell holding the id. */
module BasicMemory {

  /** n consecutive free cells begin at s. */
  predicate ZeroRun(mem: seq<int>, s: int, n: int) {
    0 <= s && s + n <= |mem| && forall k :: s <= k < s + n ==> mem[k] == 0
  }

  predicate AllZero(mem: seq<int>) {
    forall k :: 0 <= k < |mem| ==> mem[k] == 0
  }

  /** The lowest start at or after `from` of n consecutive free cells, or -1. */
  function FirstFitFrom(mem: seq<int>, n: int, from: nat): (s: int)
    requires n >= 1
    ensures s == -1 || (from <= s && ZeroRun(mem, s, n))
    ensures s == -1 ==> forall t :: from <= t ==> !ZeroRun(mem, t, n)
    ensures s != -1 ==> forall t :: from <= t < s ==> !ZeroRun(mem, t, n)
    decreases |mem| - from
  {
    if from + n > |mem| then -1
    else if ZeroRun(mem, from, n) then from
    else FirstFitFrom(mem, n, from + 1)
  }

  /** First fit: the lowest index where n consecutive free cells begin, or -1
      when there is no such run. */
  function FirstFit(mem: seq<int>, n: int): (s: int)
    requires n >= 1
    ensures s == -1 <==> forall t :: 0 <= t ==> !ZeroRun(mem, t, n)
    ensures s != -1 ==> ZeroRun(mem, s, n) && forall t :: 0 <= t < s ==> !ZeroRun(mem, t, n)
  {
    FirstFitFrom(mem, n, 0)
  }

  /** The number of free cells directly before index i. */
  function ZeroSuffix(mem: seq<int>, i: nat): (c: nat)
    requires i <= |mem|
    ensures c <= i
    ensures forall k :: i - c <= k < i ==> mem[k] == 0
    ensures c < i ==> mem[i - c - 1] != 0
  {
    if i == 0 || mem[i - 1] != 0 then 0 else ZeroSuffix(mem, i - 1) + 1
  }

  /** Cells [s, s + n) set to v. */
  function Fill(mem: seq<int>, s: int, n: int, v: int): (r: seq<int>)
    ensures |r| == |mem|
    ensures forall k :: 0 <= k < |mem| ==> r[k] == if s <= k < s + n then v else mem[k]
  {
    seq(|mem|, k requires 0 <= k < |mem| => if s <= k < s + n then v else mem[k])
  }

  /** Every cell holding id set to 0. */
  function Cleared(mem: seq<int>, id: int): (r: seq<int>)
    ensures |r| == |mem|
    ensures forall k :: 0 <= k < |mem| ==> r[k] == if mem[k] == id then 0 else mem[k]
  {
    seq(|mem|, k requires 0 <= k < |mem| => if mem[k] == id then 0 else mem[k])
  }

  /** Every cell holds 0 or an id already handed out. */
  predicate IdsBelow(mem: seq<int>, counter: int) {
    1 <= counter && forall k :: 0 <= k < |mem| ==> 0 <= mem[k] < counter
  }

  /** A fresh id written over a free run occupies exactly that run. */
  lemma FreshIdOccupiesRun(mem: seq<int>, counter: int, s: int, n: int, k: int)
    requires IdsBelow(mem, counter) && 0 <= k < |mem|
    ensures Fill(mem, s, n, counter)[k] == counter <==> s <= k < s + n
  {
  }

  /** Allocating over a free run keeps every cell below the next id. */
  lemma FillKeepsIdsBelow(mem: seq<int>, counter: int, s: int, n: int)
    requires IdsBelow(mem, counter)
    ensures IdsBelow(Fill(mem, s, n, counter), counter + 1)
  {
  }

  /** Freeing the id just allocated gives back the memory as it was. */
  lemma FreeUndoesAllocate(mem: seq<int>, counter: int, s: int, n: int)
    requires IdsBelow(mem, counter) && ZeroRun(mem, s, n)
    ensures Cleared(Fill(mem, s, n, counter), counter) == mem
  {
    var r := Cleared(Fill(mem, s, n, counter), counter);
    forall k | 0 <= k < |mem| ensures r[k] == mem[k] {
      if s <= k < s + n {
        assert mem[k] == 0;
      } else {
        assert mem[k] != counter;
      }
    }
  }

  /** Freeing twice is freeing once. */
  lemma ClearedIdempotent(mem: seq<int>, id: int)
    ensures Cleared(Cleared(mem, id), id) == Cleared(mem, id)
  {
    var once := Cleared(mem, id);
    var twice := Cleared(once, id);
    forall k | 0 <= k < |mem| ensures twice[k] == once[k] {
      if id == 0 {
        assert once[k] == mem[k];
      }
    }
  }

  /** Freeing keeps every cell below the next id. */
  lemma ClearedKeepsIdsBelow(mem: seq<int>, counter: int, id: int)
    requires IdsBelow(mem, counter)
    ensures IdsBelow(Cleared(mem, id), counter)
  {
  }

  class MemoryManager {
    const memory: array<int>
    var blockCounter: int

    ghost predicate Valid()
      reads this, memory
    {
      IdsBelow(memory[..], blockCounter)
    }

    /** NewMemoryManager: numCells free cells, ids start at 1. */
    constructor (numCells: nat)
      ensures fresh(memory) && memory.Length == numCells && AllZero(memory[..])
      ensures blockCounter == 1
      ensures Valid()
    {
      memory := new int[numCells](_ => 0);
      blockCounter := 1;
    }

    /** Writes the current id into the cells [start, start + n). */
    method WriteId(start: int, n: int)
      requires 0 <= n && (0 < n ==> 0 <= start && start + n <= memory.Length)
      modifies memory
      ensures memory[..] == Fill(old(memory[..]), start, n, blockCounter)
    {
      for j := start to start + n
        invariant forall k :: 0 <= k < memory.Length ==>
          memory[k] == if start <= k < j then blockCounter else old(memory[k])
      {
        memory[j] := blockCounter;
      }
      assert memory[..] == Fill(old(memory[..]), start, n, blockCounter);
    }

    /** Scans the cells keeping the start and length of the current run of
        free cells; as soon as that run is numCells long its cells receive
        the next id. Returns the run's start, or -1. */
    method Allocate(numCells: int) returns (start: int)
      requires Valid()
      modifies this, memory
      ensures Valid()
      ensures numCells >= 1 ==> start == FirstFit(old(memory[..]), numCells)
      ensures numCells >= 1 && start != -1 ==>
        && memory[..] == Fill(old(memory[..]), start, numCells, old(blockCounter))
        && blockCounter == old(blockCounter) + 1
      ensures numCells < 1 ==> start == -1
      ensures start == -1 ==> memory[..] == old(memory[..])
      ensures start == -1 && numCells != 0 ==> blockCounter == old(blockCounter)
      ensures numCells == 0 ==>
        blockCounter == old(blockCounter) + (if AllZero(old(memory[..])) then 0 else 1)
    {
      ghost var mem := memory[..];
      start := -1;
      var count := 0;
      for i := 0 to memory.Length
        invariant memory[..] == mem && blockCounter == old(blockCounter)
        invariant count == ZeroSuffix(mem, i)
        invariant start == if count > 0 then i - count else -1
        invariant numCells >= 1 ==> count < numCells
        invariant numCells >= 1 ==> forall t :: 0 <= t && t + numCells <= i ==> !ZeroRun(mem, t, numCells)
        invariant numCells == 0 ==> forall k :: 0 <= k < i ==> mem[k] == 0
      {
        if memory[i] == 0 {
          if count == 0 {
            start := i;
          }
          count := count + 1;
        } else {
          start := -1;
          count := 0;
        }
        if numCells >= 1 && count < numCells {
          forall t | 0 <= t && t + numCells == i + 1 ensures !ZeroRun(mem, t, numCells) {
            assert t <= i - count < i + 1;
          }
        }
        assert count == ZeroSuffix(mem, i + 1);
        if count == numCells {
          if numCells >= 1 {
            assert ZeroRun(mem, start, numCells);
            ghost var f := FirstFit(mem, numCells);
            assert f != -1 && !(f < start) && !(start < f);
          }
          WriteId(start, numCells);
          FillKeepsIdsBelow(mem, blockCounter, start, numCells);
          blockCounter := blockCounter + 1;
          return start;
        }
      }
      return -1;
    }

    /** Sets every cell holding blockID to 0. */
    method Free(blockID: int)
      requires Valid()
      modifies memory
      ensures Valid()
      ensures memory[..] == Cleared(old(memory[..]), blockID)
    {
      ghost var mem := memory[..];
      for i := 0 to memory.Length
        invariant forall k :: 0 <= k < memory.Length ==>
          memory[k] == if k < i && mem[k] == blockID then 0 else mem[k]
      {
        if memory[i] == blockID {
          memory[i] := 0;
        }
      }
      assert memory[..] == Cleared(mem, blockID);
      ClearedKeepsIdsBelow(mem, blockCounter, blockID);
    }
  }
}
