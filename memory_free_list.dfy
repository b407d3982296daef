/** A memory manager over a fixed row of integer cells: 0 marks a free cell,
    any other value is the id of the block occupying it. Free space is also
    tracked as a list of (start, size) runs; allocation is first fit over that
    list, freeing zeroes a block's run and returns it to the list, which is then
    sorted by start and merged where runs touch. */
module FreeListMemory {

  datatype FreeBlock = FreeBlock(start: int, size: int)

  function End(b: FreeBlock): int {
    b.start + b.size
  }

  predicate InBlock(b: FreeBlock, k: int) {
    b.start <= k < b.start + b.size
  }

  /** Cell k lies in some run of the list. */
  predicate Covered(list: seq<FreeBlock>, k: int) {
    exists i :: 0 <= i < |list| && InBlock(list[i], k)
  }

  /** Sum of the run sizes. */
  function Total(list: seq<FreeBlock>): int {
    if |list| == 0 then 0 else Total(list[..|list| - 1]) + list[|list| - 1].size
  }

  /** No size is negative and every non-empty run lies inside `len` cells. */
  predicate BlocksFit(list: seq<FreeBlock>, len: nat) {
    forall b :: b in list ==> 0 <= b.size && (0 < b.size ==> 0 <= b.start && End(b) <= len)
  }

  /** The empty runs that can appear: {-1, 0}, recorded when a freed id is not
      found, and {0, 0}, the initial run of a manager with no cells. */
  predicate Parked(list: seq<FreeBlock>, len: nat) {
    forall b :: b in list && b.size == 0 ==> b.start == -1 || (b.start == 0 && len == 0)
  }

  predicate SortedByStart(list: seq<FreeBlock>) {
    forall i, j :: 0 <= i < j < |list| ==> list[i].start <= list[j].start
  }

  /** No run ends exactly where the next one begins. */
  predicate NoTouch(list: seq<FreeBlock>) {
    forall i :: 1 <= i < |list| ==> End(list[i - 1]) != list[i].start
  }

  /** Every run ends strictly before the next one starts. */
  predicate StrictlySeparated(list: seq<FreeBlock>) {
    forall i, j :: 0 <= i < j < |list| ==> End(list[i]) < list[j].start
  }

  /** Two runs do not overlap, and share a start only when both are empty. */
  predicate Sep(x: FreeBlock, y: FreeBlock) {
    && (End(x) <= y.start || End(y) <= x.start)
    && (x.start == y.start ==> x.size == 0 && y.size == 0)
  }

  predicate Apart(list: seq<FreeBlock>) {
    forall i, j :: 0 <= i < |list| && 0 <= j < |list| && i != j ==> Sep(list[i], list[j])
  }

  /** What coalescing promises about its result `after` for a list `before`. */
  ghost predicate Coalesced(before: seq<FreeBlock>, after: seq<FreeBlock>, len: nat) {
    && (|before| < 2 ==> after == before)
    && (|before| >= 2 ==> SortedByStart(after) && NoTouch(after))
    && Total(after) == Total(before)
    && (forall k :: Covered(after, k) <==> Covered(before, k))
    && (BlocksFit(before, len) ==> BlocksFit(after, len))
    && (Parked(before, len) ==> Parked(after, len))
    && (Apart(before) ==> StrictlySeparated(after))
  }

  /** The representation invariant: the runs are in bounds, strictly
      separated and cover exactly the cells holding 0, and every cell holds
      0 or an id already handed out. */
  predicate Consistent(mem: seq<int>, list: seq<FreeBlock>, counter: int) {
    && BlocksFit(list, |mem|)
    && Parked(list, |mem|)
    && StrictlySeparated(list)
    && 1 <= counter
    && (forall k :: 0 <= k < |mem| ==> 0 <= mem[k] < counter)
    && (forall k :: 0 <= k < |mem| ==> (mem[k] == 0 <==> Covered(list, k)))
  }

  // ---------------------------------------------------------------------------
  // allocate

  /** Index of the first run with at least n cells, or |list| when there is none. */
  function FirstFit(list: seq<FreeBlock>, n: int): (i: nat)
    ensures i <= |list|
    ensures i < |list| ==> list[i].size >= n
    ensures forall j :: 0 <= j < i ==> list[j].size < n
  {
    if |list| == 0 then 0
    else if list[0].size >= n then 0
    else 1 + FirstFit(list[1..], n)
  }

  /** The chosen run after n cells are taken from its front; dropped when it becomes empty. */
  function Shrink(list: seq<FreeBlock>, i: nat, n: int): seq<FreeBlock>
    requires i < |list|
  {
    if list[i].size - n == 0 then list[..i] + list[i + 1..]
    else list[i := FreeBlock(list[i].start + n, list[i].size - n)]
  }

  /** Cells [s, s + n) set to v. */
  function Fill(mem: seq<int>, s: int, n: int, v: int): (r: seq<int>)
    ensures |r| == |mem|
  {
    seq(|mem|, k requires 0 <= k < |mem| => if s <= k < s + n then v else mem[k])
  }

  /** The runs of Shrink(list, i, n), by index. */
  lemma ShrinkIndex(list: seq<FreeBlock>, i: nat, n: int)
    requires i < |list|
    ensures var list' := Shrink(list, i, n);
      if list[i].size - n == 0 then
        && |list'| == |list| - 1
        && forall j :: 0 <= j < |list'| ==> list'[j] == list[if j < i then j else j + 1]
      else
        && |list'| == |list|
        && list'[i] == FreeBlock(list[i].start + n, list[i].size - n)
        && forall j :: 0 <= j < |list'| && j != i ==> list'[j] == list[j]
  {
  }

  /** Taking cells from the front of a run keeps the runs in bounds, the empty
      runs parked and the list strictly separated. */
  lemma ShrinkKeepsShape(list: seq<FreeBlock>, i: nat, n: int, len: nat)
    requires i < |list| && BlocksFit(list, len) && 0 <= n <= list[i].size
    ensures BlocksFit(Shrink(list, i, n), len)
    ensures Parked(list, len) ==> Parked(Shrink(list, i, n), len)
    ensures StrictlySeparated(list) ==> StrictlySeparated(Shrink(list, i, n))
  {
    ShrinkIndex(list, i, n);
    var list' := Shrink(list, i, n);
    var b' := FreeBlock(list[i].start + n, list[i].size - n);
    assert list[i] in list;
    forall x | x in list' ensures x in list || (x == b' && x.size > 0) {
      var j :| 0 <= j < |list'| && list'[j] == x;
      if list[i].size - n == 0 {
        assert x == list[if j < i then j else j + 1];
      } else if j != i {
        assert x == list[j];
      }
    }
    if StrictlySeparated(list) {
      forall a, c | 0 <= a < c < |list'| ensures End(list'[a]) < list'[c].start {
        if list[i].size - n == 0 {
          assert list'[a] == list[if a < i then a else a + 1];
          assert list'[c] == list[if c < i then c else c + 1];
        } else {
          assert End(list'[a]) == End(list[a]);
          assert list[c].start <= list'[c].start;
        }
      }
    }
  }

  /** After the shrink a cell is free-listed exactly when it was, unless it
      is one of the n cells just taken. */
  lemma ShrinkCovers(list: seq<FreeBlock>, i: nat, n: int, k: int)
    requires i < |list| && 0 <= n <= list[i].size && StrictlySeparated(list)
    ensures Covered(Shrink(list, i, n), k) <==>
      Covered(list, k) && !(list[i].start <= k < list[i].start + n)
  {
    ShrinkIndex(list, i, n);
    var list' := Shrink(list, i, n);
    var b := list[i];
    if Covered(list', k) {
      var j :| 0 <= j < |list'| && InBlock(list'[j], k);
      var j' := if b.size - n == 0 then (if j < i then j else j + 1) else j;
      assert InBlock(list[j'], k);
    }
    if Covered(list, k) && !(b.start <= k < b.start + n) {
      var j :| 0 <= j < |list| && InBlock(list[j], k);
      if b.size - n == 0 {
        if j < i { assert InBlock(list'[j], k); } else if j > i { assert InBlock(list'[j - 1], k); }
      } else {
        assert InBlock(list'[j], k);
      }
    }
  }

  lemma AllocateKeepsConsistent(mem: seq<int>, list: seq<FreeBlock>, counter: int, n: int)
    requires Consistent(mem, list, counter) && n >= 0 && FirstFit(list, n) < |list|
    ensures Consistent(Fill(mem, list[FirstFit(list, n)].start, n, counter),
                       Shrink(list, FirstFit(list, n), n), counter + 1)
  {
    var i := FirstFit(list, n);
    var b := list[i];
    var mem' := Fill(mem, b.start, n, counter);
    var list' := Shrink(list, i, n);
    assert b in list;
    ShrinkKeepsShape(list, i, n, |mem|);
    forall k | 0 <= k < |mem| ensures mem'[k] == 0 <==> Covered(list', k) {
      ShrinkCovers(list, i, n, k);
    }
  }

  // ---------------------------------------------------------------------------
  // free

  /** Index of the first cell at or after `from` holding `id`, or -1. */
  function IndexOf(mem: seq<int>, id: int, from: nat): (i: int)
    requires from <= |mem|
    ensures i == -1 || (from <= i < |mem| && mem[i] == id)
    ensures i == -1 ==> forall k :: from <= k < |mem| ==> mem[k] != id
    ensures i != -1 ==> forall k :: from <= k < i ==> mem[k] != id
    decreases |mem| - from
  {
    if from == |mem| then -1
    else if mem[from] == id then from
    else IndexOf(mem, id, from + 1)
  }

  /** The end of the run of cells holding `id` that starts at s. */
  function RunEnd(mem: seq<int>, id: int, s: nat): (e: nat)
    requires s <= |mem|
    ensures s <= e <= |mem|
    ensures forall k :: s <= k < e ==> mem[k] == id
    ensures e == |mem| || mem[e] != id
    decreases |mem| - s
  {
    if s == |mem| || mem[s] != id then s else RunEnd(mem, id, s + 1)
  }

  /** The first contiguous run of cells holding `id`, or {-1, 0} when there is none. */
  function FirstRun(mem: seq<int>, id: int): (r: FreeBlock)
    ensures 0 <= r.size && (r.size == 0 <==> r.start == -1)
    ensures r.start != -1 ==> 0 <= r.start && End(r) <= |mem|
    ensures forall k :: 0 <= k < |mem| && InBlock(r, k) ==> mem[k] == id
  {
    var s := IndexOf(mem, id, 0);
    if s == -1 then FreeBlock(-1, 0) else FreeBlock(s, RunEnd(mem, id, s) - s)
  }

  /** The cells of run b set to 0. */
  function Zeroed(mem: seq<int>, b: FreeBlock): (r: seq<int>)
    ensures |r| == |mem|
  {
    seq(|mem|, k requires 0 <= k < |mem| => if InBlock(b, k) then 0 else mem[k])
  }

  /** Two runs one of which holds an occupied cell where the other is free cannot overlap. */
  lemma FreedRunApart(mem: seq<int>, list: seq<FreeBlock>, counter: int, r: FreeBlock)
    requires Consistent(mem, list, counter)
    requires 0 <= r.size && (r.size == 0 <==> r.start == -1)
    requires r.start != -1 ==> 0 <= r.start && End(r) <= |mem|
    requires forall k :: 0 <= k < |mem| && InBlock(r, k) ==> mem[k] != 0
    ensures Apart(list + [r])
  {
    var l := list + [r];
    forall i, j | 0 <= i < |l| && 0 <= j < |l| && i != j ensures Sep(l[i], l[j]) {
      if i < |list| && j < |list| {
        assert list[i] in list && list[j] in list;
        if i < j { assert End(list[i]) < list[j].start; } else { assert End(list[j]) < list[i].start; }
      } else {
        var x := if i < |list| then l[i] else l[j];
        assert x in list;
        assert 0 <= x.size;
        if x.size == 0 {
          assert x.start == -1 || (x.start == 0 && |mem| == 0);
        } else {
          assert 0 <= x.start && End(x) <= |mem|;
        }
        if x.size > 0 && r.size > 0 && !(End(x) <= r.start || End(r) <= x.start) {
          var c := if x.start < r.start then r.start else x.start;
          assert InBlock(x, c) && InBlock(r, c);
          assert Covered(list, c);
        }
        assert Sep(x, r) && Sep(r, x);
      }
    }
  }

  lemma AppendKeepsShape(list: seq<FreeBlock>, r: FreeBlock, len: nat)
    requires BlocksFit(list, len)
    requires 0 <= r.size && (r.size == 0 ==> r.start == -1) && (0 < r.size ==> 0 <= r.start && End(r) <= len)
    ensures BlocksFit(list + [r], len) && (Parked(list, len) ==> Parked(list + [r], len))
  {
    forall x | x in list + [r] ensures x in list || x == r {
      var j :| 0 <= j < |list + [r]| && (list + [r])[j] == x;
      if j < |list| { assert x == list[j]; }
    }
  }

  lemma FreeKeepsConsistent(mem: seq<int>, list: seq<FreeBlock>, counter: int, id: int, after: seq<FreeBlock>)
    requires Consistent(mem, list, counter) && id != 0
    requires Coalesced(list + [FirstRun(mem, id)], after, |mem|)
    ensures Consistent(Zeroed(mem, FirstRun(mem, id)), after, counter)
  {
    var r := FirstRun(mem, id);
    var mem' := Zeroed(mem, r);
    FreedRunApart(mem, list, counter, r);
    AppendKeepsShape(list, r, |mem|);
    forall k | 0 <= k < |mem| ensures mem'[k] == 0 <==> Covered(after, k) {
      CoveredAppend(list, r, k);
    }
  }

  // ---------------------------------------------------------------------------
  // Facts used by coalescing

  lemma {:induction false} TotalConcat(a: seq<FreeBlock>, b: seq<FreeBlock>)
    ensures Total(a + b) == Total(a) + Total(b)
    decreases |b|
  {
    if |b| == 0 {
      assert a + b == a;
    } else {
      var ab := a + b;
      assert ab[..|ab| - 1] == a + b[..|b| - 1];
      TotalConcat(a, b[..|b| - 1]);
    }
  }

  lemma TotalSnoc(s: seq<FreeBlock>, i: nat)
    requires i < |s|
    ensures Total(s[..i + 1]) == Total(s[..i]) + s[i].size
  {
    assert s[..i + 1][..i] == s[..i];
  }

  function Swapped(s: seq<FreeBlock>, j: nat): seq<FreeBlock>
    requires 0 < j < |s|
  {
    s[j - 1 := s[j]][j := s[j - 1]]
  }

  /** The pieces of a sequence around two neighbours, before and after
      they change places. */
  lemma SwapPieces<T>(s: seq<T>, j: nat)
    requires 0 < j < |s|
    ensures s == s[..j - 1] + [s[j - 1], s[j]] + s[j + 1..]
    ensures s[j - 1 := s[j]][j := s[j - 1]] == s[..j - 1] + [s[j], s[j - 1]] + s[j + 1..]
  {
  }

  /** Exchanging two neighbouring runs keeps the multiset of runs. */
  lemma SwapKeepsMultiset(s: seq<FreeBlock>, j: nat)
    requires 0 < j < |s|
    ensures multiset(Swapped(s, j)) == multiset(s)
  {
    SwapPieces(s, j);
  }

  lemma TotalPair(x: FreeBlock, y: FreeBlock)
    ensures Total([x, y]) == x.size + y.size
  {
    assert [x, y][..1] == [x];
    assert [x][..0] == [];
    assert Total([x]) == x.size;
  }

  /** Exchanging two neighbouring runs keeps the total. */
  lemma SwapKeepsTotal(s: seq<FreeBlock>, j: nat)
    requires 0 < j < |s|
    ensures Total(Swapped(s, j)) == Total(s)
  {
    var pre, post := s[..j - 1], s[j + 1..];
    var x, y := s[j - 1], s[j];
    SwapPieces(s, j);
    TotalConcat(pre + [x, y], post);
    TotalConcat(pre, [x, y]);
    TotalConcat(pre + [y, x], post);
    TotalConcat(pre, [y, x]);
    TotalPair(x, y);
    TotalPair(y, x);
  }

  lemma SwapKeepsCovered(s: seq<FreeBlock>, j: nat, k: int)
    requires 0 < j < |s|
    ensures Covered(Swapped(s, j), k) <==> Covered(s, k)
  {
    var t := Swapped(s, j);
    if Covered(s, k) {
      var w :| 0 <= w < |s| && InBlock(s[w], k);
      var w' := if w == j - 1 then j else if w == j then j - 1 else w;
      assert t[w'] == s[w];
    }
    if Covered(t, k) {
      var w :| 0 <= w < |t| && InBlock(t[w], k);
      var w' := if w == j - 1 then j else if w == j then j - 1 else w;
      assert s[w'] == t[w];
    }
  }

  lemma SwapKeepsApart(s: seq<FreeBlock>, j: nat)
    requires 0 < j < |s| && Apart(s)
    ensures Apart(Swapped(s, j))
  {
    var t := Swapped(s, j);
    forall a, b | 0 <= a < |t| && 0 <= b < |t| && a != b ensures Sep(t[a], t[b]) {
      var a' := if a == j - 1 then j else if a == j then j - 1 else a;
      var b' := if b == j - 1 then j else if b == j then j - 1 else b;
      assert t[a] == s[a'] && t[b] == s[b'];
    }
  }

  /** Sorted and pairwise apart, each run ends no later than any later run starts. */
  lemma SortedApartDisjoint(s: seq<FreeBlock>, len: nat)
    requires SortedByStart(s) && Apart(s) && BlocksFit(s, len)
    ensures SortedDisjoint(s)
  {
    forall i, j | 0 <= i < j < |s| ensures End(s[i]) <= s[j].start {
      assert Sep(s[i], s[j]);
      assert s[i] in s && s[j] in s;
    }
  }

  /** Covered cells of a list extended by one run. */
  lemma CoveredSnoc(s: seq<FreeBlock>, i: nat, k: int)
    requires i < |s|
    ensures Covered(s[..i + 1], k) <==> Covered(s[..i], k) || InBlock(s[i], k)
  {
    if Covered(s[..i + 1], k) {
      var w :| 0 <= w < i + 1 && InBlock(s[..i + 1][w], k);
      if w < i { assert InBlock(s[..i][w], k); }
    }
    if Covered(s[..i], k) {
      var w :| 0 <= w < i && InBlock(s[..i][w], k);
      assert InBlock(s[..i + 1][w], k);
    }
    if InBlock(s[i], k) {
      assert InBlock(s[..i + 1][i], k);
    }
  }

  /** Growing the last run by a touching run covers exactly the union of the two. */
  lemma CoveredMergeLast(m: seq<FreeBlock>, c: FreeBlock, k: int)
    requires |m| > 0 && End(m[|m| - 1]) == c.start && m[|m| - 1].size >= 0 && c.size >= 0
    ensures var last := m[|m| - 1];
      Covered(m[|m| - 1 := FreeBlock(last.start, last.size + c.size)], k) <==> Covered(m, k) || InBlock(c, k)
  {
    var last := m[|m| - 1];
    var m' := m[|m| - 1 := FreeBlock(last.start, last.size + c.size)];
    if Covered(m', k) {
      var w :| 0 <= w < |m'| && InBlock(m'[w], k);
      if w < |m| - 1 { assert InBlock(m[w], k); }
      else if !InBlock(c, k) { assert InBlock(m[|m| - 1], k); }
    }
    if Covered(m, k) {
      var w :| 0 <= w < |m| && InBlock(m[w], k);
      assert InBlock(m'[w], k);
    }
    if InBlock(c, k) {
      assert InBlock(m'[|m| - 1], k);
    }
  }

  lemma CoveredAppend(m: seq<FreeBlock>, c: FreeBlock, k: int)
    ensures Covered(m + [c], k) <==> Covered(m, k) || InBlock(c, k)
  {
    if Covered(m + [c], k) {
      var w :| 0 <= w < |m| + 1 && InBlock((m + [c])[w], k);
      if w < |m| { assert InBlock(m[w], k); }
    }
    if Covered(m, k) {
      var w :| 0 <= w < |m| && InBlock(m[w], k);
      assert InBlock((m + [c])[w], k);
    }
    if InBlock(c, k) {
      assert InBlock((m + [c])[|m|], k);
    }
  }

  // ---------------------------------------------------------------------------
  // The manager

  /** Sorted by start and pairwise not overlapping. */
  predicate SortedDisjoint(s: seq<FreeBlock>) {
    forall i, j :: 0 <= i < j < |s| ==> End(s[i]) <= s[j].start
  }

  /** a holds the same runs as b, in some order. */
  ghost predicate SameRuns(a: seq<FreeBlock>, b: seq<FreeBlock>) {
    && multiset(a) == multiset(b)
    && Total(a) == Total(b)
    && (forall k :: Covered(a, k) <==> Covered(b, k))
    && (Apart(b) ==> Apart(a))
  }

  lemma SwapKeepsSameRuns(s: seq<FreeBlock>, orig: seq<FreeBlock>, j: nat)
    requires 0 < j < |s| && SameRuns(s, orig)
    ensures SameRuns(Swapped(s, j), orig)
  {
    SwapKeepsMultiset(s, j);
    SwapKeepsTotal(s, j);
    forall k ensures Covered(Swapped(s, j), k) <==> Covered(s, k) {
      SwapKeepsCovered(s, j, k);
    }
    if Apart(orig) {
      SwapKeepsApart(s, j);
    }
  }

  /** What the merge loop of coalescing keeps after it has consumed the
      first i runs of the sorted list: the shape of the merged list, and the
      cells it covers. */
  ghost predicate MergeInv(merged: seq<FreeBlock>, sorted: seq<FreeBlock>, i: nat, len: nat)
    requires 1 <= i <= |sorted|
  {
    MergeShape(merged, sorted, i, len) && MergeCover(merged, sorted, i)
  }

  ghost predicate MergeShape(merged: seq<FreeBlock>, sorted: seq<FreeBlock>, i: nat, len: nat)
    requires 1 <= i <= |sorted|
  {
    && |merged| >= 1 && SortedByStart(merged) && NoTouch(merged)
    && merged[|merged| - 1].start <= sorted[i - 1].start
    && End(merged[|merged| - 1]) == End(sorted[i - 1])
    && BlocksFit(merged, len)
    && (Parked(sorted, len) ==> Parked(merged, len))
    && (SortedDisjoint(sorted) ==> StrictlySeparated(merged))
  }

  ghost predicate MergeCover(merged: seq<FreeBlock>, sorted: seq<FreeBlock>, i: nat)
    requires 1 <= i <= |sorted|
  {
    && Total(merged) == Total(sorted[..i])
    && (forall k :: Covered(merged, k) <==> Covered(sorted[..i], k))
  }

  lemma MergeFirst(sorted: seq<FreeBlock>, len: nat)
    requires |sorted| >= 1 && BlocksFit(sorted, len)
    ensures MergeInv([sorted[0]], sorted, 1, len)
  {
    assert sorted[..1] == [sorted[0]];
    assert sorted[0] in sorted;
  }

  /** The last merged run extended by the cells of c. */
  function Grow(merged: seq<FreeBlock>, c: FreeBlock): (m: seq<FreeBlock>)
    requires |merged| >= 1
    ensures |m| == |merged| && m[..|m| - 1] == merged[..|merged| - 1]
    ensures m[|m| - 1].start == merged[|merged| - 1].start
    ensures End(m[|m| - 1]) == End(merged[|merged| - 1]) + c.size
  {
    var last := merged[|merged| - 1];
    merged[|merged| - 1 := FreeBlock(last.start, last.size + c.size)]
  }

  lemma GrowTotal(merged: seq<FreeBlock>, c: FreeBlock)
    requires |merged| >= 1
    ensures Total(Grow(merged, c)) == Total(merged) + c.size
  {
    var m := Grow(merged, c);
    assert m[..|m| - 1] == merged[..|merged| - 1];
  }

  lemma GrowFits(merged: seq<FreeBlock>, c: FreeBlock, len: nat)
    requires |merged| >= 1 && BlocksFit(merged, len)
    requires End(merged[|merged| - 1]) == c.start
    requires 0 <= c.size && (0 < c.size ==> 0 <= c.start && End(c) <= len)
    ensures BlocksFit(Grow(merged, c), len)
    ensures Parked(merged, len) ==> Parked(Grow(merged, c), len)
  {
    var m := Grow(merged, c);
    var last := merged[|merged| - 1];
    assert last in merged;
    forall x | x in m ensures x in merged || x == m[|m| - 1] {
      var j :| 0 <= j < |m| && m[j] == x;
      if j < |m| - 1 { assert x == m[..|m| - 1][j] == merged[j]; }
    }
    if m[|m| - 1].size == 0 {
      assert m[|m| - 1] == last;
    }
  }

  lemma GrowOrder(merged: seq<FreeBlock>, c: FreeBlock)
    requires |merged| >= 1 && SortedByStart(merged) && NoTouch(merged)
    ensures SortedByStart(Grow(merged, c)) && NoTouch(Grow(merged, c))
    ensures StrictlySeparated(merged) ==> StrictlySeparated(Grow(merged, c))
  {
    var m := Grow(merged, c);
    forall a | 0 <= a < |m| ensures m[a].start == merged[a].start && (a < |m| - 1 ==> m[a] == merged[a]) {
      if a < |m| - 1 { assert m[a] == m[..|m| - 1][a]; }
    }
  }

  lemma AppendShape(merged: seq<FreeBlock>, c: FreeBlock, len: nat)
    requires |merged| >= 1 && SortedByStart(merged) && NoTouch(merged) && BlocksFit(merged, len)
    requires merged[|merged| - 1].start <= c.start && End(merged[|merged| - 1]) != c.start
    requires 0 <= c.size && (0 < c.size ==> 0 <= c.start && End(c) <= len)
    ensures var m := merged + [c];
      && SortedByStart(m) && NoTouch(m) && BlocksFit(m, len)
      && (Parked(merged, len) && Parked([c], len) ==> Parked(m, len))
      && (StrictlySeparated(merged) && End(merged[|merged| - 1]) < c.start ==> StrictlySeparated(m))
  {
    AppendMembers(merged, c, len);
    AppendSorted(merged, c);
    AppendNoTouch(merged, c);
    if StrictlySeparated(merged) && End(merged[|merged| - 1]) < c.start {
      assert merged[|merged| - 1] in merged;
      AppendSeparated(merged, c);
    }
  }

  lemma AppendMembers(merged: seq<FreeBlock>, c: FreeBlock, len: nat)
    requires BlocksFit(merged, len)
    requires 0 <= c.size && (0 < c.size ==> 0 <= c.start && End(c) <= len)
    ensures BlocksFit(merged + [c], len)
    ensures Parked(merged, len) && Parked([c], len) ==> Parked(merged + [c], len)
  {
    var m := merged + [c];
    forall x | x in m ensures x in merged || x == c {
      var j :| 0 <= j < |m| && m[j] == x;
      if j < |merged| { assert x == merged[j]; }
    }
  }

  lemma AppendSorted(merged: seq<FreeBlock>, c: FreeBlock)
    requires |merged| >= 1 && SortedByStart(merged) && merged[|merged| - 1].start <= c.start
    ensures SortedByStart(merged + [c])
  {
    var m := merged + [c];
    forall a, b | 0 <= a < b < |m| ensures m[a].start <= m[b].start {
      if b == |merged| && a < |merged| - 1 {
        assert merged[a].start <= merged[|merged| - 1].start;
      }
    }
  }

  lemma AppendNoTouch(merged: seq<FreeBlock>, c: FreeBlock)
    requires |merged| >= 1 && NoTouch(merged) && End(merged[|merged| - 1]) != c.start
    ensures NoTouch(merged + [c])
  {
    var m := merged + [c];
    forall a | 1 <= a < |m| ensures End(m[a - 1]) != m[a].start {
      if a < |merged| { assert m[a - 1] == merged[a - 1] && m[a] == merged[a]; }
    }
  }

  lemma AppendSeparated(merged: seq<FreeBlock>, c: FreeBlock)
    requires |merged| >= 1 && StrictlySeparated(merged) && End(merged[|merged| - 1]) < c.start
    requires 0 <= merged[|merged| - 1].size
    ensures StrictlySeparated(merged + [c])
  {
    var m := merged + [c];
    var last := merged[|merged| - 1];
    forall a, b | 0 <= a < b < |m| ensures End(m[a]) < m[b].start {
      assert m[a] == merged[a];
      if b < |merged| {
        assert m[b] == merged[b];
      } else {
        assert m[b] == c;
        if a < |merged| - 1 {
          assert End(merged[a]) < last.start;
        }
      }
    }
  }

  /** A run that starts where the last merged run ends is absorbed into it. */
  lemma MergeGrow(merged: seq<FreeBlock>, sorted: seq<FreeBlock>, i: nat, len: nat)
    requires 1 <= i < |sorted| && SortedByStart(sorted) && BlocksFit(sorted, len)
    requires MergeInv(merged, sorted, i, len) && End(merged[|merged| - 1]) == sorted[i].start
    ensures MergeInv(Grow(merged, sorted[i]), sorted, i + 1, len)
  {
    MergeGrowShape(merged, sorted, i, len);
    assert merged[|merged| - 1] in merged && sorted[i] in sorted;
    MergeGrowCover(merged, sorted, i);
  }

  lemma MergeGrowShape(merged: seq<FreeBlock>, sorted: seq<FreeBlock>, i: nat, len: nat)
    requires 1 <= i < |sorted| && SortedByStart(sorted) && BlocksFit(sorted, len)
    requires MergeShape(merged, sorted, i, len) && End(merged[|merged| - 1]) == sorted[i].start
    ensures MergeShape(Grow(merged, sorted[i]), sorted, i + 1, len)
  {
    var c := sorted[i];
    assert c in sorted;
    GrowFits(merged, c, len);
    GrowOrder(merged, c);
  }

  lemma MergeGrowCover(merged: seq<FreeBlock>, sorted: seq<FreeBlock>, i: nat)
    requires 1 <= i < |sorted| && |merged| >= 1
    requires MergeCover(merged, sorted, i) && End(merged[|merged| - 1]) == sorted[i].start
    requires merged[|merged| - 1].size >= 0 && sorted[i].size >= 0
    ensures MergeCover(Grow(merged, sorted[i]), sorted, i + 1)
  {
    var c := sorted[i];
    var m := Grow(merged, c);
    GrowTotal(merged, c);
    TotalSnoc(sorted, i);
    forall k ensures Covered(m, k) <==> Covered(sorted[..i + 1], k) {
      CoveredMergeLast(merged, c, k);
      CoveredSnoc(sorted, i, k);
    }
  }

  /** A run that does not touch the last merged run is appended. */
  lemma MergeAppend(merged: seq<FreeBlock>, sorted: seq<FreeBlock>, i: nat, len: nat)
    requires 1 <= i < |sorted| && SortedByStart(sorted) && BlocksFit(sorted, len)
    requires MergeInv(merged, sorted, i, len) && End(merged[|merged| - 1]) != sorted[i].start
    ensures MergeInv(merged + [sorted[i]], sorted, i + 1, len)
  {
    MergeAppendShape(merged, sorted, i, len);
    MergeAppendCover(merged, sorted, i);
  }

  lemma MergeAppendShape(merged: seq<FreeBlock>, sorted: seq<FreeBlock>, i: nat, len: nat)
    requires 1 <= i < |sorted| && SortedByStart(sorted) && BlocksFit(sorted, len)
    requires MergeShape(merged, sorted, i, len) && End(merged[|merged| - 1]) != sorted[i].start
    ensures MergeShape(merged + [sorted[i]], sorted, i + 1, len)
  {
    var c := sorted[i];
    assert c in sorted;
    if SortedDisjoint(sorted) {
      assert End(sorted[i - 1]) <= sorted[i].start;
    }
    if Parked(sorted, len) {
      assert Parked([c], len);
    }
    AppendShape(merged, c, len);
  }

  lemma MergeAppendCover(merged: seq<FreeBlock>, sorted: seq<FreeBlock>, i: nat)
    requires 1 <= i < |sorted| && MergeCover(merged, sorted, i)
    ensures MergeCover(merged + [sorted[i]], sorted, i + 1)
  {
    var c := sorted[i];
    TotalConcat(merged, [c]);
    assert [c][..0] == [];
    TotalSnoc(sorted, i);
    forall k ensures Covered(merged + [c], k) <==> Covered(sorted[..i + 1], k) {
      CoveredAppend(merged, c, k);
      CoveredSnoc(sorted, i, k);
    }
  }

  /** Sorting the runs by start, as sort.Slice does: an insertion sort by
      adjacent exchanges. */
  method SortByStart(runs: seq<FreeBlock>) returns (list: seq<FreeBlock>)
    ensures SortedByStart(list) && SameRuns(list, runs)
  {
    list := runs;
    var i := 1;
    while i < |list|
      invariant 1 <= i || |list| == 0
      invariant |list| == |runs|
      invariant forall a, b :: 0 <= a < b < i && b < |list| ==> list[a].start <= list[b].start
      invariant SameRuns(list, runs)
      decreases |list| - i
    {
      var j := i;
      while j > 0 && list[j - 1].start > list[j].start
        invariant 0 <= j <= i < |list| == |runs|
        invariant forall a, b :: 0 <= a < b <= i && b != j ==> list[a].start <= list[b].start
        invariant forall a, b :: 0 <= a < j && j < b <= i ==> list[a].start <= list[b].start
        invariant SameRuns(list, runs)
      {
        SwapKeepsSameRuns(list, runs, j);
        list := Swapped(list, j);
        j := j - 1;
      }
      i := i + 1;
    }
  }

  /** The sorted runs are the same runs, so they keep every property of the list. */
  lemma SortedKeepsShape(runs: seq<FreeBlock>, sorted: seq<FreeBlock>, len: nat)
    requires SortedByStart(sorted) && SameRuns(sorted, runs) && BlocksFit(runs, len)
    ensures BlocksFit(sorted, len)
    ensures Parked(runs, len) ==> Parked(sorted, len)
    ensures Apart(runs) ==> SortedDisjoint(sorted)
  {
    forall x | x in sorted ensures x in runs {
      assert x in multiset(sorted);
    }
    if Apart(runs) {
      SortedApartDisjoint(sorted, len);
    }
  }

  lemma MergeDone(runs: seq<FreeBlock>, sorted: seq<FreeBlock>, merged: seq<FreeBlock>, len: nat)
    requires |runs| >= 2 && |sorted| == |runs| && SameRuns(sorted, runs) && BlocksFit(runs, len)
    requires Parked(runs, len) ==> Parked(sorted, len)
    requires Apart(runs) ==> SortedDisjoint(sorted)
    requires MergeInv(merged, sorted, |sorted|, len)
    ensures Coalesced(runs, merged, len)
  {
    assert sorted[..|sorted|] == sorted;
  }

  /** Coalescing on the list of runs: sort by start, then fold every run into
      its predecessor when they touch. */
  method CoalesceRuns(runs: seq<FreeBlock>, len: nat) returns (after: seq<FreeBlock>)
    requires BlocksFit(runs, len)
    ensures Coalesced(runs, after, len) && BlocksFit(after, len)
  {
    if |runs| < 2 {
      return runs;
    }
    var sorted := SortByStart(runs);
    assert |sorted| == |runs| by {
      assert |multiset(sorted)| == |multiset(runs)|;
    }
    SortedKeepsShape(runs, sorted, len);
    var merged := MergeTouching(sorted, len);
    MergeDone(runs, sorted, merged, len);
    return merged;
  }

  /** The merge pass over runs sorted by start: each run either extends the
      last merged run, when it begins where that one ends, or follows it. */
  method MergeTouching(sorted: seq<FreeBlock>, len: nat) returns (merged: seq<FreeBlock>)
    requires |sorted| >= 1 && SortedByStart(sorted) && BlocksFit(sorted, len)
    ensures MergeInv(merged, sorted, |sorted|, len)
  {
    MergeFirst(sorted, len);
    merged := [sorted[0]];
    for i := 1 to |sorted|
      invariant MergeInv(merged, sorted, i, len)
    {
      var last := merged[|merged| - 1];
      var current := sorted[i];
      if last.start + last.size == current.start {
        MergeGrow(merged, sorted, i, len);
        merged := Grow(merged, current);
      } else {
        MergeAppend(merged, sorted, i, len);
        merged := merged + [current];
      }
    }
  }

  class MemoryManager {
    const memory: array<int>
    var blockCounter: int
    var freeList: seq<FreeBlock>

    /** The shape every operation keeps, whatever its arguments. */
    ghost predicate Valid()
      reads this
    {
      BlocksFit(freeList, memory.Length)
    }

    ghost predicate IsConsistent()
      reads this, memory
    {
      Consistent(memory[..], freeList, blockCounter)
    }

    /** NewMemoryManager: all cells free, ids start at 1, one free run over everything. */
    constructor (numCells: nat)
      ensures fresh(memory) && memory.Length == numCells
      ensures forall k :: 0 <= k < numCells ==> memory[k] == 0
      ensures blockCounter == 1 && freeList == [FreeBlock(0, numCells)]
      ensures Valid() && IsConsistent()
    {
      memory := new int[numCells](_ => 0);
      blockCounter := 1;
      freeList := [FreeBlock(0, numCells)];
      new;
      forall k | 0 <= k < numCells ensures memory[k] == 0 <==> Covered(freeList, k) {
        assert InBlock(freeList[0], k);
      }
    }

    /** Writes the current id into the cells [start, start + n). */
    method WriteId(start: int, n: int)
      requires 0 < n ==> 0 <= start && start + n <= memory.Length
      modifies memory
      ensures memory[..] == Fill(old(memory[..]), start, n, blockCounter)
    {
      var j := start;
      while j < start + n
        invariant if 0 < n then start <= j <= start + n else j == start
        invariant forall k :: 0 <= k < memory.Length ==>
          memory[k] == if start <= k < j then blockCounter else old(memory[k])
      {
        memory[j] := blockCounter;
        j := j + 1;
      }
      assert memory[..] == Fill(old(memory[..]), start, n, blockCounter);
    }

    /** The run at index i gives up its first n cells and leaves the list
        when nothing of it remains. */
    method TakeFromRun(i: nat, n: int)
      requires i < |freeList| && n <= freeList[i].size
      modifies this
      ensures freeList == Shrink(old(freeList), i, n)
      ensures blockCounter == old(blockCounter)
    {
      var block := freeList[i];
      block := FreeBlock(block.start + n, block.size - n);
      freeList := freeList[i := block];
      if block.size == 0 {
        freeList := freeList[..i] + freeList[i + 1..];
      }
    }

    /** First fit over the free list: the first run with room gives up its
        first numCells cells, which receive the next id. Returns the old start
        of that run, or -1 when no run is large enough. */
    method Allocate(numCells: int) returns (start: int)
      requires Valid()
      modifies this, memory
      ensures numCells >= 0 ==> Valid()
      ensures var i := FirstFit(old(freeList), numCells);
        if i == |old(freeList)| then
          && start == -1
          && memory[..] == old(memory[..])
          && freeList == old(freeList) && blockCounter == old(blockCounter)
        else
          && start == old(freeList)[i].start
          && memory[..] == Fill(old(memory[..]), start, numCells, old(blockCounter))
          && freeList == Shrink(old(freeList), i, numCells)
          && blockCounter == old(blockCounter) + 1
      ensures old(IsConsistent()) && numCells >= 0 ==> IsConsistent()
    {
      for i := 0 to |freeList|
        invariant freeList == old(freeList) && blockCounter == old(blockCounter)
        invariant memory[..] == old(memory[..])
        invariant forall j :: 0 <= j < i ==> freeList[j].size < numCells
      {
        var block := freeList[i];
        if block.size >= numCells {
          assert FirstFit(freeList, numCells) == i;
          assert block in freeList;
          start := block.start;
          WriteId(start, numCells);
          blockCounter := blockCounter + 1;
          TakeFromRun(i, numCells);
          if numCells >= 0 {
            ShrinkKeepsShape(old(freeList), i, numCells, memory.Length);
          }
          if old(IsConsistent()) && numCells >= 0 {
            AllocateKeepsConsistent(old(memory[..]), old(freeList), old(blockCounter), numCells);
          }
          return start;
        }
      }
      return -1;
    }

    /** The scan of free: zeroes the first contiguous run of cells holding
        blockID and reports it, or {-1, 0} when no cell holds it. */
    method ClearFirstRun(blockID: int) returns (start: int, size: int)
      modifies memory
      ensures FreeBlock(start, size) == FirstRun(old(memory[..]), blockID)
      ensures memory[..] == Zeroed(old(memory[..]), FreeBlock(start, size))
    {
      ghost var mem0 := memory[..];
      start, size := -1, 0;
      var i := 0;
      while i < memory.Length
        invariant 0 <= i <= memory.Length
        invariant start == -1 ==> size == 0 && memory[..] == mem0 && forall k :: 0 <= k < i ==> mem0[k] != blockID
        invariant start != -1 ==> start == IndexOf(mem0, blockID, 0) && start + size == i && 0 < size
        invariant start != -1 ==> forall k :: start <= k < i ==> mem0[k] == blockID
        invariant start != -1 ==> forall k :: 0 <= k < memory.Length ==>
          memory[k] == if start <= k < i then 0 else mem0[k]
      {
        if memory[i] == blockID {
          if start == -1 {
            start := i;
          }
          memory[i] := 0;
          size := size + 1;
        } else if start != -1 {
          break;
        }
        i := i + 1;
      }
      assert memory[..] == Zeroed(mem0, FreeBlock(start, size));
    }

    /** Zeroes the first contiguous run of cells holding blockID, records that
        run as a free block (or {-1, 0} when there is none) and coalesces. */
    method Free(blockID: int)
      requires Valid()
      modifies this, memory
      ensures Valid() && blockCounter == old(blockCounter)
      ensures memory[..] == Zeroed(old(memory[..]), FirstRun(old(memory[..]), blockID))
      ensures Coalesced(old(freeList) + [FirstRun(old(memory[..]), blockID)], freeList, memory.Length)
      ensures old(IsConsistent()) && blockID != 0 ==> IsConsistent()
    {
      ghost var mem0 := memory[..];
      var start, size := ClearFirstRun(blockID);
      ghost var run := FreeBlock(start, size);
      freeList := freeList + [FreeBlock(start, size)];
      AppendKeepsShape(old(freeList), run, memory.Length);
      CoalesceFreeBlocks();
      if old(IsConsistent()) && blockID != 0 {
        FreeKeepsConsistent(mem0, old(freeList), blockCounter, blockID, freeList);
      }
    }

    /** Leaves lists shorter than 2 alone; otherwise sorts the runs by start
        and merges every run into its predecessor when they touch. */
    method CoalesceFreeBlocks()
      requires Valid()
      modifies this
      ensures Valid() && blockCounter == old(blockCounter)
      ensures Coalesced(old(freeList), freeList, memory.Length)
    {
      freeList := CoalesceRuns(freeList, memory.Length);
    }
  }
}
