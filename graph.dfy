/** The dependency graph: a directed multigraph kept as adjacency lists, the
    dependency index between two vertex lists (how many edges run from the
    first to the second), and the weighted graph between named vertex lists. */
module Graphs {

  /** The adjacency list of v; a vertex without one has none. */
  function Neighbours(adj: map<int, seq<int>>, v: int): seq<int> {
    if v in adj then adj[v] else []
  }

  /** How many times u occurs in s. */
  function Occurrences(s: seq<int>, u: int): nat {
    if |s| == 0 then 0
    else Occurrences(s[..|s| - 1], u) + (if s[|s| - 1] == u then 1 else 0)
  }

  /** The edges from v to the vertices of setN, counted once per occurrence
      in setN and once per parallel edge. */
  function EdgesTo(adj: map<int, seq<int>>, v: int, setN: seq<int>): nat {
    if |setN| == 0 then 0
    else EdgesTo(adj, v, setN[..|setN| - 1]) + Occurrences(Neighbours(adj, v), setN[|setN| - 1])
  }

  /** The dependency index: edges from setM to setN, counted with multiplicity. */
  function Dependency(adj: map<int, seq<int>>, setM: seq<int>, setN: seq<int>): nat {
    if |setM| == 0 then 0
    else Dependency(adj, setM[..|setM| - 1], setN) + EdgesTo(adj, setM[|setM| - 1], setN)
  }

  class Graph {
    var adjList: map<int, seq<int>>

    /** newGraph: no edges. */
    constructor ()
      ensures adjList == map[]
    {
      adjList := map[];
    }

    /** addEdge: appends u to v's list, creating the list when v has none. */
    method AddEdge(v: int, u: int)
      modifies this
      ensures adjList == old(adjList)[v := Neighbours(old(adjList), v) + [u]]
      ensures Neighbours(adjList, v) == Neighbours(old(adjList), v) + [u]
      ensures forall w :: w != v ==> Neighbours(adjList, w) == Neighbours(old(adjList), w)
    {
      adjList := adjList[v := Neighbours(adjList, v) + [u]];
    }
  }

  // ---------------------------------------------------------------------------
  // Facts about the dependency index

  lemma {:induction false} OccurrencesPositive(s: seq<int>, u: int)
    ensures Occurrences(s, u) > 0 <==> u in s
  {
    if |s| > 0 {
      OccurrencesPositive(s[..|s| - 1], u);
      assert s == s[..|s| - 1] + [s[|s| - 1]];
    }
  }

  /** Some vertex of setN is a neighbour of v exactly when an edge is counted. */
  lemma {:induction false} EdgesToPositive(adj: map<int, seq<int>>, v: int, setN: seq<int>)
    ensures EdgesTo(adj, v, setN) > 0 <==> exists j :: 0 <= j < |setN| && setN[j] in Neighbours(adj, v)
  {
    if |setN| > 0 {
      var init := setN[..|setN| - 1];
      EdgesToPositive(adj, v, init);
      OccurrencesPositive(Neighbours(adj, v), setN[|setN| - 1]);
      if exists j :: 0 <= j < |setN| && setN[j] in Neighbours(adj, v) {
        var j :| 0 <= j < |setN| && setN[j] in Neighbours(adj, v);
        if j < |setN| - 1 {
          assert init[j] in Neighbours(adj, v);
        }
      }
      if exists j :: 0 <= j < |init| && init[j] in Neighbours(adj, v) {
        var j :| 0 <= j < |init| && init[j] in Neighbours(adj, v);
        assert setN[j] in Neighbours(adj, v);
      }
    }
  }

  /** The index is positive exactly when some edge runs from a vertex of
      setM to a vertex of setN; so it is 0 when either list is empty or no
      vertex of setM has an out-edge. */
  lemma {:induction false} DependencyPositive(adj: map<int, seq<int>>, setM: seq<int>, setN: seq<int>)
    ensures Dependency(adj, setM, setN) > 0 <==>
      exists i, j :: 0 <= i < |setM| && 0 <= j < |setN| && setN[j] in Neighbours(adj, setM[i])
  {
    if |setM| > 0 {
      var init := setM[..|setM| - 1];
      var last := setM[|setM| - 1];
      DependencyPositive(adj, init, setN);
      EdgesToPositive(adj, last, setN);
      if exists i, j :: 0 <= i < |setM| && 0 <= j < |setN| && setN[j] in Neighbours(adj, setM[i]) {
        var i, j :| 0 <= i < |setM| && 0 <= j < |setN| && setN[j] in Neighbours(adj, setM[i]);
        if i < |setM| - 1 {
          assert setN[j] in Neighbours(adj, init[i]);
        }
      }
      if exists i, j :: 0 <= i < |init| && 0 <= j < |setN| && setN[j] in Neighbours(adj, init[i]) {
        var i, j :| 0 <= i < |init| && 0 <= j < |setN| && setN[j] in Neighbours(adj, init[i]);
        assert setN[j] in Neighbours(adj, setM[i]);
      }
    }
  }

  /** `after` is `before` with one more edge v -> u, as AddEdge leaves it. */
  ghost predicate OneMoreEdge(before: map<int, seq<int>>, after: map<int, seq<int>>, v: int, u: int) {
    && Neighbours(after, v) == Neighbours(before, v) + [u]
    && forall w :: w != v ==> Neighbours(after, w) == Neighbours(before, w)
  }

  lemma {:induction false} EdgesToAfterAddEdge(before: map<int, seq<int>>, after: map<int, seq<int>>, v: int, u: int, w: int, setN: seq<int>)
    requires OneMoreEdge(before, after, v, u)
    ensures EdgesTo(after, w, setN) == EdgesTo(before, w, setN) + (if w == v then Occurrences(setN, u) else 0)
  {
    if |setN| > 0 {
      EdgesToAfterAddEdge(before, after, v, u, w, setN[..|setN| - 1]);
      var x := setN[|setN| - 1];
      var s := Neighbours(after, v);
      assert s[..|s| - 1] == Neighbours(before, v);
    }
  }

  lemma Distribute(a: int, e: int, c: int)
    ensures (a + e) * c == a * c + e * c
  {
  }

  /** One more edge v -> u raises the index by the number of times v occurs
      in setM times the number of times u occurs in setN. */
  lemma {:induction false} DependencyAfterAddEdge(before: map<int, seq<int>>, after: map<int, seq<int>>, v: int, u: int, setM: seq<int>, setN: seq<int>)
    requires OneMoreEdge(before, after, v, u)
    ensures Dependency(after, setM, setN) == Dependency(before, setM, setN) + Occurrences(setM, v) * Occurrences(setN, u)
  {
    if |setM| > 0 {
      var init := setM[..|setM| - 1];
      var w := setM[|setM| - 1];
      var c := Occurrences(setN, u);
      var a := Occurrences(init, v);
      var e := if w == v then 1 else 0;
      var ac := a * c;
      assert Dependency(after, setM, setN) == Dependency(before, setM, setN) + ac + e * c by {
        DependencyAfterAddEdge(before, after, v, u, init, setN);
        EdgesToAfterAddEdge(before, after, v, u, w, setN);
      }
      assert Occurrences(setM, v) * c == ac + e * c by {
        assert Occurrences(setM, v) == a + e;
        Distribute(a, e, c);
      }
    }
  }

  // ---------------------------------------------------------------------------
  // dependencyIndex

  /** dependencyIndex: for every v of setM and u of setN, counts the entries
      of v's list equal to u. */
  method DependencyIndex(g: Graph, setM: seq<int>, setN: seq<int>) returns (count: nat)
    ensures count == Dependency(g.adjList, setM, setN)
  {
    count := 0;
    for i := 0 to |setM|
      invariant count == Dependency(g.adjList, setM[..i], setN)
    {
      var v := setM[i];
      var neighbours := Neighbours(g.adjList, v);
      assert setM[..i + 1][..i] == setM[..i];
      for j := 0 to |setN|
        invariant count == Dependency(g.adjList, setM[..i], setN) + EdgesTo(g.adjList, v, setN[..j])
      {
        var u := setN[j];
        assert setN[..j + 1][..j] == setN[..j];
        for k := 0 to |neighbours|
          invariant count == Dependency(g.adjList, setM[..i], setN) + EdgesTo(g.adjList, v, setN[..j])
            + Occurrences(neighbours[..k], u)
        {
          assert neighbours[..k + 1][..k] == neighbours[..k];
          if neighbours[k] == u {
            count := count + 1;
          }
        }
        assert neighbours[..|neighbours|] == neighbours;
      }
      assert setN[..|setN|] == setN;
    }
    assert setM[..|setM|] == setM;
  }

  // ---------------------------------------------------------------------------
  // generateWeightedGraph

  /** A weighted edge m -> n: two different names whose lists have a
      positive dependency index. */
  ghost predicate WeightedEdge(adj: map<int, seq<int>>, sets: map<string, seq<int>>, m: string, n: string) {
    m in sets && n in sets && m != n && Dependency(adj, sets[m], sets[n]) > 0
  }

  /** The weights of the edges from m to the names in `names`. */
  ghost function Row(adj: map<int, seq<int>>, sets: map<string, seq<int>>, m: string, names: set<string>): map<string, int> {
    map n | n in names && WeightedEdge(adj, sets, m, n) :: Dependency(adj, sets[m], sets[n])
  }

  /** The weighted graph restricted to the sources in `done`: a source is
      present only with at least one edge. */
  ghost function WeightedOn(adj: map<int, seq<int>>, sets: map<string, seq<int>>, done: set<string>): map<string, map<string, int>> {
    map m | m in done && Row(adj, sets, m, sets.Keys) != map[] :: Row(adj, sets, m, sets.Keys)
  }

  lemma WeightedOnAdd(adj: map<int, seq<int>>, sets: map<string, seq<int>>, done: set<string>, m: string)
    requires m !in done
    ensures WeightedOn(adj, sets, done + {m}) ==
      if Row(adj, sets, m, sets.Keys) == map[] then WeightedOn(adj, sets, done)
      else WeightedOn(adj, sets, done)[m := Row(adj, sets, m, sets.Keys)]
  {
  }

  /** The inner loop of generateWeightedGraph: the weights of the edges
      from mName to every other name, visited in no particular order. */
  method WeightedRow(g: Graph, sets: map<string, seq<int>>, mName: string) returns (row: map<string, int>)
    ensures row == Row(g.adjList, sets, mName, sets.Keys)
  {
    row := map[];
    var inner := sets.Keys;
    while inner != {}
      invariant inner <= sets.Keys
      invariant row == Row(g.adjList, sets, mName, sets.Keys - inner)
      decreases |inner|
    {
      var nName :| nName in inner;
      ghost var rowAfter := Row(g.adjList, sets, mName, sets.Keys - (inner - {nName}));
      if mName != nName && mName in sets {
        var index := DependencyIndex(g, sets[mName], sets[nName]);
        if index > 0 {
          row := row[nName := index];
        }
      }
      assert rowAfter == row;
      inner := inner - {nName};
    }
    assert sets.Keys - inner == sets.Keys;
  }

  /** generateWeightedGraph: for every ordered pair of different names,
      records the dependency index of their lists when it is positive; a
      name gets an entry only with at least one edge. The names are visited
      in no particular order, as Go ranges over a map. */
  method GenerateWeightedGraph(g: Graph, sets: map<string, seq<int>>) returns (weighted: map<string, map<string, int>>)
    ensures forall m, n :: m in weighted && n in weighted[m] <==> WeightedEdge(g.adjList, sets, m, n)
    ensures forall m, n :: m in weighted && n in weighted[m] ==>
      WeightedEdge(g.adjList, sets, m, n) && weighted[m][n] == Dependency(g.adjList, sets[m], sets[n])
    ensures forall m :: m in weighted ==> weighted[m] != map[]
  {
    weighted := map[];
    var outer := sets.Keys;
    while outer != {}
      invariant outer <= sets.Keys
      invariant weighted == WeightedOn(g.adjList, sets, sets.Keys - outer)
      decreases |outer|
    {
      var mName :| mName in outer;
      ghost var done := sets.Keys - outer;
      var row := WeightedRow(g, sets, mName);
      if row != map[] {
        weighted := weighted[mName := row];
      }
      WeightedOnAdd(g.adjList, sets, done, mName);
      outer := outer - {mName};
      assert sets.Keys - outer == done + {mName};
    }
    assert sets.Keys - outer == sets.Keys;
    forall m, n | WeightedEdge(g.adjList, sets, m, n) ensures m in weighted && n in weighted[m] {
      assert n in Row(g.adjList, sets, m, sets.Keys);
    }
  }
}
