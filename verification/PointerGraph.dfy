/** Reachability in a graph of objects, apart from how memory represents it. */
module PointerGraph {

  /** For each object: the objects that marking it leads to (succ), and those that any of its words points
      to, where it has no length descriptor, else the same (words). */
  datatype Graph = Graph(succ: map<nat, set<nat>>, words: map<nat, set<nat>>) {
    ghost predicate WellFormed() {
      && words.Keys == succ.Keys
      && forall o :: o in succ ==> succ[o] <= words[o] <= succ.Keys
    }
  }

  ghost predicate Edge(g: Graph, a: nat, b: nat) {
    a in g.succ && b in g.succ[a]
  }

  ghost predicate Path(g: Graph, path: seq<nat>)
    decreases |path|
  {
    |path| > 1 ==>
      var n := |path|;
      Path(g, path[..n-1]) && Edge(g, path[n-2], path[n-1])
  }

  /** o is in S or at the end of a chain of pointers that starts in S. */
  ghost predicate Reaches(g: Graph, S: set<nat>, o: nat) {
    exists path :: |path| > 0 && path[0] in S && path[|path|-1] == o && Path(g, path)
  }

  ghost predicate Closed(g: Graph, S: set<nat>) {
    forall a :: a in S && a in g.succ ==> g.succ[a] <= S
  }

  /** All objects reachable from S. */
  ghost function Reach(g: Graph, S: set<nat>): set<nat> {
    set q | q in g.succ && Reaches(g, S, q)
  }

  lemma ReachHolds(g: Graph, S: set<nat>)
    requires g.WellFormed() && S <= g.succ.Keys
    ensures S <= Reach(g, S) <= g.succ.Keys && Closed(g, Reach(g, S))
  {
    forall o | o in S
      ensures o in Reach(g, S)
    {
      var path := [o];
      assert |path| > 0 && path[0] in S && path[|path|-1] == o && Path(g, path);
    }
    forall a | a in Reach(g, S)
      ensures g.succ[a] <= Reach(g, S)
    {
      forall b | b in g.succ[a]
        ensures b in Reach(g, S)
      {
        Extend(g, S, a, b);
      }
    }
  }

  lemma Extend(g: Graph, S: set<nat>, a: nat, b: nat)
    requires Reaches(g, S, a) && Edge(g, a, b)
    ensures Reaches(g, S, b)
  {
    var path :| |path| > 0 && path[0] in S && path[|path|-1] == a && Path(g, path);
    var longer := path + [b];
    assert longer[..|longer|-1] == path;
    assert longer[0] == path[0] && longer[|longer|-1] == b;
  }

  lemma {:induction false} ClosedHoldsPath(g: Graph, S: set<nat>, path: seq<nat>)
    requires Closed(g, S) && Path(g, path) && |path| > 0 && path[0] in S
    ensures path[|path|-1] in S
    decreases |path|
  {
    if |path| > 1 {
      ClosedHoldsPath(g, S, path[..|path|-1]);
    }
  }

  /** Reach(g, S) is the least closed set that holds S. */
  lemma ReachIsLeast(g: Graph, S: set<nat>, T: set<nat>)
    requires S <= T && Closed(g, T)
    ensures Reach(g, S) <= T
  {
    forall q | q in Reach(g, S)
      ensures q in T
    {
      var path :| |path| > 0 && path[0] in S && path[|path|-1] == q && Path(g, path);
      ClosedHoldsPath(g, T, path);
    }
  }

  /** Reaching in two stages. */
  lemma ReachAgain(g: Graph, S: set<nat>, T: set<nat>)
    requires g.WellFormed() && S <= g.succ.Keys && T <= g.succ.Keys
    ensures Reach(g, Reach(g, S) + T) == Reach(g, S + T)
  {
    ReachHolds(g, S);
    ReachHolds(g, S + T);
    ReachHolds(g, Reach(g, S) + T);
    ReachIsLeast(g, S, Reach(g, S + T));
    ReachIsLeast(g, Reach(g, S) + T, Reach(g, S + T));
    ReachIsLeast(g, S + T, Reach(g, Reach(g, S) + T));
  }

  lemma ReachOfClosed(g: Graph, S: set<nat>)
    requires g.WellFormed() && S <= g.succ.Keys && Closed(g, S)
    ensures Reach(g, S) == S
  {
    ReachHolds(g, S);
    ReachIsLeast(g, S, S);
  }
}
