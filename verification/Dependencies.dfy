/** Finite dependency graphs and what follows from having no cycle. */
module Dependencies {
  import opened FiniteSets

  /** Each node with the nodes it depends on; edges to undeclared nodes do not count. */
  type Graph<!K> = map<K, set<K>>

  ghost predicate Edge<K>(g: Graph<K>, k: K, d: K) {
    k in g && d in g && d in g[k]
  }

  ghost predicate Walk<K>(g: Graph<K>, w: seq<K>) {
    forall i, j {:trigger w[i], w[j]} :: 0 <= i && j == i + 1 && j < |w| ==> Edge(g, w[i], w[j])
  }

  ghost predicate Acyclic<K(!new)>(g: Graph<K>) {
    forall w: seq<K> :: Walk(g, w) && |w| >= 2 ==> w[0] != w[|w| - 1]
  }

  ghost predicate LeadsInto<K>(g: Graph<K>, k: K, s: set<K>) {
    exists d :: d in s && Edge(g, k, d)
  }

  ghost predicate NoBottom<K(!new)>(g: Graph<K>, s: set<K>) {
    forall k {:trigger LeadsInto(g, k, s)} :: k in s ==> LeadsInto(g, k, s)
  }

  /** A walk of n steps inside a set whose members all depend on a member. */
  lemma {:induction false} LongWalk<K(!new)>(g: Graph<K>, s: set<K>, start: K, n: nat) returns (w: seq<K>)
    requires start in s && NoBottom(g, s)
    ensures Walk(g, w) && |w| == n + 1 && w[0] == start
    ensures forall i :: 0 <= i < |w| ==> w[i] in s
    decreases n
  {
    if n == 0 {
      w := [start];
    } else {
      assert LeadsInto(g, start, s);
      var d :| d in s && Edge(g, start, d);
      var rest := LongWalk(g, s, d, n - 1);
      w := [start] + rest;
    }
  }

  lemma {:induction false} Pigeonhole<K>(w: seq<K>, s: set<K>) returns (i: nat, j: nat)
    requires |w| > |s| && forall k :: 0 <= k < |w| ==> w[k] in s
    ensures i < j < |w| && w[i] == w[j]
    decreases |w|
  {
    var n := |w| - 1;
    if k :| 0 <= k < n && w[k] == w[n] {
      i, j := k, n;
    } else {
      assert w[n] in s;
      i, j := Pigeonhole(w[..n], s - {w[n]});
    }
  }

  lemma SubWalk<K>(g: Graph<K>, w: seq<K>, i: nat, j: nat)
    requires Walk(g, w) && i < j < |w|
    ensures Walk(g, w[i..j + 1])
  {
    var c := w[i..j + 1];
    forall a, b | 0 <= a && b == a + 1 && b < |c| ensures Edge(g, c[a], c[b]) {
      assert c[a] == w[i + a] && c[b] == w[i + b];
    }
  }

  /** In an acyclic graph every nonempty set has a member that depends on none of them. */
  lemma Bottom<K(!new)>(g: Graph<K>, s: set<K>) returns (k: K)
    requires Acyclic(g) && s != {}
    ensures k in s && forall d :: d in s ==> !Edge(g, k, d)
  {
    if NoBottom(g, s) {
      var start :| start in s;
      var w := LongWalk(g, s, start, |s|);
      var i, j := Pigeonhole(w, s);
      SubWalk(g, w, i, j);
      assert false;
    }
    k :| k in s && !LeadsInto(g, k, s);
  }

  /** The nodes all of whose dependency chains are shorter than n. */
  ghost function Layer<K>(g: Graph<K>, n: nat): (r: set<K>)
    ensures r <= g.Keys
  {
    if n == 0 then {} else set k | k in g && forall d :: d in g[k] && d in g ==> d in Layer(g, n - 1)
  }

  lemma {:induction false} LayerGrows<K>(g: Graph<K>, n: nat)
    ensures Layer(g, n) <= Layer(g, n + 1)
  {
    if n > 0 {
      LayerGrows(g, n - 1);
    }
  }

  /** An acyclic graph is exhausted by as many layers as it has nodes. */
  lemma {:induction false} LayersExhaust<K(!new)>(g: Graph<K>, n: nat)
    requires Acyclic(g) && n >= |g.Keys|
    ensures Layer(g, n) == g.Keys
  {
    LayerCount(g, n);
    SubsetSize(Layer(g, n), g.Keys);
  }

  /** Over an acyclic graph every layer short of all nodes grows. */
  lemma LayerGains<K(!new)>(g: Graph<K>, n: nat)
    requires Acyclic(g) && Layer(g, n) != g.Keys
    ensures |Layer(g, n + 1)| > |Layer(g, n)|
  {
    LayerGrows(g, n);
    var before, after := Layer(g, n), Layer(g, n + 1);
    var missing :| missing in g.Keys && missing !in before;
    assert missing in g.Keys - before;
    var k := Bottom(g, g.Keys - before);
    forall d | d in g[k] && d in g ensures d in before {
      assert Edge(g, k, d);
    }
    assert k in after;
    SubsetSize(before + {k}, after);
  }

  lemma {:induction false} LayerCount<K(!new)>(g: Graph<K>, n: nat)
    requires Acyclic(g)
    ensures Layer(g, n) == g.Keys || |Layer(g, n)| >= n
  {
    if n > 0 {
      LayerCount(g, n - 1);
      if Layer(g, n - 1) == g.Keys {
        LayerGrows(g, n - 1);
      } else {
        LayerGains(g, n - 1);
      }
    }
  }

  // ---- Iteration -------------------------------------------------------------------------------

  function Iterate<T>(f: T -> T, n: nat, x: T): T {
    if n == 0 then x else f(Iterate(f, n - 1, x))
  }

  lemma {:induction false} IterateAdd<T>(f: T -> T, a: nat, b: nat, x: T)
    ensures Iterate(f, b, Iterate(f, a, x)) == Iterate(f, a + b, x)
  {
    if b > 0 {
      IterateAdd(f, a, b - 1, x);
    }
  }

  lemma {:induction false} FixpointStays<T>(f: T -> T, n: nat, x: T)
    requires f(x) == x
    ensures Iterate(f, n, x) == x
  {
    if n > 0 {
      FixpointStays(f, n - 1, x);
    }
  }

  lemma {:induction false} IterateOnce<T>(f: T -> T, n: nat, x: T)
    ensures Iterate(f, n, f(x)) == f(Iterate(f, n, x))
  {
    if n > 0 {
      IterateOnce(f, n - 1, x);
    }
  }

  ghost predicate Keeps<T>(f: T -> T, r: (nat, T, T) -> bool, m: nat, a: T, b: T) {
    r(m, a, b) ==> r(m + 1, f(a), f(b))
  }

  /** A relation that every pass keeps holds between two runs. */
  lemma {:induction false} IterateRelated<T(!new)>(f: T -> T, r: (nat, T, T) -> bool, n: nat, x: T, y: T)
    requires r(0, x, y)
    requires forall m, a, b {:trigger Keeps(f, r, m, a, b)} :: Keeps(f, r, m, a, b)
    ensures r(n, Iterate(f, n, x), Iterate(f, n, y))
  {
    if n > 0 {
      IterateRelated(f, r, n - 1, x, y);
      assert Keeps(f, r, n - 1, Iterate(f, n - 1, x), Iterate(f, n - 1, y));
    }
  }

  /** At most `bound` passes, fewer when one changes nothing. */
  method IterateUntilStable<T(==)>(f: T -> T, bound: nat, start: T) returns (state: T)
    ensures state == Iterate(f, bound, start)
  {
    state := start;
    var pass := 0;
    while pass < bound
      invariant 0 <= pass <= bound
      invariant state == Iterate(f, pass, start)
    {
      var next := f(state);
      if next == state {
        FixpointStays(f, bound - pass, state);
        IterateAdd(f, pass, bound - pass, start);
        break;
      }
      state := next;
      pass := pass + 1;
    }
  }
}
