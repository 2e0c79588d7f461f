/** Why plugin settings need an acyclic condition graph: over any cyclic one there is a form for
    which the bounded passes end in values the resulting state hides
    (backend/app/plugins/manager.py, `writable_settings`). */
module PluginCycles {
  import opened Dependencies
  import opened PluginSettings

  ghost function Listed<K(!new)>(s: set<K>): (r: seq<K>)
    ensures forall x :: x in r <==> x in s
  {
    if s == {} then []
    else
      var x :| x in s;
      [x] + Listed(s - {x})
  }

  lemma CycleHasNoBottom<K(!new)>(g: Graph<K>, w: seq<K>, s: set<K>)
    requires Walk(g, w) && |w| >= 2 && w[0] == w[|w| - 1]
    requires s == set k | k in w
    ensures s <= g.Keys && NoBottom(g, s)
  {
    forall k | k in s ensures k in g && LeadsInto(g, k, s) {
      var i :| 0 <= i < |w| && w[i] == k;
      var next := if i + 1 < |w| then i + 1 else 1;
      assert w[next - 1] == k && w[next] in s;
      assert Edge(g, w[next - 1], w[next]);
    }
  }

  /** The nodes of a cycle all depend on one of them. */
  lemma CycleNodes<K(!new)>(g: Graph<K>) returns (s: set<K>)
    requires !Acyclic(g)
    ensures s != {} && s <= g.Keys && NoBottom(g, s)
  {
    var w :| Walk(g, w) && |w| >= 2 && w[0] == w[|w| - 1];
    s := set k | k in w;
    assert w[0] in s;
    CycleHasNoBottom(g, w, s);
  }

  /** Every setting is shown while all it depends on has the value `x`. */
  ghost function Wanted<K(!new), V(!new)>(g: Graph<K>, k: K, x: V, blank: V): (r: seq<(K, V)>)
    requires k in g
    ensures forall d :: (exists c :: c in r && c.0 == d) <==> d in g[k]
    ensures forall c :: c in r ==> c.1 == if c.0 in g then x else blank
    ensures forall d :: d in g[k] && d in g ==> (d, x) in r
  {
    var deps := Listed(g[k]);
    var r := seq(|deps|, (i: nat) requires i < |deps| => (deps[i], if deps[i] in g then x else blank));
    assert forall d :: d in g[k] ==> exists i :: 0 <= i < |deps| && deps[i] == d && r[i].0 == d;
    r
  }

  /** Everything is stored as `x`, and the settings of `s` are posted as `y`. */
  ghost function Swinging<K(!new), V(!new)>(g: Graph<K>, s: set<K>, x: V, y: V, blank: V): Form<K, V> {
    Form(map k | k in g :: Wanted(g, k, x, blank), map k | k in g :: x, map k | k in s && k in g :: y, blank)
  }

  lemma SwingingGraph<K(!new), V(!new)>(g: Graph<K>, s: set<K>, x: V, y: V, blank: V)
    requires s <= g.Keys
    ensures var f := Swinging(g, s, x, y, blank);
            f.Valid() && f.Graph() == g && f.posted.Keys == s
  {
    var f := Swinging(g, s, x, y, blank);
    forall k | k in g ensures f.Controls(k) == g[k] {
      assert f.conditions[k] == Wanted(g, k, x, blank);
    }
  }

  lemma ShownAtFirst<K(!new), V(!new)>(g: Graph<K>, s: set<K>, x: V, y: V, blank: V, k: K)
    requires k in g
    ensures var f := Swinging(g, s, x, y, blank); f.Visible(k, f.stored)
  {
    var f := Swinging(g, s, x, y, blank);
    assert f.conditions[k] == Wanted(g, k, x, blank);
  }

  /** A setting of `s` is hidden once all of `s` is `y`: it depends on one of them being `x`. */
  lemma HiddenOnceWritten<K(!new), V(!new)>(g: Graph<K>, s: set<K>, x: V, y: V, blank: V, k: K)
    requires s <= g.Keys && x != y && k in s && LeadsInto(g, k, s)
    ensures var f := Swinging(g, s, x, y, blank); !f.Visible(k, f.stored + f.posted)
  {
    var f := Swinging(g, s, x, y, blank);
    var d :| d in s && Edge(g, k, d);
    assert (d, x) in Wanted(g, k, x, blank) && f.Get(f.stored + f.posted, d) == y;
  }

  lemma AllAllowed<K(!new), V(!new)>(f: Form<K, V>, state: map<K, V>)
    requires forall k :: k in f.posted ==> f.Visible(k, state)
    ensures f.Allowed(state) == f.posted
  {
  }

  lemma NoneAllowed<K(!new), V(!new)>(f: Form<K, V>, state: map<K, V>)
    requires forall k :: k in f.posted ==> !f.Visible(k, state)
    ensures f.Allowed(state) == map[]
  {
  }

  lemma Swings<K(!new), V(!new)>(g: Graph<K>, s: set<K>, x: V, y: V, blank: V)
    requires s <= g.Keys && NoBottom(g, s) && x != y
    ensures var f := Swinging(g, s, x, y, blank);
            f.Allowed(f.stored) == f.posted && f.Allowed(f.stored + f.posted) == map[]
  {
    var f := Swinging(g, s, x, y, blank);
    forall k | k in f.posted ensures f.Visible(k, f.stored) && !f.Visible(k, f.stored + f.posted) {
      ShownAtFirst(g, s, x, y, blank, k);
      assert LeadsInto(g, k, s);
      HiddenOnceWritten(g, s, x, y, blank, k);
    }
    AllAllowed(f, f.stored);
    NoneAllowed(f, f.stored + f.posted);
  }

  lemma {:induction false} Alternates<T>(f: T -> T, n: nat, a: T, b: T)
    requires f(a) == b && f(b) == a
    ensures Iterate(f, n, a) == if n % 2 == 0 then a else b
  {
    if n > 0 {
      Alternates(f, n - 1, a, b);
    }
  }

  lemma NothingAdded<K, V>(m: map<K, V>)
    ensures m + map[] == m
  {
  }

  /** Where everything posted is shown at first and hidden once written, no number of passes ends in
      a consistent answer. */
  lemma {:induction false} SwingingIsInconsistent<K(!new), V(!new)>(f: Form<K, V>, n: nat)
    requires f.Allowed(f.stored) == f.posted && f.Allowed(f.stored + f.posted) == map[] && f.posted.Keys != {}
    ensures !f.Consistent(f.Allowed(Iterate(f.Step(), n, f.stored)))
  {
    NothingAdded(f.stored);
    Alternates(f.Step(), n, f.stored, f.stored + f.posted);
  }

  /** Over a cyclic graph some form is written inconsistently, after however many passes. */
  lemma CycleEscapes<K(!new), V(!new)>(g: Graph<K>, n: nat, x: V, y: V, blank: V) returns (f: Form<K, V>)
    requires !Acyclic(g) && x != y
    ensures f.Valid() && f.Graph() == g && !f.Consistent(f.Allowed(Iterate(f.Step(), n, f.stored)))
  {
    var s := CycleNodes(g);
    f := Swinging(g, s, x, y, blank);
    SwingingGraph(g, s, x, y, blank);
    Swings(g, s, x, y, blank);
    SwingingIsInconsistent(f, n);
  }

  ghost predicate WritesConsistently(f: Form<string, string>, n: nat) {
    f.Consistent(f.Allowed(Iterate(f.Step(), n, f.stored)))
  }

  /** A condition graph is safe - whatever is stored and posted, exactly the posted values whose
      conditions hold in the outcome are written - if and only if it is acyclic. */
  lemma SafeIffAcyclic(g: Graph<string>, n: nat)
    requires n >= |g.Keys|
    ensures (forall f: Form<string, string> :: f.Valid() && f.Graph() == g ==> WritesConsistently(f, n)) <==> Acyclic(g)
  {
    if Acyclic(g) {
      forall f: Form<string, string> | f.Valid() && f.Graph() == g ensures WritesConsistently(f, n) {
        assert f.Graph().Keys == f.conditions.Keys;
        SettledIsConsistent(f, n);
      }
    } else {
      var f := CycleEscapes(g, n, "x", "y", "");
      assert !WritesConsistently(f, n);
    }
  }
}
