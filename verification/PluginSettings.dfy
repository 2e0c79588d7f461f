/** Which posted plugin settings may be written (backend/app/plugins/manager.py,
    `writable_settings`): a bounded iteration of a non-monotone operator. Keys are the full
    `plugin.<id>.<key>` keys. */
module PluginSettings {
  import opened Wrappers
  import opened Dependencies

  /** The other setting and the value it must have. */
  type Condition = (string, string)

  datatype Setting = Setting(key: string, fallback: string, visibleIf: Option<Condition>, visibleIfAll: seq<Condition>)

  type Values = map<string, string>
  type Conditions = map<string, seq<Condition>>

  // ---- Declared conditions ---------------------------------------------------------------------

  function Declared(s: Setting): seq<Condition> {
    (if s.visibleIf.Some? then [s.visibleIf.value] else []) + s.visibleIfAll
  }

  /** The first occurrences of a list, in order. */
  function Firsts<T(==, !new)>(xs: seq<T>): (r: seq<T>)
    ensures forall x :: x in r <==> x in xs
    ensures forall i, j :: 0 <= i < j < |r| ==> r[i] != r[j]
  {
    if xs == [] then []
    else
      var n := |xs| - 1;
      assert xs == xs[..n] + [xs[n]];
      if xs[n] in Firsts(xs[..n]) then Firsts(xs[..n]) else Firsts(xs[..n]) + [xs[n]]
  }

  /** They stand in the order in which they first occur. */
  lemma {:induction false} FirstsInOrder<T(!new)>(xs: seq<T>, i: nat, j: nat) returns (m: nat, n: nat)
    requires i < j < |Firsts(xs)|
    ensures m < n < |xs| && Firsts(xs)[i] == xs[m] && Firsts(xs)[j] == xs[n]
    ensures forall k :: 0 <= k < m ==> xs[k] != xs[m]
    ensures forall k :: 0 <= k < n ==> xs[k] != xs[n]
  {
    m := FirstAt(xs, i);
    n := FirstAt(xs, j);
    FirstsGrow(xs, i, j, m, n);
  }

  lemma {:induction false} FirstAt<T(!new)>(xs: seq<T>, i: nat) returns (m: nat)
    requires i < |Firsts(xs)|
    ensures m < |xs| && Firsts(xs)[i] == xs[m] && forall k :: 0 <= k < m ==> xs[k] != xs[m]
  {
    var n := |xs| - 1;
    if i < |Firsts(xs[..n])| {
      m := FirstAt(xs[..n], i);
    } else {
      m := n;
      assert forall k :: 0 <= k < n ==> xs[k] == xs[..n][k];
    }
  }

  lemma {:induction false} FirstsGrow<T(!new)>(xs: seq<T>, i: nat, j: nat, m: nat, n: nat)
    requires i < j < |Firsts(xs)| && m < |xs| && n < |xs| && Firsts(xs)[i] == xs[m] && Firsts(xs)[j] == xs[n]
    requires forall k :: 0 <= k < m ==> xs[k] != xs[m]
    requires forall k :: 0 <= k < n ==> xs[k] != xs[n]
    ensures m < n
  {
    var last := |xs| - 1;
    var before := Firsts(xs[..last]);
    if j < |before| {
      var p := FirstAt(xs[..last], i);
      var q := FirstAt(xs[..last], j);
      FirstsGrow(xs[..last], i, j, p, q);
      assert xs[p] == xs[m] && xs[q] == xs[n];
      assert p == m && q == n;
    } else {
      var p := FirstAt(xs[..last], i);
      assert xs[p] == xs[m] && p == m;
    }
  }

  /** `PluginSetting.conditions`: the declared conditions without duplicates, in order. */
  method Unique<T(==, !new)>(declared: seq<T>) returns (unique: seq<T>)
    ensures unique == Firsts(declared)
  {
    unique := [];
    for i := 0 to |declared|
      invariant unique == Firsts(declared[..i])
    {
      assert declared[..i + 1][..i] == declared[..i];
      if declared[i] !in unique {
        unique := unique + [declared[i]];
      }
    }
    assert declared[..|declared|] == declared;
  }

  predicate Declares(settings: seq<Setting>, key: string) {
    exists i :: 0 <= i < |settings| && settings[i].key == key
  }

  lemma DeclaresLast(settings: seq<Setting>, key: string)
    requires settings != []
    ensures var n := |settings| - 1;
            Declares(settings, key) <==> Declares(settings[..n], key) || settings[n].key == key
  {
  }

  /** The key of the plugin's enabled toggle, when it declares one. */
  function Toggle(settings: seq<Setting>, enabledKey: string): Option<string> {
    if Declares(settings, enabledKey) then Some(enabledKey) else None
  }

  /** A setting without own conditions follows the plugin's enabled toggle, when it has one. */
  function Effective(s: Setting, toggle: Option<string>): seq<Condition> {
    if Declared(s) == [] && toggle.Some? && s.key != toggle.value then [(toggle.value, "true")]
    else Firsts(Declared(s))
  }

  /** The dictionary a list of settings makes; a later setting of the same key wins. */
  function ByKey<V>(settings: seq<Setting>, value: Setting -> V): (r: map<string, V>)
    ensures |r| <= |settings|
    ensures forall k :: k in r <==> Declares(settings, k)
  {
    if settings == [] then map[]
    else
      var n := |settings| - 1;
      assert forall k :: Declares(settings, k) <==> Declares(settings[..n], k) || settings[n].key == k by {
        forall k { DeclaresLast(settings, k); }
      }
      ByKey(settings[..n], value)[settings[n].key := value(settings[n])]
  }

  function ConditionsOf(settings: seq<Setting>, toggle: Option<string>): Conditions {
    ByKey(settings, (s: Setting) => Effective(s, toggle))
  }

  function StoredOf(settings: seq<Setting>, saved: Values): Values {
    ByKey(settings, (s: Setting) => if s.key in saved then saved[s.key] else s.fallback)
  }

  // ---- One pass --------------------------------------------------------------------------------

  /** A plugin form as posted: its conditions, what is stored, the posted values of its keys, and
      the value a condition on an undeclared setting reads. */
  datatype Form<!K(==, !new), V(==, !new)> = Form(conditions: map<K, seq<(K, V)>>, stored: map<K, V>, posted: map<K, V>, blank: V) {
    function Get(state: map<K, V>, key: K): V {
      if key in state then state[key] else blank
    }

    predicate Met(conditions: seq<(K, V)>, state: map<K, V>) {
      forall c :: c in conditions ==> Get(state, c.0) == c.1
    }

    ghost predicate Valid() {
      conditions.Keys == stored.Keys && posted.Keys <= stored.Keys
    }

    predicate Visible(k: K, state: map<K, V>) {
      k in conditions && Met(conditions[k], state)
    }

    /** The posted values whose conditions hold in `state`. */
    function Allowed(state: map<K, V>): map<K, V> {
      map k | k in posted && Visible(k, state) :: posted[k]
    }

    function Pass(state: map<K, V>): map<K, V> {
      stored + Allowed(state)
    }

    function Step(): map<K, V> -> map<K, V> {
      state => Pass(state)
    }

    /** What the form promises: exactly the posted values whose conditions hold once written. */
    ghost predicate Consistent(written: map<K, V>) {
      written == Allowed(stored + written)
    }

    ghost function Controls(k: K): set<K>
      requires k in conditions
    {
      set c | c in conditions[k] :: c.0
    }

    /** Which declared settings each setting's visibility depends on. */
    ghost function Graph(): Graph<K> {
      map k | k in conditions :: Controls(k)
    }

    lemma PassKeys(x: map<K, V>)
      requires Valid()
      ensures Pass(x).Keys == stored.Keys
    {
    }

    /** States with the same value on every setting of `on`. */
    ghost predicate Agree(on: set<K>, x: map<K, V>, y: map<K, V>) {
      x.Keys == y.Keys == stored.Keys && forall k :: k in on && k in x ==> x[k] == y[k]
    }

    /** Visibility only depends on the settings an edge leads to. */
    lemma VisibleAgrees(k: K, x: map<K, V>, y: map<K, V>)
      requires Valid() && k in conditions && Agree(Controls(k), x, y)
      ensures Visible(k, x) == Visible(k, y)
    {
      forall c | c in conditions[k] ensures Get(x, c.0) == Get(y, c.0) {
        assert c.0 in Controls(k);
      }
    }

    /** One pass carries agreement from a layer to the next. */
    lemma PassAgrees(n: nat, x: map<K, V>, y: map<K, V>)
      requires Valid() && Agree(Layer(Graph(), n), x, y)
      ensures Agree(Layer(Graph(), n + 1), Pass(x), Pass(y))
    {
      PassKeys(x);
      PassKeys(y);
      forall k | k in Layer(Graph(), n + 1) ensures Visible(k, x) == Visible(k, y) {
        forall d | d in Controls(k) && d in x ensures x[d] == y[d] {
          assert d in Graph()[k] && d in Graph();
        }
        VisibleAgrees(k, x, y);
      }
    }

    /** n passes forget where they started, on the first n layers. */
    lemma {:induction false} PassesForget(n: nat, x: map<K, V>, y: map<K, V>)
      requires Valid() && x.Keys == y.Keys == stored.Keys
      ensures Agree(Layer(Graph(), n), Iterate(Step(), n, x), Iterate(Step(), n, y))
    {
      var g, f := Graph(), Step();
      var r: (nat, map<K, V>, map<K, V>) -> bool := (m: nat, a, b) => Agree(Layer(g, m), a, b);
      forall m: nat, a: map<K, V>, b: map<K, V> ensures Keeps(f, r, m, a, b) {
        if r(m, a, b) {
          PassAgrees(m, a, b);
        }
      }
      IterateRelated(f, r, n, x, y);
    }

    lemma AgreeEverywhere(on: set<K>, x: map<K, V>, y: map<K, V>)
      requires Agree(on, x, y) && on == stored.Keys
      ensures x == y
    {
    }

    lemma {:induction false} AllForgotten(n: nat, x: map<K, V>, y: map<K, V>)
      requires Valid() && Acyclic(Graph()) && n >= |conditions.Keys|
      requires x.Keys == y.Keys == stored.Keys
      ensures Iterate(Step(), n, x) == Iterate(Step(), n, y)
    {
      assert Graph().Keys == conditions.Keys;
      PassesForget(n, x, y);
      LayersExhaust(Graph(), n);
      AgreeEverywhere(Layer(Graph(), n), Iterate(Step(), n, x), Iterate(Step(), n, y));
    }

    /** Over an acyclic graph, as many passes as there are settings reach a fixpoint. */
    lemma {:induction false} ReachesFixpoint(n: nat)
      requires Valid() && Acyclic(Graph()) && n >= |conditions.Keys|
      ensures Pass(Iterate(Step(), n, stored)) == Iterate(Step(), n, stored)
    {
      PassKeys(stored);
      AllForgotten(n, stored, Pass(stored));
      IterateOnce(Step(), n, stored);
    }

    /** Over an acyclic graph there is one consistent set of values. */
    lemma {:induction false} ConsistentIsUnique(a: map<K, V>, b: map<K, V>)
      requires Valid() && Acyclic(Graph()) && Consistent(a) && Consistent(b)
      ensures a == b
    {
      var n, x, y := |conditions.Keys|, stored + a, stored + b;
      PassKeys(x);
      PassKeys(y);
      FixpointStays(Step(), n, x);
      FixpointStays(Step(), n, y);
      AllForgotten(n, x, y);
    }
  }

  // ---- The operation ---------------------------------------------------------------------------

  function FormOf(settings: seq<Setting>, enabledKey: string, saved: Values, submitted: Values): (f: Form<string, string>)
    ensures f.Valid() && |f.conditions.Keys| <= |settings|
    ensures forall k :: k in f.posted <==> k in submitted && k in f.stored
    ensures forall k :: k in f.posted ==> f.posted[k] == submitted[k]
  {
    var stored := StoredOf(settings, saved);
    Form(ConditionsOf(settings, Toggle(settings, enabledKey)), stored, map k | k in submitted && k in stored :: submitted[k], "")
  }

  ghost predicate DistinctKeys(settings: seq<Setting>) {
    forall i, j :: 0 <= i < j < |settings| ==> settings[i].key != settings[j].key
  }

  /** No later setting has the same key. */
  ghost predicate IsLast(settings: seq<Setting>, i: nat) {
    i < |settings| && forall j :: i < j < |settings| ==> settings[j].key != settings[i].key
  }

  lemma {:induction false} ByKeyAt<V>(settings: seq<Setting>, value: Setting -> V, i: nat)
    requires IsLast(settings, i)
    ensures var all, key := ByKey(settings, value), settings[i].key;
            key in all && all[key] == value(settings[i])
    decreases |settings|
  {
    var n := |settings| - 1;
    ByKeySnoc(settings, value);
    if i < n {
      IsLastBefore(settings, i);
      ByKeyAt(settings[..n], value, i);
      Overwritten(ByKey(settings[..n], value), settings[n].key, value(settings[n]), settings[i].key, value(settings[i]));
    } else {
      assert settings[n] == settings[i];
    }
  }

  lemma Overwritten<V>(all: map<string, V>, key: string, v: V, other: string, w: V)
    requires other in all && all[other] == w && other != key
    ensures other in all[key := v] && all[key := v][other] == w
  {
  }

  lemma IsLastBefore(settings: seq<Setting>, i: nat)
    requires IsLast(settings, i) && i < |settings| - 1
    ensures IsLast(settings[..|settings| - 1], i) && settings[|settings| - 1].key != settings[i].key
    ensures settings[..|settings| - 1][i] == settings[i]
  {
  }

  lemma {:induction false} ByKeySnoc<V>(settings: seq<Setting>, value: Setting -> V)
    requires settings != []
    ensures var n := |settings| - 1;
            ByKey(settings, value) == ByKey(settings[..n], value)[settings[n].key := value(settings[n])]
  {
  }

  /** A setting's stored value is the saved one, or else its default. */
  lemma StoredAt(settings: seq<Setting>, saved: Values, i: nat)
    requires IsLast(settings, i)
    ensures var all, key := StoredOf(settings, saved), settings[i].key;
            key in all && all[key] == if key in saved then saved[key] else settings[i].fallback
  {
    ByKeyAt(settings, (s: Setting) => if s.key in saved then saved[s.key] else s.fallback, i);
  }

  /** The value of a key in a state; a key that is not there reads as empty. */
  function Reads(state: Values, key: string): string {
    if key in state then state[key] else ""
  }

  /** When a setting is to be seen: its visible_if and all its visible_if_all conditions hold; one that
      declares neither follows the plugin's enabled toggle, if some setting is one. */
  ghost predicate Seen(settings: seq<Setting>, enabledKey: string, i: nat, state: Values)
    requires i < |settings|
  {
    var s := settings[i];
    && (s.visibleIf.Some? ==> Reads(state, s.visibleIf.value.0) == s.visibleIf.value.1)
    && (forall c :: c in s.visibleIfAll ==> Reads(state, c.0) == c.1)
    && (s.visibleIf.None? && s.visibleIfAll == [] && s.key != enabledKey
        && (exists j :: 0 <= j < |settings| && settings[j].key == enabledKey) ==>
          Reads(state, enabledKey) == "true")
  }

  lemma DeclaredMembers(s: Setting)
    ensures forall c :: c in Firsts(Declared(s)) <==> s.visibleIf == Some(c) || c in s.visibleIfAll
    ensures Declared(s) == [] <==> s.visibleIf.None? && s.visibleIfAll == []
  {
    if s.visibleIf.Some? {
      assert Declared(s)[0] == s.visibleIf.value;
    }
  }

  lemma EffectiveMet(settings: seq<Setting>, enabledKey: string, i: nat, state: Values)
    requires i < |settings|
    ensures (forall c :: c in Effective(settings[i], Toggle(settings, enabledKey)) ==> Reads(state, c.0) == c.1) <==>
            Seen(settings, enabledKey, i, state)
  {
    var s, toggle := settings[i], Toggle(settings, enabledKey);
    DeclaredMembers(s);
    if Declared(s) == [] && toggle.Some? && s.key != toggle.value {
      assert Effective(s, toggle)[0] == (enabledKey, "true");
    }
  }

  /** The form shows a setting in a state exactly when it is to be seen there. */
  lemma VisibleIff(settings: seq<Setting>, enabledKey: string, saved: Values, submitted: Values, i: nat, state: Values)
    requires IsLast(settings, i)
    ensures FormOf(settings, enabledKey, saved, submitted).Visible(settings[i].key, state) <==>
            Seen(settings, enabledKey, i, state)
  {
    var f, toggle := FormOf(settings, enabledKey, saved, submitted), Toggle(settings, enabledKey);
    ByKeyAt(settings, (o: Setting) => Effective(o, toggle), i);
    EffectiveMet(settings, enabledKey, i, state);
    assert forall key :: f.Get(state, key) == Reads(state, key);
  }

  /** The settings after the written values are stored: written, else saved, else the default. */
  ghost predicate Leads(settings: seq<Setting>, saved: Values, written: Values, state: Values) {
    && (forall k :: k in state ==> exists i :: 0 <= i < |settings| && settings[i].key == k)
    && forall i :: 0 <= i < |settings| ==>
         var s := settings[i];
         && s.key in state
         && state[s.key] == if s.key in written then written[s.key] else if s.key in saved then saved[s.key] else s.fallback
  }

  /** Written are exactly the posted values of the settings that are seen in the state. */
  ghost predicate WritesSeen(settings: seq<Setting>, enabledKey: string, submitted: Values, written: Values, state: Values) {
    && (forall k :: k in written ==> k in submitted && written[k] == submitted[k])
    && (forall k :: k in written ==>
          exists i :: 0 <= i < |settings| && settings[i].key == k && Seen(settings, enabledKey, i, state))
    && (forall i :: 0 <= i < |settings| && settings[i].key in submitted && Seen(settings, enabledKey, i, state) ==>
          settings[i].key in written)
  }

  lemma StoredIsLed(settings: seq<Setting>, saved: Values, written: Values)
    requires DistinctKeys(settings) && forall k :: k in written ==> Declares(settings, k)
    ensures Leads(settings, saved, written, StoredOf(settings, saved) + written)
  {
    var stored := StoredOf(settings, saved);
    forall i | 0 <= i < |settings|
      ensures var s := settings[i]; s.key in stored && stored[s.key] == if s.key in saved then saved[s.key] else s.fallback
    {
      StoredAt(settings, saved, i);
    }
    forall k | k in stored + written ensures exists i :: 0 <= i < |settings| && settings[i].key == k {
      assert Declares(settings, k);
    }
  }

  lemma LeadsToOne(settings: seq<Setting>, saved: Values, written: Values, x: Values, y: Values)
    requires Leads(settings, saved, written, x) && Leads(settings, saved, written, y)
    ensures x == y
  {
    forall k | k in x ensures k in y && x[k] == y[k] {
      var i :| 0 <= i < |settings| && settings[i].key == k;
    }
    forall k | k in y ensures k in x {
      var i :| 0 <= i < |settings| && settings[i].key == k;
    }
  }

  lemma AllowedSees(settings: seq<Setting>, enabledKey: string, saved: Values, submitted: Values, state: Values)
    requires DistinctKeys(settings)
    ensures WritesSeen(settings, enabledKey, submitted, FormOf(settings, enabledKey, saved, submitted).Allowed(state), state)
  {
    var f := FormOf(settings, enabledKey, saved, submitted);
    var allowed := f.Allowed(state);
    forall i | 0 <= i < |settings|
      ensures settings[i].key in allowed <==> settings[i].key in submitted && Seen(settings, enabledKey, i, state)
    {
      VisibleIff(settings, enabledKey, saved, submitted, i, state);
    }
    forall k | k in allowed
      ensures exists i :: 0 <= i < |settings| && settings[i].key == k && Seen(settings, enabledKey, i, state)
    {
      assert k in StoredOf(settings, saved) && Declares(settings, k);
      var i :| 0 <= i < |settings| && settings[i].key == k;
    }
  }

  lemma WritesOne(settings: seq<Setting>, enabledKey: string, submitted: Values, x: Values, y: Values, state: Values)
    requires WritesSeen(settings, enabledKey, submitted, x, state) && WritesSeen(settings, enabledKey, submitted, y, state)
    ensures x == y
  {
    forall k | k in x ensures k in y {
      var i :| 0 <= i < |settings| && settings[i].key == k && Seen(settings, enabledKey, i, state);
    }
    forall k | k in y ensures k in x {
      var i :| 0 <= i < |settings| && settings[i].key == k && Seen(settings, enabledKey, i, state);
    }
  }

  lemma ConsistentSees(settings: seq<Setting>, enabledKey: string, saved: Values, submitted: Values, written: Values)
    requires DistinctKeys(settings) && FormOf(settings, enabledKey, saved, submitted).Consistent(written)
    ensures var state := StoredOf(settings, saved) + written;
            Leads(settings, saved, written, state) && WritesSeen(settings, enabledKey, submitted, written, state)
  {
    AllowedSees(settings, enabledKey, saved, submitted, StoredOf(settings, saved) + written);
    StoredIsLed(settings, saved, written);
  }

  lemma SeenIsConsistent(settings: seq<Setting>, enabledKey: string, saved: Values, submitted: Values, written: Values,
                         state: Values)
    requires DistinctKeys(settings)
    requires Leads(settings, saved, written, state) && WritesSeen(settings, enabledKey, submitted, written, state)
    ensures FormOf(settings, enabledKey, saved, submitted).Consistent(written)
  {
    StoredIsLed(settings, saved, written);
    LeadsToOne(settings, saved, written, state, StoredOf(settings, saved) + written);
    AllowedSees(settings, enabledKey, saved, submitted, state);
    WritesOne(settings, enabledKey, submitted, written, FormOf(settings, enabledKey, saved, submitted).Allowed(state), state);
  }

  /** What a consistent answer is, without the form: it writes exactly the posted values of the settings
      that are seen in the state it leads to. */
  lemma ConsistentIff(settings: seq<Setting>, enabledKey: string, saved: Values, submitted: Values, written: Values)
    requires DistinctKeys(settings)
    ensures FormOf(settings, enabledKey, saved, submitted).Consistent(written) <==>
            exists state :: Leads(settings, saved, written, state) && WritesSeen(settings, enabledKey, submitted, written, state)
  {
    if FormOf(settings, enabledKey, saved, submitted).Consistent(written) {
      ConsistentSees(settings, enabledKey, saved, submitted, written);
    }
    if state :| Leads(settings, saved, written, state) && WritesSeen(settings, enabledKey, submitted, written, state) {
      SeenIsConsistent(settings, enabledKey, saved, submitted, written, state);
    }
  }

  /** So over an acyclic graph a plugin that ends up disabled gets no setting that declares no
      condition of its own, whatever is posted. */
  lemma DisabledStaysUnwritten(settings: seq<Setting>, enabledKey: string, saved: Values, submitted: Values,
                               i: nat, written: Values)
    requires IsLast(settings, i)
    requires exists j :: 0 <= j < |settings| && settings[j].key == enabledKey
    requires settings[i].visibleIf.None? && settings[i].visibleIfAll == [] && settings[i].key != enabledKey
    requires var f := FormOf(settings, enabledKey, saved, submitted);
             f.Consistent(written) && f.Get(f.stored + written, enabledKey) != "true"
    ensures settings[i].key !in written
  {
    var f := FormOf(settings, enabledKey, saved, submitted);
    VisibleIff(settings, enabledKey, saved, submitted, i, f.stored + written);
  }

  method WritableSettings(settings: seq<Setting>, enabledKey: string, saved: Values, submitted: Values)
    returns (written: Values)
    ensures var f := FormOf(settings, enabledKey, saved, submitted);
            && written == f.Allowed(Iterate(f.Step(), |settings| + 1, f.stored))
            && (Acyclic(f.Graph()) ==> f.Consistent(written))
            && (Acyclic(f.Graph()) && DistinctKeys(settings) ==>
                  exists state :: Leads(settings, saved, written, state)
                                  && WritesSeen(settings, enabledKey, submitted, written, state))
    ensures forall k :: k in written ==> k in submitted && written[k] == submitted[k]
  {
    var f := FormOf(settings, enabledKey, saved, submitted);
    var state := IterateUntilStable(f.Step(), |settings| + 1, f.stored);
    written := f.Allowed(state);
    SettledIsConsistent(f, |settings| + 1);
    if DistinctKeys(settings) {
      ConsistentIff(settings, enabledKey, saved, submitted, written);
    }
  }

  lemma {:induction false} SettledIsConsistent<K(!new), V(!new)>(f: Form<K, V>, n: nat)
    requires f.Valid() && n >= |f.conditions.Keys|
    ensures Acyclic(f.Graph()) ==> f.Consistent(f.Allowed(Iterate(f.Step(), n, f.stored)))
  {
    if Acyclic(f.Graph()) {
      f.ReachesFixpoint(n);
    }
  }

  /** The result over an acyclic graph is the only consistent set of values: it depends on the
      posted map, not on any order. */
  lemma {:induction false} WrittenIsTheConsistentSet<K(!new), V(!new)>(f: Form<K, V>, n: nat, written: map<K, V>)
    requires f.Valid() && n >= |f.conditions.Keys| && Acyclic(f.Graph())
    ensures f.Consistent(written) <==> written == f.Allowed(Iterate(f.Step(), n, f.stored))
  {
    SettledIsConsistent(f, n);
    if f.Consistent(written) {
      f.ConsistentIsUnique(written, f.Allowed(Iterate(f.Step(), n, f.stored)));
    }
  }

  /** With a cycle the promise can fail: a setting visible while it is "x", stored as "x" and
      posted as "y", is written although the state it leads to hides it. */
  lemma CyclicFormEscapes()
    ensures var f := Form(map["a" := [("a", "x")]], map["a" := "x"], map["a" := "y"], "");
            !Acyclic(f.Graph()) && !f.Consistent(f.Allowed(Iterate(f.Step(), 2, f.stored)))
  {
    var f := Form(map["a" := [("a", "x")]], map["a" := "x"], map["a" := "y"], "");
    assert ("a", "x") in f.conditions["a"];
    assert Edge(f.Graph(), "a", "a") by { assert "a" in f.Controls("a"); }
    var w := ["a", "a"];
    assert Walk(f.Graph(), w) && w[0] == w[1];
    var x, y := map["a" := "x"], map["a" := "y"];
    assert f.Visible("a", x) && !f.Visible("a", y);
    assert f.Pass(x) == y && f.Pass(y) == x;
    IterateAdd(f.Step(), 1, 1, x);
    assert Iterate(f.Step(), 1, x) == f.Pass(x);
  }
}
