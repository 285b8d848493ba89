/** The two insertion rules of `MSBuildRestoreUtility`, on values: a dependency joins the global list
    when no global dependency has its name, and joins a framework's list when neither the
    global list nor that framework's list has its name. `IngestAll` applies the rules to a
    sequence of dependencies, each with the frameworks it is scoped to. */
module DependencyInsertion {
  import opened Wrappers
  import opened Text
  import opened ProjectModel

  /** A dependency together with the frameworks it is scoped to; no frameworks means global. */
  datatype Entry = Entry(dependency: Dependency, frameworks: set<Framework>)

  /** The global insert: append unless the name is already there. */
  function InsertGlobal(global: seq<Dependency>, d: Dependency): seq<Dependency> {
    if HasName(global, d.name) then global else global + [d]
  }

  /** The framework entries that `GetTargetFramework` returns for the requested frameworks,
      leaving out the detached ones. */
  function Slots(env: Collaborators, declared: set<Framework>, requested: set<Framework>): (r: set<Framework>)
    ensures r <= declared
  {
    set f | f in requested && TargetFrameworkSlot(env, declared, f).Some? :: TargetFrameworkSlot(env, declared, f).value
  }

  /** The framework-scoped insert of `d` into every entry of `slots`: an entry's list grows
      by `d` exactly when neither the global list nor that list has the name. */
  function InsertScoped(global: seq<Dependency>, frameworks: map<Framework, seq<Dependency>>,
                        slots: set<Framework>, d: Dependency): map<Framework, seq<Dependency>>
  {
    map g | g in frameworks ::
      if g in slots && !HasName(global + frameworks[g], d.name) then frameworks[g] + [d] else frameworks[g]
  }

  /** One item's insertion: globally when it names no framework, otherwise once per framework. */
  function AddToScopes(l: DependencyLists, e: Entry, env: Collaborators): DependencyLists {
    if e.frameworks == {} then
      l.(global := InsertGlobal(l.global, e.dependency))
    else
      l.(frameworks := InsertScoped(l.global, l.frameworks, Slots(env, l.frameworks.Keys, e.frameworks), e.dependency))
  }

  /** The insertions of a sequence of items, in order. */
  function IngestAll(l: DependencyLists, es: seq<Entry>, env: Collaborators): DependencyLists
    decreases |es|
  {
    if es == [] then l else AddToScopes(IngestAll(l, es[..|es| - 1], env), es[|es| - 1], env)
  }

  // ----- facts about names -----

  lemma HasNameAppend(a: seq<Dependency>, b: seq<Dependency>, name: Option<string>)
    ensures HasName(a + b, name) <==> HasName(a, name) || HasName(b, name)
  {
    if HasName(a, name) {
      var i :| 0 <= i < |a| && NameEquals(a[i].name, name);
      assert (a + b)[i] == a[i];
    }
    if HasName(b, name) {
      var i :| 0 <= i < |b| && NameEquals(b[i].name, name);
      assert (a + b)[|a| + i] == b[i];
    }
  }

  lemma HasOwnName(a: seq<Dependency>, d: Dependency)
    ensures HasName(a + [d], d.name)
  {
    NameEqualsIsEquivalence(d.name, d.name, d.name);
    assert (a + [d])[|a|] == d;
  }

  // ----- the global insert -----

  /** The global insert appends exactly when the name is absent, and otherwise leaves the
      list as it was; either way the name is present afterwards. */
  lemma InsertGlobalSpec(global: seq<Dependency>, d: Dependency)
    ensures !HasName(global, d.name) ==> InsertGlobal(global, d) == global + [d]
    ensures HasName(global, d.name) ==> InsertGlobal(global, d) == global
    ensures HasName(InsertGlobal(global, d), d.name)
  {
    HasOwnName(global, d);
  }

  /** The global insert keeps the global list free of duplicate names. */
  lemma InsertGlobalKeepsUnique(global: seq<Dependency>, d: Dependency)
    requires NoDuplicateNames(global)
    ensures NoDuplicateNames(InsertGlobal(global, d))
  {
  }

  // ----- the framework-scoped insert -----

  /** A name already in the global list blocks every framework-scoped insert of that name. */
  lemma GlobalBlocksScoped(global: seq<Dependency>, frameworks: map<Framework, seq<Dependency>>,
                           slots: set<Framework>, d: Dependency)
    requires HasName(global, d.name)
    ensures InsertScoped(global, frameworks, slots, d) == frameworks
  {
    forall g | g in frameworks
      ensures HasName(global + frameworks[g], d.name)
    {
      HasNameAppend(global, frameworks[g], d.name);
    }
  }

  /** The framework-scoped insert never touches an entry outside `slots`, never adds or
      removes an entry, and keeps each entry's list free of duplicate names. */
  lemma InsertScopedFrame(global: seq<Dependency>, frameworks: map<Framework, seq<Dependency>>,
                          slots: set<Framework>, d: Dependency)
    ensures InsertScoped(global, frameworks, slots, d).Keys == frameworks.Keys
    ensures forall g :: g in frameworks && g !in slots ==> InsertScoped(global, frameworks, slots, d)[g] == frameworks[g]
    ensures forall g :: g in frameworks && NoDuplicateNames(frameworks[g]) ==>
              NoDuplicateNames(InsertScoped(global, frameworks, slots, d)[g])
  {
    forall g | g in frameworks && NoDuplicateNames(frameworks[g])
      ensures NoDuplicateNames(InsertScoped(global, frameworks, slots, d)[g])
    {
      HasNameAppend(global, frameworks[g], d.name);
    }
  }

  /** Inserting one more framework's entry extends the scoped insert by one slot: this is what
      makes the order in which a hash set of frameworks is visited irrelevant. */
  lemma InsertScopedStep(global: seq<Dependency>, frameworks: map<Framework, seq<Dependency>>,
                         slots: set<Framework>, slot: Option<Framework>, d: Dependency)
    requires slot.Some? ==> slot.value in frameworks
    ensures var current := InsertScoped(global, frameworks, slots, d);
            var next := if slot.Some? && !HasName(global + current[slot.value], d.name)
                        then current[slot.value := current[slot.value] + [d]] else current;
            next == InsertScoped(global, frameworks, slots + (if slot.Some? then {slot.value} else {}), d)
  {
    if slot.Some? {
      if slot.value in slots {
        InsertScopedRevisit(global, frameworks, slots, slot.value, d);
      } else {
        InsertScopedNewSlot(global, frameworks, slots, slot.value, d);
      }
    } else {
      assert slots + {} == slots;
    }
  }

  /** A slot already inserted into holds the name afterwards, so a second visit changes nothing. */
  lemma InsertScopedRevisit(global: seq<Dependency>, frameworks: map<Framework, seq<Dependency>>,
                            slots: set<Framework>, s: Framework, d: Dependency)
    requires s in frameworks && s in slots
    ensures HasName(global + InsertScoped(global, frameworks, slots, d)[s], d.name)
    ensures slots + {s} == slots
  {
    var current := InsertScoped(global, frameworks, slots, d);
    if !HasName(global + frameworks[s], d.name) {
      assert current[s] == frameworks[s] + [d];
      HasOwnName(global + frameworks[s], d);
      assert global + current[s] == global + frameworks[s] + [d];
    }
  }

  /** A slot not yet visited is updated exactly as the scoped insert would update it. */
  lemma InsertScopedNewSlot(global: seq<Dependency>, frameworks: map<Framework, seq<Dependency>>,
                            slots: set<Framework>, s: Framework, d: Dependency)
    requires s in frameworks && s !in slots
    ensures var current := InsertScoped(global, frameworks, slots, d);
            var next := if !HasName(global + current[s], d.name) then current[s := current[s] + [d]] else current;
            next == InsertScoped(global, frameworks, slots + {s}, d)
  {
    var current := InsertScoped(global, frameworks, slots, d);
    var next := if !HasName(global + current[s], d.name) then current[s := current[s] + [d]] else current;
    var want := InsertScoped(global, frameworks, slots + {s}, d);
    assert next.Keys == want.Keys;
    forall g | g in next
      ensures next[g] == want[g]
    {
    }
  }

  // ----- a sequence of insertions -----

  /** One more item extends `IngestAll` by one insertion. */
  lemma IngestAllStep(l: DependencyLists, es: seq<Entry>, e: Entry, env: Collaborators)
    ensures IngestAll(l, es + [e], env) == AddToScopes(IngestAll(l, es, env), e, env)
  {
    assert (es + [e])[..|es|] == es;
  }

  /** `IngestAll` over a concatenation is `IngestAll` over each part in turn. */
  lemma {:induction false} IngestAllConcat(l: DependencyLists, a: seq<Entry>, b: seq<Entry>, env: Collaborators)
    ensures IngestAll(l, a + b, env) == IngestAll(IngestAll(l, a, env), b, env)
    decreases |b|
  {
    if b == [] {
      assert a + b == a;
    } else {
      var ab := a + b;
      assert ab[..|ab| - 1] == a + b[..|b| - 1];
      assert ab[|ab| - 1] == b[|b| - 1];
      IngestAllConcat(l, a, b[..|b| - 1], env);
    }
  }

  /** Insertions never remove or reorder what is already there (the first dependency of a
      name wins), never add or remove a framework entry, and keep every list free of
      duplicate names. */
  lemma {:induction false} IngestAllExtends(l: DependencyLists, es: seq<Entry>, env: Collaborators)
    ensures var r := IngestAll(l, es, env);
            && r.frameworks.Keys == l.frameworks.Keys
            && |l.global| <= |r.global| && r.global[..|l.global|] == l.global
            && forall g :: g in l.frameworks ==>
                 |l.frameworks[g]| <= |r.frameworks[g]| && r.frameworks[g][..|l.frameworks[g]|] == l.frameworks[g]
    ensures ListsUnique(l) ==> ListsUnique(IngestAll(l, es, env))
    decreases |es|
  {
    if es != [] {
      var prev := IngestAll(l, es[..|es| - 1], env);
      IngestAllExtends(l, es[..|es| - 1], env);
      var e := es[|es| - 1];
      if e.frameworks == {} {
        if ListsUnique(l) {
          InsertGlobalKeepsUnique(prev.global, e.dependency);
        }
        var r := IngestAll(l, es, env);
        assert r.global[..|l.global|] == prev.global[..|l.global|];
      } else {
        InsertScopedFrame(prev.global, prev.frameworks, Slots(env, prev.frameworks.Keys, e.frameworks), e.dependency);
        var r := IngestAll(l, es, env);
        forall g | g in l.frameworks
          ensures |l.frameworks[g]| <= |r.frameworks[g]| && r.frameworks[g][..|l.frameworks[g]|] == l.frameworks[g]
        {
          assert r.frameworks[g][..|l.frameworks[g]|] == prev.frameworks[g][..|l.frameworks[g]|];
        }
      }
    }
  }

  /** Every dependency in the lists after the insertions was there before or is the
      dependency of one of the inserted entries. */
  lemma {:induction false} IngestAllOrigins(l: DependencyLists, es: seq<Entry>, env: Collaborators)
    ensures var r := IngestAll(l, es, env);
            forall d :: d in r.global ==> d in l.global || exists i :: 0 <= i < |es| && es[i].dependency == d
    ensures var r := IngestAll(l, es, env);
            forall g, d :: g in r.frameworks && d in r.frameworks[g] ==>
              (g in l.frameworks && d in l.frameworks[g]) || exists i :: 0 <= i < |es| && es[i].dependency == d
    decreases |es|
  {
    if es != [] {
      var pre := es[..|es| - 1];
      IngestAllOrigins(l, pre, env);
      IngestAllExtends(l, pre, env);
      forall i | 0 <= i < |pre|
        ensures es[i] == pre[i]
      {
      }
    }
  }

  /** Two global items with the same name (ignoring case) and a name not yet present: only the
      first is kept, with its own version range. */
  lemma DuplicateGlobalKeepsFirst(l: DependencyLists, d1: Dependency, d2: Dependency, env: Collaborators)
    requires NameEquals(d1.name, d2.name)
    requires !HasName(l.global, d1.name)
    ensures IngestAll(l, [Entry(d1, {}), Entry(d2, {})], env).global == l.global + [d1]
  {
    var es := [Entry(d1, {}), Entry(d2, {})];
    assert es[..1] == [Entry(d1, {})];
    assert es[..1][..0] == [];
    assert IngestAll(l, es[..1][..0], env) == l;
    var mid := IngestAll(l, es[..1], env);
    assert mid == AddToScopes(l, Entry(d1, {}), env);
    assert mid.global == l.global + [d1];
    assert (l.global + [d1])[|l.global|] == d1;
    assert HasName(mid.global, d2.name);
  }

  /** One item scoped to a single framework that resolves to its own entry changes that
      entry alone. */
  lemma SingleScopedInsert(l: DependencyLists, d: Dependency, f: Framework, env: Collaborators)
    requires f in l.frameworks
    requires TargetFrameworkSlot(env, l.frameworks.Keys, f) == Some(f)
    ensures var r := AddToScopes(l, Entry(d, {f}), env);
            r.global == l.global
            && r.frameworks == if HasName(l.global + l.frameworks[f], d.name) then l.frameworks
                               else l.frameworks[f := l.frameworks[f] + [d]]
  {
    assert Slots(env, l.frameworks.Keys, {f}) == {f};
    var r := AddToScopes(l, Entry(d, {f}), env);
    if HasName(l.global + l.frameworks[f], d.name) {
      assert r.frameworks == l.frameworks;
    } else {
      assert r.frameworks == l.frameworks[f := l.frameworks[f] + [d]];
    }
  }

  /** The same name scoped to two different frameworks, each resolving to its own entry, is
      kept once under each: the scope is part of a dependency's identity. */
  lemma ScopesAreIsolated(l: DependencyLists, d1: Dependency, d2: Dependency,
                          f1: Framework, f2: Framework, env: Collaborators)
    requires f1 != f2 && f1 in l.frameworks && f2 in l.frameworks
    requires TargetFrameworkSlot(env, l.frameworks.Keys, f1) == Some(f1)
    requires TargetFrameworkSlot(env, l.frameworks.Keys, f2) == Some(f2)
    requires !HasName(l.global + l.frameworks[f1], d1.name)
    requires !HasName(l.global + l.frameworks[f2], d2.name)
    ensures var r := IngestAll(l, [Entry(d1, {f1}), Entry(d2, {f2})], env);
            r.global == l.global && r.frameworks.Keys == l.frameworks.Keys
            && r.frameworks[f1] == l.frameworks[f1] + [d1]
            && r.frameworks[f2] == l.frameworks[f2] + [d2]
  {
    var es := [Entry(d1, {f1}), Entry(d2, {f2})];
    assert es[..1] == [Entry(d1, {f1})];
    assert es[..1][..0] == [];
    assert IngestAll(l, es[..1][..0], env) == l;
    var mid := IngestAll(l, es[..1], env);
    assert mid == AddToScopes(l, Entry(d1, {f1}), env);
    SingleScopedInsert(l, d1, f1, env);
    assert mid.frameworks == l.frameworks[f1 := l.frameworks[f1] + [d1]];
    assert mid.frameworks.Keys == l.frameworks.Keys;
    assert IngestAll(l, es, env) == AddToScopes(mid, Entry(d2, {f2}), env);
    SingleScopedInsert(mid, d2, f2, env);
  }

  /** A global name comes from the starting list or from a global entry of that name. */
  lemma {:induction false} GlobalNameOrigins(l: DependencyLists, es: seq<Entry>, env: Collaborators, name: Option<string>)
    ensures HasName(IngestAll(l, es, env).global, name) ==>
              HasName(l.global, name) ||
              exists j :: 0 <= j < |es| && es[j].frameworks == {} && NameEquals(es[j].dependency.name, name)
    decreases |es|
  {
    if es != [] {
      var pre := es[..|es| - 1];
      var e := es[|es| - 1];
      var prev := IngestAll(l, pre, env);
      GlobalNameOrigins(l, pre, env, name);
      if e.frameworks == {} && !HasName(prev.global, e.dependency.name) {
        HasNameAppend(prev.global, [e.dependency], name);
      }
      if HasName(prev.global, name) && !HasName(l.global, name) {
        var j :| 0 <= j < |pre| && pre[j].frameworks == {} && NameEquals(pre[j].dependency.name, name);
        assert es[j] == pre[j];
      }
    }
  }

  /** Once `d` is the only global dependency of its name, later insertions keep it so. */
  lemma {:induction false} GlobalNameKept(m: DependencyLists, rest: seq<Entry>, env: Collaborators, d: Dependency)
    requires d in m.global
    requires forall i :: 0 <= i < |m.global| && NameEquals(m.global[i].name, d.name) ==> m.global[i] == d
    ensures var g := IngestAll(m, rest, env).global;
            d in g && forall i :: 0 <= i < |g| && NameEquals(g[i].name, d.name) ==> g[i] == d
    decreases |rest|
  {
    if rest != [] {
      var pre := rest[..|rest| - 1];
      var e := rest[|rest| - 1];
      var prev := IngestAll(m, pre, env);
      GlobalNameKept(m, pre, env, d);
      if e.frameworks == {} && !HasName(prev.global, e.dependency.name) {
        NameEqualsIsEquivalence(e.dependency.name, d.name, d.name);
        var k :| 0 <= k < |prev.global| && prev.global[k] == d;
        assert !NameEquals(d.name, e.dependency.name);
      }
    }
  }

  /** On a clash of names the earliest global entry wins: when no global entry before position
      `k` has its name and the starting list lacks it, entry `k` is the one global dependency of
      that name in the end, whatever follows. */
  lemma EarliestGlobalWins(l: DependencyLists, es: seq<Entry>, env: Collaborators, k: nat)
    requires k < |es| && es[k].frameworks == {}
    requires !HasName(l.global, es[k].dependency.name)
    requires forall j :: 0 <= j < k && es[j].frameworks == {} ==> !NameEquals(es[j].dependency.name, es[k].dependency.name)
    ensures var g := IngestAll(l, es, env).global;
            es[k].dependency in g
            && forall i :: 0 <= i < |g| && NameEquals(g[i].name, es[k].dependency.name) ==> g[i] == es[k].dependency
  {
    var d := es[k].dependency;
    var pre := es[..k];
    var upTo := es[..k + 1];
    assert upTo[..k] == pre;
    GlobalNameOrigins(l, pre, env, d.name);
    forall j | 0 <= j < |pre|
      ensures pre[j] == es[j]
    {
    }
    assert !HasName(IngestAll(l, pre, env).global, d.name);
    var prev := IngestAll(l, pre, env).global;
    var mid := IngestAll(l, upTo, env);
    assert mid.global == prev + [d];
    forall i | 0 <= i < |mid.global| && NameEquals(mid.global[i].name, d.name)
      ensures mid.global[i] == d
    {
      if i < |prev| {
        assert false;
      }
    }
    assert mid.global[|prev|] == d;
    GlobalNameKept(mid, es[k + 1..], env, d);
    assert es == upTo + es[k + 1..];
    IngestAllConcat(l, upTo, es[k + 1..], env);
  }
}
