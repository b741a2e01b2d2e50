/** Dependency order for `up` (cmd/up.go): the transitive-closure collector and Kahn's
    algorithm with its fallback for cycles.  Iteration over a Go map is an arbitrary choice
    here, so what is proved holds for every iteration order. */
module ServiceOrder {
  datatype Name = Name(text: string)

  /** Service name to the names in its depends_on section (which may be unknown names). */
  type Services = map<Name, set<Name>>

  function Deps(services: Services, n: Name): set<Name> {
    if n in services then services[n] else {}
  }

  // ---------------------------------------------------------------- string order

  predicate LeqText(a: string, b: string) {
    a == "" || (b != "" && (a[0] < b[0] || (a[0] == b[0] && LeqText(a[1..], b[1..]))))
  }

  lemma {:induction false} TextTotal(a: string, b: string)
    ensures LeqText(a, b) || LeqText(b, a)
  {
    if a != "" && b != "" && a[0] == b[0] {
      TextTotal(a[1..], b[1..]);
    }
  }

  lemma {:induction false} TextTransitive(a: string, b: string, c: string)
    requires LeqText(a, b) && LeqText(b, c)
    ensures LeqText(a, c)
  {
    if a != "" && a[0] == b[0] && b[0] == c[0] {
      TextTransitive(a[1..], b[1..], c[1..]);
    }
  }

  lemma {:induction false} TextAntisymmetric(a: string, b: string)
    requires LeqText(a, b) && LeqText(b, a)
    ensures a == b
  {
    if a != "" {
      TextAntisymmetric(a[1..], b[1..]);
      assert a == [a[0]] + a[1..] && b == [b[0]] + b[1..];
    }
  }

  predicate Leq(a: Name, b: Name) { LeqText(a.text, b.text) }

  lemma {:induction false} LeqTotal(a: Name, b: Name)
    ensures Leq(a, b) || Leq(b, a)
  {
    TextTotal(a.text, b.text);
  }

  lemma {:induction false} LeqTransitive(a: Name, b: Name, c: Name)
    requires Leq(a, b) && Leq(b, c)
    ensures Leq(a, c)
  {
    TextTransitive(a.text, b.text, c.text);
  }

  lemma {:induction false} LeqAntisymmetric(a: Name, b: Name)
    requires Leq(a, b) && Leq(b, a)
    ensures a == b
  {
    TextAntisymmetric(a.text, b.text);
  }

  ghost predicate NoDup(q: seq<Name>) { forall i, j :: 0 <= i < j < |q| ==> q[i] != q[j] }

  ghost predicate InOrder(q: seq<Name>) { forall i, j :: 0 <= i < j < |q| ==> Leq(q[i], q[j]) }

  function Insert(x: Name, q: seq<Name>): (r: seq<Name>)
    requires InOrder(q)
    ensures InOrder(r) && (forall y :: y in r <==> y == x || y in q) && |r| == |q| + 1
  {
    if q == [] then [x]
    else if Leq(x, q[0]) then
      InsertFront(x, q);
      [x] + q
    else
      LeqTotal(x, q[0]);
      var tail := Insert(x, q[1..]);
      assert forall y <- tail :: Leq(q[0], y);
      [q[0]] + tail
  }

  lemma {:induction false} InsertFront(x: Name, q: seq<Name>)
    requires InOrder(q) && q != [] && Leq(x, q[0])
    ensures forall y <- q :: Leq(x, y)
  {
    LeqTransitive(x, q[0], q[0]) by { LeqTotal(q[0], q[0]); }
    forall i | 0 <= i < |q|
      ensures Leq(x, q[i])
    {
      if i > 0 {
        LeqTransitive(x, q[0], q[i]);
      }
    }
  }

  lemma {:induction false} InsertNoDup(x: Name, q: seq<Name>)
    requires InOrder(q) && NoDup(q) && x !in q
    ensures NoDup(Insert(x, q))
    decreases |q|
  {
    if q != [] && !Leq(x, q[0]) {
      InsertNoDup(x, q[1..]);
      assert q[0] !in Insert(x, q[1..]);
    }
  }

  /** sort.Strings. */
  function Sort(q: seq<Name>): (r: seq<Name>)
    ensures InOrder(r) && (forall y :: y in r <==> y in q) && |r| == |q|
  {
    if q == [] then [] else Insert(q[0], Sort(q[1..]))
  }

  lemma {:induction false} SortNoDup(q: seq<Name>)
    requires NoDup(q)
    ensures NoDup(Sort(q))
    decreases |q|
  {
    if q != [] {
      SortNoDup(q[1..]);
      InsertNoDup(q[0], Sort(q[1..]));
    }
  }

  // ---------------------------------------------------------------- dependency paths

  /** Each name depends on the next one, all of them within `names`. */
  ghost predicate IsPath(services: Services, names: set<Name>, p: seq<Name>) {
    && p != [] && (forall x <- p :: x in names)
    && forall i :: 0 <= i < |p| - 1 ==> p[i + 1] in Deps(services, p[i])
  }

  ghost function Universe(services: Services): set<Name> {
    services.Keys + set n, d | n in services && d in services[n] :: d
  }

  /** The reflexive transitive closure of depends_on. */
  ghost predicate Reaches(services: Services, a: Name, b: Name) {
    exists p :: IsPath(services, Universe(services) + {a}, p) && p[0] == a && p[|p| - 1] == b
  }

  lemma {:induction false} ReachesItself(services: Services, a: Name)
    ensures Reaches(services, a, a)
  {
    assert IsPath(services, Universe(services) + {a}, [a]) && [a][0] == a && [a][|[a]| - 1] == a;
  }

  lemma {:induction false} ReachesMore(services: Services, a: Name, b: Name, d: Name)
    requires Reaches(services, a, b) && d in Deps(services, b)
    ensures Reaches(services, a, d)
  {
    var p :| IsPath(services, Universe(services) + {a}, p) && p[0] == a && p[|p| - 1] == b;
    var q := p + [d];
    assert IsPath(services, Universe(services) + {a}, q) && q[0] == a && q[|q| - 1] == d;
  }

  lemma {:induction false} ClosedUnderPaths(services: Services, names: set<Name>, within: set<Name>, p: seq<Name>)
    requires IsPath(services, within, p) && p[0] in names
    requires forall x <- names :: Deps(services, x) <= names
    ensures p[|p| - 1] in names
    decreases |p|
  {
    if |p| > 1 {
      assert p[0 + 1] in Deps(services, p[0]);
      var q := p[1..];
      forall i | 0 <= i < |q| - 1
        ensures q[i + 1] in Deps(services, q[i])
      {
        assert p[i + 1 + 1] in Deps(services, p[i + 1]);
      }
      ClosedUnderPaths(services, names, within, q);
    }
  }

  // ---------------------------------------------------------------- the collector

  class NameSet {
    var names: set<Name>

    constructor (names: set<Name>)
      ensures this.names == names
    {
      this.names := names;
    }
  }

  /** The recursive collector ends on every graph, cyclic ones included.  What it adds is
      reachable from `name`, and what it adds is closed. */
  method CollectDeps(name: Name, services: Services, collected: NameSet)
    modifies collected
    ensures old(collected.names) <= collected.names
    ensures Deps(services, name) <= collected.names
    ensures name !in services ==> collected.names == old(collected.names)
    ensures forall x <- collected.names - old(collected.names) :: Deps(services, x) <= collected.names
    ensures forall x <- collected.names - old(collected.names) :: Reaches(services, name, x)
    decreases Universe(services) - collected.names
  {
    if name !in services {
      return;
    }
    ReachesItself(services, name);
    var rest := services[name];
    while rest != {}
      invariant rest <= services[name]
      invariant old(collected.names) <= collected.names
      invariant services[name] - rest <= collected.names
      invariant forall x <- collected.names - old(collected.names) :: Deps(services, x) <= collected.names
      invariant forall x <- collected.names - old(collected.names) :: Reaches(services, name, x)
      decreases rest
    {
      var dep :| dep in rest;
      rest := rest - {dep};
      if dep !in collected.names {
        ghost var before := collected.names;
        assert dep in Universe(services);
        ReachesMore(services, name, name, dep);
        collected.names := collected.names + {dep};
        CollectDeps(dep, services, collected);
        forall x | x in collected.names - before
          ensures Reaches(services, name, x)
        {
          if x != dep {
            ReachesTransitive(services, name, dep, x);
          }
        }
      }
    }
  }

  lemma {:induction false} ReachesTransitive(services: Services, a: Name, b: Name, c: Name)
    requires Reaches(services, a, b) && Reaches(services, b, c)
    ensures Reaches(services, a, c)
  {
    var p :| IsPath(services, Universe(services) + {a}, p) && p[0] == a && p[|p| - 1] == b;
    var q :| IsPath(services, Universe(services) + {b}, q) && q[0] == b && q[|q| - 1] == c;
    var r := p + q[1..];
    assert b in Universe(services) + {a} && forall x <- q[1..] :: x in q;
    assert forall i :: 0 <= i < |q| - 1 ==> q[1..][i] == q[i + 1];
    forall i | 0 <= i < |r| - 1
      ensures r[i + 1] in Deps(services, r[i])
    {
      if i + 1 < |p| {
        assert p[i + 1] in Deps(services, p[i]);
      } else {
        var j := i + 1 - |p|;
        assert q[j + 1] in Deps(services, q[j]);
        assert r[i + 1] == q[j + 1] && r[i] == q[j];
      }
    }
    assert IsPath(services, Universe(services) + {a}, r) && r[0] == a && r[|r| - 1] == c;
  }

  /** The names a call selects: every service, or the closure of the one that the filter names. */
  ghost predicate Selected(services: Services, filter: Name, n: Name) {
    if filter == Name("") then n in services else filter in services && Reaches(services, filter, n)
  }

  method SelectNames(services: Services, filter: Name) returns (names: set<Name>)
    ensures forall n :: n in names <==> Selected(services, filter, n)
  {
    names := set n <- services.Keys | filter == Name("") || n == filter;
    if filter == Name("") {
      return;
    }
    var collected := new NameSet(names);
    CollectDeps(filter, services, collected);
    names := collected.names;
    ReachesItself(services, filter);
    forall n | Selected(services, filter, n)
      ensures n in names
    {
      var p :| IsPath(services, Universe(services) + {filter}, p) && p[0] == filter && p[|p| - 1] == n;
      assert forall x <- names :: Deps(services, x) <= names;
      ClosedUnderPaths(services, names, Universe(services) + {filter}, p);
    }
  }

  // ---------------------------------------------------------------- Kahn's order

  ghost function Elements(r: seq<Name>): set<Name> { set x <- r }

  function SelectedDeps(services: Services, names: set<Name>, n: Name): set<Name> {
    Deps(services, n) * names
  }

  /** Not emitted yet, while all its selected dependencies are. */
  ghost predicate Ready(services: Services, names: set<Name>, done: set<Name>, n: Name) {
    n in names && n !in done && SelectedDeps(services, names, n) <= done
  }

  /** Every name comes after its selected dependencies and is the least name ready at its place,
      and no name is left ready at the end. */
  ghost predicate KahnOrder(services: Services, names: set<Name>, r: seq<Name>) {
    KahnSoFar(services, names, r) && forall n :: !Ready(services, names, Elements(r), n)
  }

  ghost predicate KahnSoFar(services: Services, names: set<Name>, r: seq<Name>) {
    && (forall i :: 0 <= i < |r| ==> Ready(services, names, Elements(r[..i]), r[i]))
    && (forall i, n :: 0 <= i < |r| && Ready(services, names, Elements(r[..i]), n) ==> Leq(r[i], n))
  }

  /** The queue's part of the answer does not depend on the iteration order of the maps. */
  lemma {:induction false} KahnOrderIsUnique(services: Services, names: set<Name>, r: seq<Name>, r': seq<Name>)
    requires KahnOrder(services, names, r) && KahnOrder(services, names, r')
    ensures r == r'
  {
    KahnPrefix(services, names, r, r', |r|);
    KahnPrefix(services, names, r', r, |r'|);
  }

  lemma {:induction false} KahnGoesOn(services: Services, names: set<Name>, r: seq<Name>, k: nat, n: Name)
    requires KahnOrder(services, names, r) && k <= |r| && Ready(services, names, Elements(r[..k]), n)
    ensures k < |r|
  {
    assert r[..|r|] == r;
  }

  lemma {:induction false} KahnPrefix(services: Services, names: set<Name>, r: seq<Name>, r': seq<Name>, k: nat)
    requires KahnOrder(services, names, r) && KahnOrder(services, names, r') && k <= |r|
    ensures k <= |r'| && r[..k] == r'[..k]
    decreases k
  {
    if k > 0 {
      KahnPrefix(services, names, r, r', k - 1);
      assert Ready(services, names, Elements(r[..k - 1]), r[k - 1]);
      KahnGoesOn(services, names, r', k - 1, r[k - 1]);
      assert Ready(services, names, Elements(r'[..k - 1]), r'[k - 1]);
      LeqAntisymmetric(r[k - 1], r'[k - 1]);
      assert r[..k] == r[..k - 1] + [r[k - 1]] && r'[..k] == r'[..k - 1] + [r'[k - 1]];
    }
  }

  // ---------------------------------------------------------------- cycles

  /** `n` lies on a dependency cycle or leads to one. */
  ghost predicate OnOrBeforeCycle(services: Services, names: set<Name>, n: Name) {
    exists p :: IsPath(services, names, p) && p[0] == n && !NoDup(p)
  }

  /** Along a path from an emitted name the places in the order strictly decrease. */
  lemma {:induction false} PathDescends(services: Services, names: set<Name>, r: seq<Name>, p: seq<Name>, k: nat) returns (at: nat)
    requires KahnOrder(services, names, r) && IsPath(services, names, p) && p[0] in r && k < |p|
    ensures at < |r| && r[at] == p[k]
    ensures forall j :: 0 <= j < k ==> p[j] !in r[..at + 1]
    decreases k
  {
    if k == 0 {
      at :| 0 <= at < |r| && r[at] == p[0];
    } else {
      var before := PathDescends(services, names, r, p, k - 1);
      assert p[k - 1 + 1] in Deps(services, p[k - 1]);
      assert Ready(services, names, Elements(r[..before]), r[before]);
      assert p[k] in SelectedDeps(services, names, r[before]);
      assert p[k] in Elements(r[..before]);
      at :| 0 <= at < before && r[at] == p[k];
      EmittedOnce(services, names, r, before);
      assert r[..at + 1] <= r[..before];
      forall j | 0 <= j < k
        ensures p[j] !in r[..at + 1]
      {
        assert forall x <- r[..at + 1] :: x in r[..before];
        if j < k - 1 {
          assert forall x <- r[..before] :: x in r[..before + 1];
        }
      }
    }
  }

  lemma {:induction false} EmittedOnce(services: Services, names: set<Name>, r: seq<Name>, i: nat)
    requires KahnOrder(services, names, r) && i < |r|
    ensures r[i] !in r[..i]
  {
    assert Ready(services, names, Elements(r[..i]), r[i]);
  }

  /** From a name that was not emitted one can walk on for ever among such names. */
  lemma {:induction false} StuckPath(services: Services, names: set<Name>, r: seq<Name>, n: Name, k: nat) returns (p: seq<Name>)
    requires KahnOrder(services, names, r) && n in names && n !in r
    ensures IsPath(services, names, p) && p[0] == n && |p| == k + 1
    decreases k
  {
    if k == 0 {
      p := [n];
    } else {
      assert !Ready(services, names, Elements(r), n);
      var d :| d in SelectedDeps(services, names, n) && d !in r;
      var q := StuckPath(services, names, r, d, k - 1);
      p := [n] + q;
      forall i | 0 <= i < |p| - 1
        ensures p[i + 1] in Deps(services, p[i])
      {
        if i > 0 {
          assert q[i - 1 + 1] in Deps(services, q[i - 1]);
        }
      }
    }
  }

  lemma {:induction false} Pigeonhole(p: seq<Name>, s: set<Name>)
    requires (forall x <- p :: x in s) && |p| > |s|
    ensures !NoDup(p)
    decreases |p|
  {
    var x, q := p[|p| - 1], p[..|p| - 1];
    if x in q {
      var i :| 0 <= i < |q| && q[i] == x;
      assert p[i] == p[|p| - 1];
    } else {
      Pigeonhole(q, s - {x});
      var i, j :| 0 <= i < j < |q| && q[i] == q[j];
      assert p[i] == p[j];
    }
  }

  /** The queue emits exactly the names that neither lie on nor depend on a cycle. */
  lemma {:induction false} EmittedIffAcyclic(services: Services, names: set<Name>, r: seq<Name>, n: Name)
    requires KahnOrder(services, names, r) && n in names
    ensures n in r <==> !OnOrBeforeCycle(services, names, n)
  {
    if n in r {
      forall p | IsPath(services, names, p) && p[0] == n
        ensures NoDup(p)
      {
        forall i, j | 0 <= i < j < |p|
          ensures p[i] != p[j]
        {
          var at := PathDescends(services, names, r, p, j);
          assert p[j] in r[..at + 1] by { assert r[..at + 1][at] == p[j]; }
        }
      }
    } else {
      var p := StuckPath(services, names, r, n, |names|);
      Pigeonhole(p, names);
    }
  }

  // ---------------------------------------------------------------- the sort itself

  /** The number of elements, counted one by one. */
  ghost function Size(s: set<Name>): nat {
    if s == {} then 0 else var x :| x in s; 1 + Size(s - {x})
  }

  lemma {:induction false} SizeIsCard(s: set<Name>)
    ensures Size(s) == |s|
  {
    if s != {} {
      var x :| x in s && Size(s) == 1 + Size(s - {x});
      SizeIsCard(s - {x});
    }
  }

  function Dependents(deps: map<Name, seq<Name>>, d: Name): seq<Name> {
    if d in deps then deps[d] else []
  }

  /** The names in `counted` that depend on `d`. */
  ghost function Needing(services: Services, names: set<Name>, counted: set<Name>, d: Name): set<Name> {
    set m <- counted | d in SelectedDeps(services, names, m)
  }

  /** `deps` lists, once each, the dependents among `counted`. */
  ghost predicate DepsListed(services: Services, names: set<Name>, counted: set<Name>, deps: map<Name, seq<Name>>) {
    forall d :: NoDup(Dependents(deps, d)) && Elements(Dependents(deps, d)) == Needing(services, names, counted, d)
  }

  /** The same while `n` is being counted: so far it is listed under the names in `part`. */
  ghost predicate DepsInv(services: Services, names: set<Name>, counted: set<Name>, n: Name,
      part: set<Name>, deps: map<Name, seq<Name>>)
  {
    forall d :: NoDup(Dependents(deps, d))
                && Elements(Dependents(deps, d)) == Needing(services, names, counted, d) + if d in part then {n} else {}
  }

  /** Every selected dependency of `counted` is counted once in both maps. */
  ghost predicate Counted(services: Services, names: set<Name>, counted: set<Name>,
      inDegree: map<Name, nat>, deps: map<Name, seq<Name>>)
  {
    && inDegree.Keys == names
    && (forall m <- names :: inDegree[m] == if m in counted then Size(SelectedDeps(services, names, m)) else 0)
    && DepsListed(services, names, counted, deps)
  }

  lemma {:induction false} Snoc(q: seq<Name>, x: Name)
    requires NoDup(q) && x !in Elements(q)
    ensures NoDup(q + [x]) && Elements(q + [x]) == Elements(q) + {x}
  {
  }

  lemma {:induction false} AppendDependent(services: Services, names: set<Name>, counted: set<Name>, n: Name,
      part: set<Name>, deps: map<Name, seq<Name>>, dep: Name)
    requires DepsInv(services, names, counted, n, part, deps)
    requires n !in counted && dep !in part
    ensures DepsInv(services, names, counted, n, part + {dep}, deps[dep := Dependents(deps, dep) + [n]])
  {
    Snoc(Dependents(deps, dep), n);
    var deps' := deps[dep := Dependents(deps, dep) + [n]];
    forall d
      ensures NoDup(Dependents(deps', d))
      ensures Elements(Dependents(deps', d)) == Needing(services, names, counted, d) + if d in part + {dep} then {n} else {}
    {
      assert NoDup(Dependents(deps, d));
    }
  }

  lemma {:induction false} TakeOne(all: set<Name>, rest: set<Name>, d: Name)
    requires d in rest
    ensures d in all ==> all - (rest - {d}) == (all - rest) + {d} && Size(all - (rest - {d})) == Size(all - rest) + 1
    ensures d !in all ==> all - (rest - {d}) == all - rest
  {
    assert d in all ==> all - (rest - {d}) == (all - rest) + {d};
    SizeIsCard(all - rest);
    SizeIsCard(all - (rest - {d}));
    assert d !in all ==> all - (rest - {d}) == all - rest;
  }

  lemma {:induction false} DepsDone(services: Services, names: set<Name>, counted: set<Name>, n: Name, deps: map<Name, seq<Name>>)
    requires DepsInv(services, names, counted, n, SelectedDeps(services, names, n), deps)
    ensures DepsListed(services, names, counted + {n}, deps)
  {
    forall d
      ensures NoDup(Dependents(deps, d)) && Elements(Dependents(deps, d)) == Needing(services, names, counted + {n}, d)
    {
      assert NoDup(Dependents(deps, d));
    }
  }

  method CountEdges(services: Services, names: set<Name>, n: Name, ghost counted: set<Name>,
      degree0: nat, deps0: map<Name, seq<Name>>)
    returns (degree: nat, deps: map<Name, seq<Name>>)
    requires DepsListed(services, names, counted, deps0) && n !in counted && degree0 == 0
    ensures degree == Size(SelectedDeps(services, names, n))
    ensures DepsListed(services, names, counted + {n}, deps)
  {
    degree, deps := degree0, deps0;
    ghost var all := SelectedDeps(services, names, n);
    var rest := Deps(services, n);
    assert all - rest == {} && DepsInv(services, names, counted, n, {}, deps);
    while rest != {}
      invariant rest <= Deps(services, n)
      invariant degree == Size(all - rest)
      invariant DepsInv(services, names, counted, n, all - rest, deps)
      decreases rest
    {
      var dep :| dep in rest;
      TakeOne(all, rest, dep);
      if dep in names {
        AppendDependent(services, names, counted, n, all - rest, deps, dep);
        deps := deps[dep := Dependents(deps, dep) + [n]];
        degree := degree + 1;
      }
      rest := rest - {dep};
    }
    assert all - rest == all;
    DepsDone(services, names, counted, n, deps);
  }

  lemma {:induction false} CountedMore(services: Services, names: set<Name>, counted: set<Name>, n: Name,
      inDegree: map<Name, nat>, deps: map<Name, seq<Name>>, deps': map<Name, seq<Name>>)
    requires Counted(services, names, counted, inDegree, deps) && n in names
    requires DepsListed(services, names, counted + {n}, deps')
    ensures Counted(services, names, counted + {n}, inDegree[n := Size(SelectedDeps(services, names, n))], deps')
  {
  }

  /** The inner loop: the edges of one name. */
  method CountDependenciesOf(services: Services, names: set<Name>, n: Name, ghost counted: set<Name>,
      inDegree0: map<Name, nat>, deps0: map<Name, seq<Name>>)
    returns (inDegree: map<Name, nat>, deps: map<Name, seq<Name>>)
    requires Counted(services, names, counted, inDegree0, deps0) && n in names && n !in counted
    ensures Counted(services, names, counted + {n}, inDegree, deps)
  {
    var degree;
    degree, deps := CountEdges(services, names, n, counted, inDegree0[n], deps0);
    CountedMore(services, names, counted, n, inDegree0, deps0, deps);
    inDegree := inDegree0[n := degree];
  }

  method CountDependencies(services: Services, names: set<Name>)
    returns (inDegree: map<Name, nat>, deps: map<Name, seq<Name>>)
    ensures Counted(services, names, names, inDegree, deps)
  {
    inDegree := map n | n in names :: 0;
    deps := map[];
    var todo := names;
    ghost var counted: set<Name> := {};
    while todo != {}
      invariant todo <= names && counted == names - todo
      invariant Counted(services, names, counted, inDegree, deps)
      decreases todo
    {
      var n :| n in todo;
      inDegree, deps := CountDependenciesOf(services, names, n, counted, inDegree, deps);
      todo := todo - {n};
      counted := counted + {n};
    }
    assert counted == names;
  }

  // ---------------------------------------------------------------- the queue

  /** `inDegree` counts the dependencies not emitted yet. */
  ghost predicate Pending(services: Services, names: set<Name>, done: set<Name>, inDegree: map<Name, nat>) {
    inDegree.Keys == names && forall m <- names :: inDegree[m] == Size(SelectedDeps(services, names, m) - done)
  }

  ghost function ReadySet(services: Services, names: set<Name>, done: set<Name>): set<Name> {
    set m <- names | Ready(services, names, done, m)
  }

  lemma {:induction false} NoneLeft(services: Services, names: set<Name>, done: set<Name>, m: Name)
    ensures Size(SelectedDeps(services, names, m) - done) == 0 <==> SelectedDeps(services, names, m) <= done
  {
    var left := SelectedDeps(services, names, m) - done;
    SizeIsCard(left);
    assert SelectedDeps(services, names, m) <= done <==> left == {} by {
      if left == {} {
        forall d | d in SelectedDeps(services, names, m)
          ensures d in done
        {
          assert d !in left;
        }
      }
    }
  }

  /** Emitting `n` lowers the count of exactly the names that depend on it. */
  lemma {:induction false} EmitLowers(services: Services, names: set<Name>, done: set<Name>, n: Name, m: Name)
    requires n !in done
    ensures Size(SelectedDeps(services, names, m) - (done + {n})) ==
            Size(SelectedDeps(services, names, m) - done) - if n in SelectedDeps(services, names, m) then 1 else 0
  {
    var before := SelectedDeps(services, names, m) - done;
    var after := SelectedDeps(services, names, m) - (done + {n});
    SizeIsCard(before);
    SizeIsCard(after);
    if n in SelectedDeps(services, names, m) {
      assert after == before - {n} && n in before;
    } else {
      assert after == before;
    }
  }

  /** The dependents `seen` so far that the emission of `n` made ready. */
  ghost function Freed(services: Services, names: set<Name>, done: set<Name>, n: Name, seen: set<Name>): set<Name> {
    set m <- seen | SelectedDeps(services, names, m) <= done + {n}
  }

  lemma {:induction false} ReadyAfter(services: Services, names: set<Name>, done: set<Name>, n: Name)
    requires Ready(services, names, done, n) && forall m <- done :: SelectedDeps(services, names, m) <= done
    ensures ReadySet(services, names, done + {n})
            == (ReadySet(services, names, done) - {n})
               + Freed(services, names, done, n, Needing(services, names, names, n))
  {
    var needing := Needing(services, names, names, n);
    forall m
      ensures m in ReadySet(services, names, done + {n}) <==>
                m in (ReadySet(services, names, done) - {n}) + Freed(services, names, done, n, needing)
    {
      assert m in needing <==> m in names && n in SelectedDeps(services, names, m);
      assert m in needing ==> m !in done + {n};
      assert m !in needing && m in names ==>
               (SelectedDeps(services, names, m) <= done + {n} <==> SelectedDeps(services, names, m) <= done);
    }
  }

  /** Emitted names had all their dependencies emitted before. */
  ghost predicate Closed(services: Services, names: set<Name>, done: set<Name>) {
    forall m <- done :: m in names && SelectedDeps(services, names, m) <= done
  }

  lemma {:induction false} PendingAfter(services: Services, names: set<Name>, done: set<Name>, n: Name,
      inDegree0: map<Name, nat>, inDegree: map<Name, nat>)
    requires Pending(services, names, done, inDegree0) && n !in done && inDegree.Keys == names
    requires forall m <- names ::
               inDegree0[m] == inDegree[m] + if m in Needing(services, names, names, n) then 1 else 0
    ensures Pending(services, names, done + {n}, inDegree)
  {
    forall m | m in names
      ensures inDegree[m] == Size(SelectedDeps(services, names, m) - (done + {n}))
    {
      EmitLowers(services, names, done, n, m);
    }
  }

  lemma {:induction false} NextDependent(ds: seq<Name>, k: nat)
    requires NoDup(ds) && k < |ds|
    ensures ds[k] in Elements(ds) && ds[k] !in Elements(ds[..k])
    ensures Elements(ds[..k + 1]) == Elements(ds[..k]) + {ds[k]}
  {
    assert ds[..k + 1] == ds[..k] + [ds[k]];
  }

  /** What the loop knows about the dependent `m` when its turn comes. */
  lemma {:induction false} DependentTurn(services: Services, names: set<Name>, done: set<Name>, n: Name, seen: set<Name>, m: Name,
      inDegree0: map<Name, nat>)
    requires m !in seen && m in Needing(services, names, names, n) && n !in done && Pending(services, names, done, inDegree0)
    ensures m in names && inDegree0[m] > 0
    ensures inDegree0[m] == 1 <==> SelectedDeps(services, names, m) <= done + {n}
    ensures m !in ReadySet(services, names, done) && m !in Freed(services, names, done, n, seen)
    ensures Freed(services, names, done, n, seen + {m}) ==
            if SelectedDeps(services, names, m) <= done + {n}
            then Freed(services, names, done, n, seen) + {m} else Freed(services, names, done, n, seen)
  {
    EmitLowers(services, names, done, n, m);
    NoneLeft(services, names, done + {n}, m);
  }

  /** The counters of the dependents `seen` so far are one lower. */
  ghost predicate Lowered(names: set<Name>, inDegree0: map<Name, nat>, inDegree: map<Name, nat>, seen: set<Name>) {
    && inDegree0.Keys == names && inDegree.Keys == names
    && forall m <- names :: inDegree0[m] == inDegree[m] + if m in seen then 1 else 0
  }

  lemma {:induction false} LowerOne(names: set<Name>, inDegree0: map<Name, nat>, inDegree: map<Name, nat>, seen: set<Name>, m: Name)
    requires Lowered(names, inDegree0, inDegree, seen) && m in names && m !in seen && inDegree0[m] > 0
    ensures inDegree[m] == inDegree0[m] && Lowered(names, inDegree0, inDegree[m := (inDegree[m] - 1) as nat], seen + {m})
  {
  }

  /** The loop over the dependents of an emitted name. */
  method Release(services: Services, names: set<Name>, ghost done: set<Name>, n: Name,
      deps: map<Name, seq<Name>>, inDegree0: map<Name, nat>, queue0: seq<Name>)
    returns (inDegree: map<Name, nat>, queue: seq<Name>)
    requires Ready(services, names, done, n) && Closed(services, names, done)
    requires Pending(services, names, done, inDegree0) && DepsListed(services, names, names, deps)
    requires NoDup(queue0) && Elements(queue0) == ReadySet(services, names, done) - {n}
    ensures Pending(services, names, done + {n}, inDegree)
    ensures NoDup(queue) && Elements(queue) == ReadySet(services, names, done + {n})
  {
    inDegree, queue := inDegree0, queue0;
    var ds := Dependents(deps, n);
    assert NoDup(ds) && Elements(ds) == Needing(services, names, names, n);
    ghost var seen: set<Name> := {};
    for k := 0 to |ds|
      invariant seen == Elements(ds[..k]) && Lowered(names, inDegree0, inDegree, seen)
      invariant NoDup(queue)
      invariant Elements(queue) == Elements(queue0) + Freed(services, names, done, n, seen)
    {
      var m := ds[k];
      NextDependent(ds, k);
      DependentTurn(services, names, done, n, seen, m, inDegree0);
      LowerOne(names, inDegree0, inDegree, seen, m);
      inDegree := inDegree[m := inDegree[m] - 1];
      if inDegree[m] == 0 {
        Snoc(queue, m);
        queue := queue + [m];
      }
      seen := seen + {m};
    }
    assert ds[..|ds|] == ds;
    PendingAfter(services, names, done, n, inDegree0, inDegree);
    ReadyAfter(services, names, done, n);
  }

  lemma {:induction false} KahnExtend(services: Services, names: set<Name>, r: seq<Name>, n: Name)
    requires KahnSoFar(services, names, r) && Ready(services, names, Elements(r), n)
    requires forall m :: Ready(services, names, Elements(r), m) ==> Leq(n, m)
    ensures KahnSoFar(services, names, r + [n]) && Elements(r + [n]) == Elements(r) + {n}
  {
    var r' := r + [n];
    assert r'[..|r|] == r;
    forall i | 0 <= i < |r'|
      ensures Ready(services, names, Elements(r'[..i]), r'[i])
      ensures forall m :: Ready(services, names, Elements(r'[..i]), m) ==> Leq(r'[i], m)
    {
      if i < |r| {
        assert r'[..i] == r[..i];
      }
    }
  }

  lemma {:induction false} EmittedAreNames(services: Services, names: set<Name>, r: seq<Name>)
    requires KahnSoFar(services, names, r)
    ensures NoDup(r) && Elements(r) <= names
  {
    forall i, j | 0 <= i < j < |r|
      ensures r[i] != r[j]
    {
      assert Ready(services, names, Elements(r[..j]), r[j]) && r[..j][i] == r[i];
    }
    forall x | x in r
      ensures x in names
    {
      var i :| 0 <= i < |r| && r[i] == x;
      assert Ready(services, names, Elements(r[..i]), r[i]);
    }
  }

  /** The names without selected dependencies. */
  method InitialQueue(services: Services, names: set<Name>, inDegree: map<Name, nat>) returns (queue: seq<Name>)
    requires Pending(services, names, {}, inDegree)
    ensures NoDup(queue) && Elements(queue) == ReadySet(services, names, {})
  {
    queue := [];
    var todo := names;
    while todo != {}
      invariant todo <= names && NoDup(queue)
      invariant Elements(queue) == ReadySet(services, names, {}) - todo
      decreases todo
    {
      var n :| n in todo;
      todo := todo - {n};
      NoneLeft(services, names, {}, n);
      if inDegree[n] == 0 {
        Snoc(queue, n);
        queue := queue + [n];
      }
    }
  }

  lemma {:induction false} HeadIsLeast(services: Services, names: set<Name>, done: set<Name>, queue: seq<Name>)
    requires queue != [] && InOrder(queue) && NoDup(queue) && Elements(queue) == ReadySet(services, names, done)
    ensures Ready(services, names, done, queue[0])
    ensures forall m :: Ready(services, names, done, m) ==> Leq(queue[0], m)
    ensures NoDup(queue[1..]) && Elements(queue[1..]) == ReadySet(services, names, done) - {queue[0]}
  {
    assert queue[0] in Elements(queue);
    LeqTotal(queue[0], queue[0]);
    forall m | Ready(services, names, done, m)
      ensures Leq(queue[0], m)
    {
      assert m in Elements(queue);
      var i :| 0 <= i < |queue| && queue[i] == m;
    }
    assert queue == [queue[0]] + queue[1..];
  }

  method KahnQueue(services: Services, names: set<Name>) returns (result: seq<Name>)
    ensures KahnOrder(services, names, result)
  {
    var inDegree, deps := CountDependencies(services, names);
    ghost var done: set<Name> := {};
    assert Pending(services, names, done, inDegree) by {
      assert forall m <- names :: SelectedDeps(services, names, m) - done == SelectedDeps(services, names, m);
    }
    var queue := InitialQueue(services, names, inDegree);
    SortNoDup(queue);
    assert Elements(Sort(queue)) == Elements(queue);
    queue := Sort(queue);
    result := [];
    while queue != []
      invariant KahnSoFar(services, names, result) && done == Elements(result) && Closed(services, names, done)
      invariant Pending(services, names, done, inDegree)
      invariant InOrder(queue) && NoDup(queue) && Elements(queue) == ReadySet(services, names, done)
      decreases names - done
    {
      var n := queue[0];
      HeadIsLeast(services, names, done, queue);
      queue := queue[1..];
      KahnExtend(services, names, result, n);
      result := result + [n];
      inDegree, queue := Release(services, names, done, n, deps, inDegree, queue);
      done := done + {n};
      SortNoDup(queue);
      assert Elements(Sort(queue)) == Elements(queue);
      queue := Sort(queue);
    }
    forall n
      ensures !Ready(services, names, done, n)
    {
      assert n !in ReadySet(services, names, done);
    }
  }

  /** The whole operation: each selected name exactly once, first the queue's part in Kahn's
      order, then the names that lie on or depend on a cycle in some order. */
  method SortByDependencies(services: Services, filter: Name) returns (result: seq<Name>)
    ensures forall n :: n in result <==> Selected(services, filter, n)
    ensures NoDup(result)
    ensures exists k ::
              && 0 <= k <= |result| && KahnOrder(services, Elements(result), result[..k])
              && forall n <- result :: n in result[k..] <==> OnOrBeforeCycle(services, Elements(result), n)
  {
    var names := SelectNames(services, filter);
    result := KahnQueue(services, names);
    ghost var queued := result;
    EmittedAreNames(services, names, queued);
    var todo := names;
    while todo != {}
      invariant todo <= names && queued <= result && NoDup(result)
      invariant forall x :: x in result <==> x in queued || x in names - todo
      decreases todo
    {
      var n :| n in todo;
      todo := todo - {n};
      if n !in result {
        result := result + [n];
      }
    }
    assert Elements(result) == names;
    QueuedThenCyclic(services, names, queued, result);
  }

  lemma {:induction false} QueuedThenCyclic(services: Services, names: set<Name>, queued: seq<Name>, result: seq<Name>)
    requires KahnOrder(services, names, queued) && queued <= result && NoDup(result) && Elements(result) == names
    ensures KahnOrder(services, names, result[..|queued|])
    ensures forall n <- result :: n in result[|queued|..] <==> OnOrBeforeCycle(services, names, n)
  {
    var k := |queued|;
    assert result[..k] == queued && result == queued + result[k..];
    forall n | n in result
      ensures n in result[k..] <==> OnOrBeforeCycle(services, names, n)
    {
      EmittedIffAcyclic(services, names, queued, n);
    }
  }
}
