/** Dependency ordering of IDL structs: topo_sort_structs
    (src/libs/CycloneDDS/generate_dds_json_helpers.py). Field types are given by their
    base name (sequence element, last component). */
module TopoSort {
  type Name = string

  datatype StructDecl = StructDecl(name: Name, fields: seq<Name>)

  datatype ModuleData = ModuleData(name: string, structs: seq<StructDecl>)

  /** deps: an edge n -> d for every struct d that n uses in a field. */
  type Graph = map<Name, set<Name>>

  /** deps.get(n, set()) */
  function Deps(g: Graph, n: Name): set<Name> { if n in g then g[n] else {} }

  // ---- paths ----

  ghost predicate IsPath(g: Graph, p: seq<Name>) {
    |p| > 0 && forall i :: 0 <= i < |p| - 1 ==> p[i + 1] in Deps(g, p[i])
  }

  /** There is a path of at least one edge. */
  ghost predicate Reaches(g: Graph, x: Name, y: Name) {
    exists p: seq<Name> :: IsPath(g, p) && |p| > 1 && p[0] == x && p[|p| - 1] == y
  }

  ghost predicate Acyclic(g: Graph) { forall x :: !Reaches(g, x, x) }

  lemma EdgeReaches(g: Graph, x: Name, y: Name)
    requires y in Deps(g, x)
    ensures Reaches(g, x, y)
  {
    assert IsPath(g, [x, y]);
  }

  lemma ReachesFurther(g: Graph, x: Name, y: Name, z: Name)
    requires Reaches(g, x, y) && z in Deps(g, y)
    ensures Reaches(g, x, z)
  {
    var p: seq<Name> :| IsPath(g, p) && |p| > 1 && p[0] == x && p[|p| - 1] == y;
    assert IsPath(g, p + [z]);
  }

  // ---- orders ----

  predicate Distinct(s: seq<Name>) { forall i, j :: 0 <= i < j < |s| ==> s[i] != s[j] }

  function Elements(s: seq<Name>): (r: set<Name>)
    ensures forall x :: x in r <==> x in s
  {
    set x | x in s
  }

  /** Every struct stands after everything it depends on. */
  ghost predicate DependenciesFirst(g: Graph, order: seq<Name>) {
    forall i, d :: 0 <= i < |order| && d in Deps(g, order[i]) ==> d in order[..i]
  }

  /** Every struct stands after everything it depends on, except what depends on it in turn. */
  ghost predicate OnlyCyclesBreakOrder(g: Graph, order: seq<Name>) {
    forall i, d :: 0 <= i < |order| && d in Deps(g, order[i]) && !Reaches(g, d, order[i]) ==> d in order[..i]
  }

  lemma AppendKeeps(g: Graph, order: seq<Name>, n: Name)
    requires OnlyCyclesBreakOrder(g, order) && Distinct(order) && n !in order
    requires forall d :: d in Deps(g, n) ==> d in order || Reaches(g, d, n)
    ensures Distinct(order + [n]) && OnlyCyclesBreakOrder(g, order + [n])
  {
    var r := order + [n];
    forall i, d | 0 <= i < |r| && d in Deps(g, r[i]) && !Reaches(g, d, r[i])
      ensures d in r[..i]
    {
      if i < |order| {
        assert d in order[..i] && r[..i] == order[..i];
      } else {
        assert r[..i] == order;
      }
    }
  }

  /** Without cycles there is no exception. */
  lemma AcyclicOrder(g: Graph, order: seq<Name>)
    requires OnlyCyclesBreakOrder(g, order) && Acyclic(g)
    ensures DependenciesFirst(g, order)
  {
    forall i, d | 0 <= i < |order| && d in Deps(g, order[i])
      ensures d in order[..i]
    {
      if Reaches(g, d, order[i]) { ReachesFurther(g, d, order[i], d); }
    }
  }

  /** Along a path, positions in such an order go down. */
  lemma {:induction false} PathDescends(g: Graph, order: seq<Name>, p: seq<Name>, i: nat) returns (j: nat)
    requires DependenciesFirst(g, order) && IsPath(g, p) && i < |order| && order[i] == p[0]
    ensures j < |order| && order[j] == p[|p| - 1] && j + (|p| - 1) <= i
    decreases |p|
  {
    if |p| == 1 {
      j := i;
    } else {
      assert p[0 + 1] in Deps(g, p[0]);
      assert p[1] in order[..i];
      var k :| 0 <= k < i && order[k] == p[1];
      assert IsPath(g, p[1..]) by {
        forall m | 0 <= m < |p[1..]| - 1 ensures p[1..][m + 1] in Deps(g, p[1..][m]) {
          assert p[m + 1 + 1] in Deps(g, p[m + 1]);
        }
      }
      j := PathDescends(g, order, p[1..], k);
    }
  }

  /** A dependency-first order of everything that has dependencies exists only if there is no cycle. */
  lemma OrderImpliesAcyclic(g: Graph, order: seq<Name>)
    requires Distinct(order) && DependenciesFirst(g, order) && g.Keys <= Elements(order)
    ensures Acyclic(g)
  {
    forall x ensures !Reaches(g, x, x) {
      if Reaches(g, x, x) {
        var p: seq<Name> :| IsPath(g, p) && |p| > 1 && p[0] == x && p[|p| - 1] == x;
        assert p[0 + 1] in Deps(g, p[0]);
        var i :| 0 <= i < |order| && order[i] == x;
        var j := PathDescends(g, order, p, i);
        assert false;
      }
    }
  }

  // ---- the depth-first search ----

  /** Visited but not yet emitted: the structs on the recursion stack. */
  function Open(visited: set<Name>, order: seq<Name>): set<Name> { visited - Elements(order) }

  class Sorter {
    const deps: Graph
    var visited: set<Name>
    var order: seq<Name>

    constructor (deps: Graph)
      ensures this.deps == deps && visited == {} && order == []
    {
      this.deps := deps;
      visited := {};
      order := [];
    }

    /** What every step keeps: nothing is emitted twice or unvisited, everything stays in the
        closed universe, and dependencies come first unless a cycle leads back. */
    ghost predicate Valid(universe: set<Name>)
      reads this
    {
      && (forall n :: n in universe ==> Deps(deps, n) <= universe)
      && Distinct(order) && Elements(order) <= visited <= universe
      && (forall n :: n in order ==> Deps(deps, n) <= visited)
      && OnlyCyclesBreakOrder(deps, order)
    }

    /** Terminates on every graph, cyclic or not: the unvisited part of the universe shrinks.
        Extends the order, leaves the open structs as they were, and emits name unless it was
        visited before. */
    method Visit(name: Name, ghost universe: set<Name>)
      requires Valid(universe) && name in universe
      requires forall g :: g in Open(visited, order) ==> Reaches(deps, g, name)
      modifies this
      ensures Valid(universe)
      ensures old(visited) <= visited && name in visited
      ensures old(order) <= order && Open(visited, order) == Open(old(visited), old(order))
      decreases universe - visited
    {
      if name in visited { return; }
      visited := visited + {name};
      assert Open(visited, order) == Open(old(visited), order) + {name};
      var todo := Deps(deps, name);
      while todo != {}
        invariant Valid(universe) && todo <= Deps(deps, name)
        invariant old(visited) + {name} <= visited && name !in order
        invariant old(order) <= order && Open(visited, order) == Open(old(visited), old(order)) + {name}
        invariant Deps(deps, name) - todo <= visited
        invariant forall d :: d in Deps(deps, name) - todo ==> d in order || Reaches(deps, d, name)
        decreases todo
      {
        var dep :| dep in todo;
        EdgeReaches(deps, name, dep);
        forall g | g in Open(visited, order)
          ensures Reaches(deps, g, dep)
        {
          if g != name { ReachesFurther(deps, g, name, dep); }
        }
        ghost var before := order;
        Visit(dep, universe);
        assert Elements(before) <= Elements(order);
        if dep !in order { assert dep in Open(visited, order); }
        todo := todo - {dep};
      }
      AppendKeeps(deps, order, name);
      order := order + [name];
    }
  }

  // ---- the whole function ----

  datatype Entry = Entry(moduleName: string, decl: StructDecl)

  /** struct_info (a dict: keys in order of first insertion) and deps. */
  datatype Tables = Tables(keys: seq<Name>, info: map<Name, Entry>, deps: Graph)

  /** The structs that a declaration uses, other than itself. */
  function FieldDeps(d: StructDecl, allStructs: set<Name>): set<Name> {
    set b | b in d.fields && b in allStructs && b != d.name
  }

  function Added(t: Tables, e: Entry, allStructs: set<Name>): Tables {
    var n := e.decl.name;
    Tables(if n in t.info then t.keys else t.keys + [n], t.info[n := e], t.deps[n := FieldDeps(e.decl, allStructs)])
  }

  function EntriesOf(m: ModuleData): seq<Entry> {
    seq(|m.structs|, i requires 0 <= i < |m.structs| => Entry(m.name, m.structs[i]))
  }

  /** All declarations in the order of the files. */
  function AllEntries(allData: seq<ModuleData>): seq<Entry> {
    if allData == [] then [] else AllEntries(allData[..|allData| - 1]) + EntriesOf(allData[|allData| - 1])
  }

  function DeclaredNames(es: seq<Entry>): set<Name> { set e | e in es :: e.decl.name }

  /** Both dicts after the given declarations. */
  function TablesOf(es: seq<Entry>, allStructs: set<Name>): Tables {
    if es == [] then Tables([], map[], map[])
    else Added(TablesOf(es[..|es| - 1], allStructs), es[|es| - 1], allStructs)
  }

  /** Some field of the struct, at whatever place, is of this type. */
  ghost predicate IsField(d: StructDecl, b: Name) { exists k :: 0 <= k < |d.fields| && d.fields[k] == b }

  /** keys lists the registered names once each; each has the dependencies of the declaration
      that it is registered with. */
  ghost predicate TablesOk(t: Tables, allStructs: set<Name>) {
    && Distinct(t.keys) && Elements(t.keys) == t.info.Keys == t.deps.Keys
    && forall n :: n in t.info ==>
         && t.info[n].decl.name == n
         && forall b :: b in t.deps[n] <==> b in allStructs && b != n && IsField(t.info[n].decl, b)
  }

  lemma FieldsOf(d: StructDecl)
    ensures forall b :: IsField(d, b) <==> b in d.fields
  {
  }

  lemma FieldDepsAre(d: StructDecl, allStructs: set<Name>)
    ensures forall b :: b in FieldDeps(d, allStructs) <==> b in allStructs && b != d.name && IsField(d, b)
  {
    FieldsOf(d);
  }

  lemma AddedOk(t: Tables, e: Entry, allStructs: set<Name>)
    requires TablesOk(t, allStructs)
    ensures var r := Added(t, e, allStructs);
            TablesOk(r, allStructs) && r.info.Keys == t.info.Keys + {e.decl.name}
  {
    hide FieldDeps, IsField;
    FieldDepsAre(e.decl, allStructs);
    var r, n := Added(t, e, allStructs), e.decl.name;
    assert r.info.Keys == t.info.Keys + {n} && r.deps.Keys == t.deps.Keys + {n};
    assert Elements(t.keys + [n]) == Elements(t.keys) + {n};
    if n in t.info {
      assert t.info.Keys + {n} == t.info.Keys;
    } else {
      assert n !in t.keys;
    }
  }

  ghost predicate DeclaredBefore(es: seq<Entry>, n: Name, before: nat) {
    exists i :: 0 <= i < before && i < |es| && es[i].decl.name == n
  }

  lemma DeclaredStep(es: seq<Entry>, n: Name)
    requires es != []
    ensures var init := es[..|es| - 1];
            DeclaredBefore(es, n, |es|) <==> DeclaredBefore(init, n, |init|) || es[|es| - 1].decl.name == n
  {
    var init := es[..|es| - 1];
    if DeclaredBefore(init, n, |init|) {
      var i :| 0 <= i < |init| && init[i].decl.name == n;
      assert es[i] == init[i];
    }
  }

  lemma NoTables(allStructs: set<Name>)
    ensures TablesOk(TablesOf([], allStructs), allStructs)
    ensures forall n :: !DeclaredBefore([], n, 0)
  {
  }

  /** Every declared struct is registered, and nothing else. */
  lemma {:induction false} TablesOfOk(es: seq<Entry>, allStructs: set<Name>)
    ensures var t := TablesOf(es, allStructs);
            TablesOk(t, allStructs) && forall n :: n in t.info <==> DeclaredBefore(es, n, |es|)
  {
    hide FieldDeps, Added, TablesOk, DeclaredBefore;
    if es == [] {
      NoTables(allStructs);
    } else {
      TablesOfOk(es[..|es| - 1], allStructs);
      AddedOk(TablesOf(es[..|es| - 1], allStructs), es[|es| - 1], allStructs);
      forall n { DeclaredStep(es, n); }
    }
  }

  /** The declaration at i is the last one of its name. */
  ghost predicate IsLast(es: seq<Entry>, i: nat) {
    i < |es| && forall j :: i < j < |es| ==> es[j].decl.name != es[i].decl.name
  }

  /** A name declared again is registered with its last declaration. */
  lemma {:induction false} LastDeclarationWins(es: seq<Entry>, i: nat, allStructs: set<Name>)
    requires IsLast(es, i)
    ensures var t, n := TablesOf(es, allStructs), es[i].decl.name;
            && n in t.info && t.info[n] == es[i] && n in t.deps
            && forall b :: b in t.deps[n] <==> b in allStructs && b != n && IsField(es[i].decl, b)
  {
    if i == |es| - 1 {
    } else {
      var init := es[..|es| - 1];
      assert IsLast(init, i);
      LastDeclarationWins(init, i, allStructs);
    }
  }

  lemma TablesKeys(t: Tables, allStructs: set<Name>)
    requires TablesOk(t, allStructs)
    ensures Distinct(t.keys) && forall n :: n in t.keys <==> n in t.info
  {
    assert forall n :: n in t.keys <==> n in Elements(t.keys);
  }

  /** Names keep the place of their first declaration: whatever stands before a name among the
      keys was declared before every declaration of that name. */
  lemma {:induction false} KeysInDeclarationOrder(es: seq<Entry>, i: nat, j: nat, at: nat, allStructs: set<Name>)
    requires i < j < |TablesOf(es, allStructs).keys|
    requires at < |es| && es[at].decl.name == TablesOf(es, allStructs).keys[j]
    ensures DeclaredBefore(es, TablesOf(es, allStructs).keys[i], at)
  {
    hide FieldDeps, TablesOk;
    var init, keys := es[..|es| - 1], TablesOf(es, allStructs).keys;
    TablesOfOk(init, allStructs);
    TablesKeys(TablesOf(init, allStructs), allStructs);
    assert forall k :: 0 <= k < |init| ==> init[k] == es[k];
    if at < |init| {
      assert keys[j] in TablesOf(init, allStructs).info;
      assert j < |TablesOf(init, allStructs).keys| by {
        TablesOfOk(es, allStructs);
        TablesKeys(TablesOf(es, allStructs), allStructs);
      }
      KeysInDeclarationOrder(init, i, j, at, allStructs);
    } else {
      assert keys[i] in TablesOf(init, allStructs).keys;
    }
  }

  lemma NoEntries(allStructs: set<Name>)
    ensures AllEntries([]) == [] && TablesOf([], allStructs) == Tables([], map[], map[])
  {
  }

  lemma TablesStep(es: seq<Entry>, e: Entry, allStructs: set<Name>)
    ensures TablesOf(es + [e], allStructs) == Added(TablesOf(es, allStructs), e, allStructs)
  {
    assert (es + [e])[..|es|] == es;
  }

  lemma EntriesStep(allData: seq<ModuleData>, i: nat)
    requires i < |allData|
    ensures AllEntries(allData[..i + 1]) == AllEntries(allData[..i]) + EntriesOf(allData[i])
  {
    assert allData[..i + 1][..i] == allData[..i];
  }

  method CollectDeps(decl: StructDecl, allStructs: set<Name>) returns (fieldDeps: set<Name>)
    ensures fieldDeps == FieldDeps(decl, allStructs)
  {
    fieldDeps := {};
    for k := 0 to |decl.fields|
      invariant fieldDeps == set b | b in decl.fields[..k] && b in allStructs && b != decl.name
    {
      var base := decl.fields[k];
      if base in allStructs && base != decl.name { fieldDeps := fieldDeps + {base}; }
    }
    assert decl.fields[..|decl.fields|] == decl.fields;
  }

  method BuildTables(allData: seq<ModuleData>, allStructs: set<Name>) returns (t: Tables)
    ensures t == TablesOf(AllEntries(allData), allStructs)
  {
    hide FieldDeps, AllEntries, TablesOf;
    var structInfo: map<Name, Entry>, deps: Graph := map[], map[];
    var keys: seq<Name> := [];
    ghost var earlier := [];
    NoEntries(allStructs);
    for i := 0 to |allData|
      invariant earlier == AllEntries(allData[..i])
      invariant Tables(keys, structInfo, deps) == TablesOf(earlier, allStructs)
    {
      var m := allData[i];
      ghost var es := EntriesOf(m);
      assert earlier + es[..0] == earlier;
      for j := 0 to |m.structs|
        invariant Tables(keys, structInfo, deps) == TablesOf(earlier + es[..j], allStructs)
      {
        var decl := m.structs[j];
        if decl.name !in structInfo { keys := keys + [decl.name]; }
        structInfo := structInfo[decl.name := Entry(m.name, decl)];
        var fieldDeps := CollectDeps(decl, allStructs);
        deps := deps[decl.name := fieldDeps];
        assert earlier + es[..j + 1] == (earlier + es[..j]) + [es[j]];
        TablesStep(earlier + es[..j], es[j], allStructs);
      }
      assert es[..|es|] == es;
      EntriesStep(allData, i);
      earlier := earlier + es;
    }
    assert allData[..|allData|] == allData;
    return Tables(keys, structInfo, deps);
  }

  /** Some registered struct depends on a name that is not registered. */
  ghost predicate Dangling(t: Tables) { exists n :: n in t.deps && !(t.deps[n] <= t.deps.Keys) }

  lemma FieldDepsKnown(t: Tables, allStructs: set<Name>)
    requires TablesOk(t, allStructs)
    ensures forall n :: n in t.deps ==> t.deps[n] <= allStructs
  {
  }

  /** When only declared names count as structs, every dependency is registered. */
  lemma NotDangling(es: seq<Entry>, allStructs: set<Name>)
    ensures allStructs <= DeclaredNames(es) ==> !Dangling(TablesOf(es, allStructs))
  {
    hide TablesOf;
    TablesOfOk(es, allStructs);
    FieldDepsKnown(TablesOf(es, allStructs), allStructs);
    forall n | n in DeclaredNames(es)
      ensures DeclaredBefore(es, n, |es|)
    {
      var e :| e in es && e.decl.name == n;
      var i :| 0 <= i < |es| && es[i] == e;
    }
  }

  lemma EmptyOrder(g: Graph)
    ensures OnlyCyclesBreakOrder(g, [])
  {
  }

  /** Runs the search from every registered struct, in dict order. */
  method SortAll(t: Tables, ghost allStructs: set<Name>) returns (order: seq<Name>)
    requires TablesOk(t, allStructs)
    ensures Distinct(order) && t.deps.Keys <= Elements(order)
    ensures Elements(order) <= t.deps.Keys <==> !Dangling(t)
    ensures OnlyCyclesBreakOrder(t.deps, order)
    ensures DependenciesFirst(t.deps, order) <==> Acyclic(t.deps)
  {
    hide Reaches, DependenciesFirst, OnlyCyclesBreakOrder, FieldDeps;
    var sorter := new Sorter(t.deps);
    ghost var universe := if Dangling(t) then t.deps.Keys + allStructs else t.deps.Keys;
    EmptyOrder(t.deps);
    assert forall n :: n in t.deps ==> t.deps[n] <= allStructs by { FieldDepsKnown(t, allStructs); }
    for i := 0 to |t.keys|
      invariant sorter.Valid(universe) && Open(sorter.visited, sorter.order) == {}
      invariant forall k :: 0 <= k < i ==> t.keys[k] in sorter.visited
    {
      sorter.Visit(t.keys[i], universe);
    }
    order := sorter.order;
    assert forall n :: n in t.deps.Keys ==> n in t.keys;
    assert Elements(order) == sorter.visited by {
      assert forall x :: x in sorter.visited && x !in order ==> x in Open(sorter.visited, order);
    }
    assert forall n :: n in order ==> Deps(t.deps, n) <= sorter.visited;
    if DependenciesFirst(t.deps, order) { OrderImpliesAcyclic(t.deps, order); }
    if Acyclic(t.deps) { AcyclicOrder(t.deps, order); }
  }

  /** A struct named by a field of the i-th declaration is declared before it, unless it is the
      same one or depends on it in turn. */
  ghost predicate FieldBefore(g: Graph, yielded: seq<Entry>, i: nat, b: Name, allStructs: set<Name>)
    requires i < |yielded|
  {
    b in allStructs && b != yielded[i].decl.name && !Reaches(g, b, yielded[i].decl.name) ==>
      exists j :: 0 <= j < i && yielded[j].decl.name == b
  }

  lemma FieldsBefore(t: Tables, order: seq<Name>, yielded: seq<Entry>, allStructs: set<Name>)
    requires TablesOk(t, allStructs) && OnlyCyclesBreakOrder(t.deps, order) && |yielded| == |order|
    requires forall i :: 0 <= i < |order| ==> order[i] in t.info && yielded[i] == t.info[order[i]]
    ensures forall i, k :: 0 <= i < |yielded| && 0 <= k < |yielded[i].decl.fields| ==>
              FieldBefore(t.deps, yielded, i, yielded[i].decl.fields[k], allStructs)
  {
    hide Reaches;
    forall i, k | 0 <= i < |yielded| && 0 <= k < |yielded[i].decl.fields|
      ensures FieldBefore(t.deps, yielded, i, yielded[i].decl.fields[k], allStructs)
    {
      var n, b := order[i], yielded[i].decl.fields[k];
      assert IsField(t.info[n].decl, b);
      if b in allStructs && b != n && !Reaches(t.deps, b, n) {
        assert b in t.deps[n] && b in Deps(t.deps, n);
        assert b in order[..i];
        var j :| 0 <= j < i && order[j] == b;
        assert yielded[j].decl.name == b;
      }
    }
  }

  lemma {:induction false} EntriesAre(allData: seq<ModuleData>, e: Entry)
    ensures e in AllEntries(allData) <==> exists m :: m in allData && m.name == e.moduleName && e.decl in m.structs
  {
    if allData == [] {
    } else {
      var init, last := allData[..|allData| - 1], allData[|allData| - 1];
      EntriesAre(init, e);
      assert allData == init + [last];
      if last.name == e.moduleName && e.decl in last.structs {
        var i :| 0 <= i < |last.structs| && last.structs[i] == e.decl;
        assert EntriesOf(last)[i] == e;
      }
    }
  }

  /** Registered entries are declarations with their module, the last of their name. */
  lemma {:induction false} InfoFromEntries(es: seq<Entry>, allStructs: set<Name>)
    ensures forall n :: n in TablesOf(es, allStructs).info ==> TablesOf(es, allStructs).info[n] in es
  {
    hide FieldDeps;
    if es == [] {
    } else {
      InfoFromEntries(es[..|es| - 1], allStructs);
    }
  }

  lemma EveryDeclaration(allData: seq<ModuleData>, allStructs: set<Name>)
    ensures var info := TablesOf(AllEntries(allData), allStructs).info;
            && (forall m, d :: m in allData && d in m.structs ==> d.name in info)
            && forall n :: n in info ==>
                 exists m :: m in allData && m.name == info[n].moduleName && info[n].decl in m.structs
  {
    hide TablesOf, AllEntries;
    var es := AllEntries(allData);
    TablesOfOk(es, allStructs);
    InfoFromEntries(es, allStructs);
    forall n | n in TablesOf(es, allStructs).info
      ensures exists m :: m in allData && m.name == TablesOf(es, allStructs).info[n].moduleName
                       && TablesOf(es, allStructs).info[n].decl in m.structs
    {
      EntriesAre(allData, TablesOf(es, allStructs).info[n]);
    }
    forall m, d | m in allData && d in m.structs
      ensures d.name in TablesOf(es, allStructs).info
    {
      EntriesAre(allData, Entry(m.name, d));
      var i :| 0 <= i < |es| && es[i] == Entry(m.name, d);
    }
  }

  /** The generator's result: the structs in order, and whether looking one up in struct_info
      fails on the way (a KeyError). */
  method TopoSortStructs(allData: seq<ModuleData>, allStructs: set<Name>)
    returns (order: seq<Name>, yielded: seq<Entry>, keyError: bool)
    ensures var t := TablesOf(AllEntries(allData), allStructs);
            // every registered struct once, on cyclic graphs too
            && Distinct(order) && t.info.Keys <= Elements(order)
            && (forall m, d :: m in allData && d in m.structs ==> d.name in order)
            && (forall e :: e in yielded ==>
                  exists m :: m in allData && m.name == e.moduleName && e.decl in m.structs)
            && (keyError <==> Dangling(t))
            // which cannot happen when only declared names count as structs
            && (allStructs <= DeclaredNames(AllEntries(allData)) ==> !keyError)
            && (!keyError ==> Elements(order) == t.info.Keys && |yielded| == |order|
                              && forall i :: 0 <= i < |order| ==> yielded[i] == t.info[order[i]])
            // a dependency comes later only where a cycle leads back from it, so everything is in
            // dependency order exactly when there is no cycle
            && OnlyCyclesBreakOrder(t.deps, order)
            && (DependenciesFirst(t.deps, order) <==> Acyclic(t.deps))
            // that is, of the declarations: every struct that a field of a struct names, at
            // whatever place among the fields, stands before it
            && (!keyError ==> forall i, k :: 0 <= i < |yielded| && 0 <= k < |yielded[i].decl.fields| ==>
                  FieldBefore(t.deps, yielded, i, yielded[i].decl.fields[k], allStructs))
  {
    hide TablesOf, DependenciesFirst, OnlyCyclesBreakOrder, Acyclic, Distinct, Dangling, DeclaredNames, FieldDeps,
         DeclaredBefore;
    var t := BuildTables(allData, allStructs);
    TablesOfOk(AllEntries(allData), allStructs);
    NotDangling(AllEntries(allData), allStructs);
    EveryDeclaration(allData, allStructs);
    assert t.info.Keys == t.deps.Keys;
    order := SortAll(t, allStructs);
    yielded, keyError := [], false;
    for i := 0 to |order|
      invariant |yielded| == i && !keyError
      invariant forall k :: 0 <= k < i ==> order[k] in t.info && yielded[k] == t.info[order[k]]
    {
      if order[i] !in t.info {
        keyError := true;
        assert order[i] in Elements(order);
        return;
      }
      yielded := yielded + [t.info[order[i]]];
    }
    FieldsBefore(t, order, yielded, allStructs);
  }

  // ---- inputs without a dependency order, or with a KeyError ----

  lemma MutualEdges(g: Graph, a: Name, b: Name)
    requires b in Deps(g, a) && a in Deps(g, b)
    ensures Reaches(g, a, a) && !Acyclic(g)
    ensures forall order :: Distinct(order) && g.Keys <= Elements(order) ==> !DependenciesFirst(g, order)
  {
    EdgeReaches(g, a, b);
    ReachesFurther(g, a, b, a);
    forall order | Distinct(order) && g.Keys <= Elements(order)
      ensures !DependenciesFirst(g, order)
    {
      if DependenciesFirst(g, order) { OrderImpliesAcyclic(g, order); }
    }
  }

  lemma OneModule(m: ModuleData)
    ensures AllEntries([m]) == EntriesOf(m)
  {
    assert [m][..0] == [];
  }

  /** Two structs that use each other: no order of all structs has dependencies first. */
  lemma MutualStructs()
    ensures var data := [ModuleData("M", [StructDecl("A", ["B"]), StructDecl("B", ["A"])])];
            var t := TablesOf(AllEntries(data), {"A", "B"});
            && Reaches(t.deps, "A", "A") && !Acyclic(t.deps)
            && forall order :: Distinct(order) && t.deps.Keys <= Elements(order) ==> !DependenciesFirst(t.deps, order)
  {
    var a, b := StructDecl("A", ["B"]), StructDecl("B", ["A"]);
    var data := [ModuleData("M", [a, b])];
    var es := AllEntries(data);
    OneModule(data[0]);
    assert es == [Entry("M", a), Entry("M", b)];
    var t := TablesOf(es, {"A", "B"});
    assert IsLast(es, 0) && IsLast(es, 1);
    LastDeclarationWins(es, 0, {"A", "B"});
    LastDeclarationWins(es, 1, {"A", "B"});
    hide TablesOf, AllEntries;
    MutualEdges(t.deps, "A", "B");
  }

  lemma TwoDependenciesOrder(g: Graph)
    requires "A" in g && "B" in g && "C" in g && g["A"] == {"B", "C"} && g["B"] == {} && g["C"] == {}
    requires g.Keys <= {"A", "B", "C"}
    ensures Acyclic(g)
    ensures forall order, i :: DependenciesFirst(g, order) && 0 <= i < |order| && order[i] == "A" ==>
              "B" in order[..i] && "C" in order[..i]
  {
    var order := ["B", "C", "A"];
    assert order[..2] == ["B", "C"];
    assert DependenciesFirst(g, order);
    OrderImpliesAcyclic(g, order);
  }

  lemma TwoDependenciesTables(es: seq<Entry>, a: StructDecl, b: StructDecl, c: StructDecl)
    requires es == [Entry("M", a), Entry("M", b), Entry("M", c)]
    requires a == StructDecl("A", ["B", "C"]) && b == StructDecl("B", []) && c == StructDecl("C", [])
    ensures var g := TablesOf(es, {"A", "B", "C"}).deps;
            && "A" in g && "B" in g && "C" in g && g["A"] == {"B", "C"} && g["B"] == {} && g["C"] == {}
            && g.Keys <= {"A", "B", "C"}
  {
    hide TablesOf, IsField;
    var all, t := {"A", "B", "C"}, TablesOf(es, {"A", "B", "C"});
    assert IsLast(es, 0) && IsLast(es, 1) && IsLast(es, 2);
    LastDeclarationWins(es, 0, all);
    LastDeclarationWins(es, 1, all);
    LastDeclarationWins(es, 2, all);
    TablesOfOk(es, all);
    assert es[0].decl == a && es[1].decl == b && es[2].decl == c;
    FieldsOf(a);
    FieldsOf(b);
    FieldsOf(c);
  }

  /** A struct with two fields depends on both: B and C are declared after A and come before it
      in every dependency-first order. */
  lemma TwoDependencies()
    ensures var data := [ModuleData("M", [StructDecl("A", ["B", "C"]), StructDecl("B", []), StructDecl("C", [])])];
            var t := TablesOf(AllEntries(data), {"A", "B", "C"});
            && "A" in t.deps && t.deps["A"] == {"B", "C"} && Acyclic(t.deps)
            && forall order, i :: DependenciesFirst(t.deps, order) && 0 <= i < |order| && order[i] == "A" ==>
                 "B" in order[..i] && "C" in order[..i]
  {
    hide TablesOf, AllEntries;
    var a, b, c := StructDecl("A", ["B", "C"]), StructDecl("B", []), StructDecl("C", []);
    OneModule(ModuleData("M", [a, b, c]));
    var es := [Entry("M", a), Entry("M", b), Entry("M", c)];
    assert EntriesOf(ModuleData("M", [a, b, c])) == es;
    TwoDependenciesTables(es, a, b, c);
    TwoDependenciesOrder(TablesOf(es, {"A", "B", "C"}).deps);
  }

  lemma TwoModules(m: ModuleData, m': ModuleData)
    ensures AllEntries([m, m']) == EntriesOf(m) + EntriesOf(m')
  {
    OneModule(m);
    assert [m, m'][..1] == [m];
  }

  lemma TablesOfThree(a: Entry, b: Entry, c: Entry, allStructs: set<Name>)
    requires a.decl.name == c.decl.name != b.decl.name
    ensures var t := TablesOf([a, b, c], allStructs);
            t.keys == [a.decl.name, b.decl.name] && a.decl.name in t.info && t.info[a.decl.name] == c
  {
    hide TablesOf, FieldDeps;
    NoEntries(allStructs);
    TablesStep([], a, allStructs);
    TablesStep([a], b, allStructs);
    TablesStep([a, b], c, allStructs);
    assert [] + [a] == [a] && [a] + [b] == [a, b] && [a, b] + [c] == [a, b, c];
  }

  /** A is declared in M1 and again in M2: it keeps the first place and has the last declaration. */
  lemma DeclaredAgain()
    ensures var data := [ModuleData("M1", [StructDecl("A", []), StructDecl("B", [])]),
                         ModuleData("M2", [StructDecl("A", ["B"])])];
            var t := TablesOf(AllEntries(data), {"A", "B"});
            && t.keys == ["A", "B"] && "A" in t.info && t.info["A"] == Entry("M2", StructDecl("A", ["B"]))
  {
    hide TablesOf, AllEntries, FieldDeps;
    var a, b, c := StructDecl("A", []), StructDecl("B", []), StructDecl("A", ["B"]);
    var m, m' := ModuleData("M1", [a, b]), ModuleData("M2", [c]);
    TwoModules(m, m');
    assert EntriesOf(m) + EntriesOf(m') == [Entry("M1", a), Entry("M1", b), Entry("M2", c)];
    TablesOfThree(Entry("M1", a), Entry("M1", b), Entry("M2", c), {"A", "B"});
  }

  /** A struct that uses a known name without a registered declaration: the lookup fails. */
  lemma UnregisteredStruct()
    ensures var data := [ModuleData("M", [StructDecl("A", ["X"])])];
            Dangling(TablesOf(AllEntries(data), {"A", "X"}))
  {
    var a := StructDecl("A", ["X"]);
    var data := [ModuleData("M", [a])];
    var es := AllEntries(data);
    OneModule(data[0]);
    assert es == [Entry("M", a)];
    var t := TablesOf(es, {"A", "X"});
    assert IsLast(es, 0);
    LastDeclarationWins(es, 0, {"A", "X"});
    TablesOfOk(es, {"A", "X"});
    assert "X" in t.deps["A"] && "X" !in t.info;
  }
}
