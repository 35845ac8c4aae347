/**
 * Assembling the schema forest from parsed schema files, taken in the order
 * the files were found. Each parse result may carry a root tree and model
 * metadata; a result without a root is skipped.
 */
module SchemaLoad {
  import opened Options
  import opened SchemaNode
  import opened TreeMerge

  /** Metadata a schema file reports about itself. */
  datatype Model = Model(name: string, organization: Option<string>, version: Option<string>)

  /** What the parser made of one file: a root tree, or none when parsing failed, and metadata. */
  datatype Parsed = Parsed(
    root: Option<Node>,
    name: Option<string>,
    organization: Option<string>,
    version: Option<string>)

  /** The loaded schema: roots keyed by name and model records in file order. */
  datatype Schema = Schema(roots: map<string, Node>, models: seq<Model>)

  /**
   * Adds a parsed root to the forest: merged into the root of the same name
   * when there is one, otherwise inserted under its own name.
   */
  function AddRoot(roots: map<string, Node>, root: Node): (r: map<string, Node>)
    ensures root.name in roots ==> r.Keys == roots.Keys
    ensures root.name in roots ==> r[root.name] == MergeNodes(roots[root.name], root).orig
    ensures root.name !in roots ==> r.Keys == roots.Keys + {root.name} && r[root.name] == root
    ensures forall k :: k in roots && k != root.name ==> r[k] == roots[k]
  {
    if root.name in roots then roots[root.name := MergeNodes(roots[root.name], root).orig]
    else roots[root.name := root]
  }

  /** The model record a parse result contributes: only with a name and a root. */
  function RecordOf(p: Parsed): seq<Model>
  {
    if p.root.Some? && p.name.Some? then [Model(p.name.value, p.organization, p.version)] else []
  }

  /** The model records of `ps`, in file order. */
  function Records(ps: seq<Parsed>): seq<Model>
  {
    if ps == [] then [] else Records(ps[..|ps| - 1]) + RecordOf(ps[|ps| - 1])
  }

  /** The names of the roots that parsed. */
  function RootNames(ps: seq<Parsed>): set<string>
  {
    if ps == [] then {}
    else
      var p := ps[|ps| - 1];
      RootNames(ps[..|ps| - 1]) + (if p.root.Some? then {p.root.value.name} else {})
  }

  /** Every name-path contributed by a parsed root named `k`. */
  ghost function PathsFor(ps: seq<Parsed>, k: string): set<seq<string>>
  {
    if ps == [] then {}
    else
      var p := ps[|ps| - 1];
      PathsFor(ps[..|ps| - 1], k) + (if p.root.Some? && p.root.value.name == k then SubPaths(p.root.value) else {})
  }

  /** The first parsed root named `k`: its attributes are the ones that survive. */
  function FirstRoot(ps: seq<Parsed>, k: string): Option<Node>
  {
    if ps == [] then None
    else
      var f := FirstRoot(ps[..|ps| - 1], k);
      var p := ps[|ps| - 1];
      if f.Some? then f
      else if p.root.Some? && p.root.value.name == k then p.root
      else None
  }

  function Reverse<T>(s: seq<T>): (r: seq<T>)
    ensures |r| == |s|
    ensures forall i :: 0 <= i < |s| ==> r[i] == s[|s| - 1 - i]
  {
    if s == [] then [] else Reverse(s[1..]) + [s[0]]
  }

  /** The forest the load loop builds: each parsed root added in file order, failed parses skipped. */
  function Roots(ps: seq<Parsed>): map<string, Node>
  {
    if ps == [] then map[]
    else
      var roots := Roots(ps[..|ps| - 1]);
      match ps[|ps| - 1].root
      case None => roots
      case Some(root) => AddRoot(roots, root)
  }

  /**
   * What the root under key `k` satisfies once `ps` is loaded: it carries the
   * name `k`; it extends the first root parsed under that name (that tree,
   * attributes and children at every depth, is kept as first seen); and it
   * holds every name-path any root of that name contributed.
   */
  ghost predicate RootOk(roots: map<string, Node>, ps: seq<Parsed>, k: string)
  {
    k in roots ==>
      && roots[k].name == k
      && FirstRoot(ps, k).Some?
      && Extends(roots[k], FirstRoot(ps, k).value)
      && SubPaths(roots[k]) == PathsFor(ps, k)
  }

  /** What the roots built from `ps` satisfy: one per parsed root name, each as `RootOk` says. */
  ghost predicate Built(roots: map<string, Node>, ps: seq<Parsed>)
  {
    && roots.Keys == RootNames(ps)
    && forall k :: RootOk(roots, ps, k)
  }

  /** A name no parsed root carries has contributed no paths and no first root. */
  lemma {:induction false} AbsentName(ps: seq<Parsed>, k: string)
    requires k !in RootNames(ps)
    ensures PathsFor(ps, k) == {} && FirstRoot(ps, k) == None
  {
    if ps != [] {
      AbsentName(ps[..|ps| - 1], k);
    }
  }

  /** Appending one parse result to `ps`, as each of the folded summaries sees it. */
  lemma StepUnfold(ps: seq<Parsed>, p: Parsed, k: string)
    ensures RootNames(ps + [p]) == RootNames(ps) + (if p.root.Some? then {p.root.value.name} else {})
    ensures PathsFor(ps + [p], k) ==
              PathsFor(ps, k) + (if p.root.Some? && p.root.value.name == k then SubPaths(p.root.value) else {})
    ensures FirstRoot(ps + [p], k) ==
              if FirstRoot(ps, k).Some? then FirstRoot(ps, k)
              else if p.root.Some? && p.root.value.name == k then p.root
              else None
  {
  }

  /** The root named in this pass: merged into, or inserted as parsed. */
  lemma AddedRoot(roots: map<string, Node>, ps: seq<Parsed>, p: Parsed)
    requires p.root.Some? && RootOk(roots, ps, p.root.value.name)
    requires p.root.value.name !in roots ==> p.root.value.name !in RootNames(ps)
    ensures RootOk(AddRoot(roots, p.root.value), ps + [p], p.root.value.name)
  {
    var root := p.root.value;
    var k := root.name;
    StepUnfold(ps, p, k);
    if k in roots {
      var m := MergeNodes(roots[k], root);
      MergePaths(roots[k], root);
      MergeExtends(roots[k], root);
      ExtendsTransitive(m.orig, roots[k], FirstRoot(ps, k).value);
    } else {
      AbsentName(ps, k);
      ExtendsReflexive(root);
    }
  }

  /** A root this pass does not name keeps `RootOk`. */
  lemma OtherRoot(roots: map<string, Node>, r: map<string, Node>, ps: seq<Parsed>, p: Parsed, j: string)
    requires RootOk(roots, ps, j)
    requires j in r <==> j in roots
    requires j in r ==> r[j] == roots[j]
    requires p.root.Some? ==> p.root.value.name != j
    ensures RootOk(r, ps + [p], j)
  {
  }

  /** One pass of the load loop keeps `Built`, whether the file's root is merged, inserted or missing. */
  lemma AddRootStep(roots: map<string, Node>, ps: seq<Parsed>, p: Parsed)
    requires Built(roots, ps)
    ensures p.root.Some? ==> Built(AddRoot(roots, p.root.value), ps + [p])
    ensures p.root.None? ==> Built(roots, ps + [p])
  {
    StepUnfold(ps, p, "");
    var r := if p.root.Some? then AddRoot(roots, p.root.value) else roots;
    forall j
      ensures RootOk(r, ps + [p], j)
    {
      if p.root.Some? && p.root.value.name == j {
        AddedRoot(roots, ps, p);
      } else {
        OtherRoot(roots, r, ps, p, j);
      }
    }
  }

  /** The forest folded from any parse results satisfies `Built`. */
  lemma {:induction false} RootsBuilt(ps: seq<Parsed>)
    ensures Built(Roots(ps), ps)
  {
    if ps == [] {
    } else {
      var init := ps[..|ps| - 1];
      RootsBuilt(init);
      AddRootStep(Roots(init), init, ps[|ps| - 1]);
      assert init + [ps[|ps| - 1]] == ps;
    }
  }

  /** A name is a root name exactly when some parse result carries a root of that name. */
  lemma {:induction false} RootNamesMembers(ps: seq<Parsed>, k: string)
    ensures k in RootNames(ps) <==> exists x :: x in ps && x.root.Some? && x.root.value.name == k
  {
    if ps != [] {
      var init, p := ps[..|ps| - 1], ps[|ps| - 1];
      assert ps == init + [p];
      RootNamesMembers(init, k);
      if k in RootNames(init) {
        var x :| x in init && x.root.Some? && x.root.value.name == k;
        assert x in ps;
      }
      if exists x :: x in ps && x.root.Some? && x.root.value.name == k {
        var x :| x in ps && x.root.Some? && x.root.value.name == k;
        if x != p {
          assert x in init;
        }
      }
    }
  }

  /** A path is contributed under `k` exactly when some parsed root named `k` holds it. */
  lemma {:induction false} PathsForMembers(ps: seq<Parsed>, k: string, q: seq<string>)
    ensures q in PathsFor(ps, k) <==>
              exists x :: x in ps && x.root.Some? && x.root.value.name == k && q in SubPaths(x.root.value)
  {
    if ps != [] {
      var init, p := ps[..|ps| - 1], ps[|ps| - 1];
      assert ps == init + [p];
      PathsForMembers(init, k, q);
      if q in PathsFor(init, k) {
        var x :| x in init && x.root.Some? && x.root.value.name == k && q in SubPaths(x.root.value);
        assert x in ps;
      }
      if exists x :: x in ps && x.root.Some? && x.root.value.name == k && q in SubPaths(x.root.value) {
        var x :| x in ps && x.root.Some? && x.root.value.name == k && q in SubPaths(x.root.value);
        if x != p {
          assert x in init;
        }
      }
    }
  }

  /** The same parse results in another order: the same elements. */
  lemma SameElements(ps: seq<Parsed>, qs: seq<Parsed>)
    requires multiset(ps) == multiset(qs)
    ensures forall x :: x in ps <==> x in qs
  {
    forall x
      ensures x in ps <==> x in qs
    {
      assert x in ps <==> x in multiset(ps);
      assert x in qs <==> x in multiset(qs);
    }
  }

  /**
   * Loading the same files in another order yields the same forest of
   * name-paths: the same root names, and under each the same schema branches.
   * Which attributes and which child order survive depends on which file is
   * seen first.
   */
  lemma LoadOrderPaths(ps: seq<Parsed>, qs: seq<Parsed>)
    requires multiset(ps) == multiset(qs)
    ensures Roots(ps).Keys == Roots(qs).Keys
    ensures forall k :: k in Roots(ps) ==> SubPaths(Roots(ps)[k]) == SubPaths(Roots(qs)[k])
  {
    RootsBuilt(ps);
    RootsBuilt(qs);
    SameElements(ps, qs);
    forall k
      ensures k in RootNames(ps) <==> k in RootNames(qs)
    {
      RootNamesMembers(ps, k);
      RootNamesMembers(qs, k);
    }
    forall k | k in Roots(ps)
      ensures SubPaths(Roots(ps)[k]) == SubPaths(Roots(qs)[k])
    {
      forall q
        ensures q in PathsFor(ps, k) <==> q in PathsFor(qs, k)
      {
        PathsForMembers(ps, k, q);
        PathsForMembers(qs, k, q);
      }
      assert RootOk(Roots(ps), ps, k) && RootOk(Roots(qs), qs, k);
    }
  }

  /**
   * The load loop. Records are prepended as files are processed and the list
   * is reversed at the end, which leaves them in file order.
   */
  method Load(ps: seq<Parsed>) returns (schema: Schema)
    ensures schema.models == Records(ps)
    ensures schema.roots == Roots(ps)
    ensures Built(schema.roots, ps)
  {
    var roots: map<string, Node> := map[];
    var models: seq<Model> := [];
    var i := 0;
    while i < |ps|
      invariant 0 <= i <= |ps|
      invariant roots == Roots(ps[..i])
      invariant Reverse(models) == Records(ps[..i])
    {
      var p := ps[i];
      assert ps[..i + 1][..i] == ps[..i];
      if p.root.Some? {
        roots := AddRoot(roots, p.root.value);
        if p.name.Some? {
          var m := Model(p.name.value, p.organization, p.version);
          assert Reverse([m] + models) == Reverse(models) + [m];
          models := [m] + models;
        }
      }
      i := i + 1;
    }
    assert ps[..i] == ps;
    RootsBuilt(ps);
    schema := Schema(roots, Reverse(models));
  }

  /** The first model record, by index, if there is one. */
  function FirstModel(schema: Schema): (r: Option<nat>)
    ensures r.Some? <==> |schema.models| > 0
    ensures r.Some? ==> r.value == 0
  {
    if schema.models == [] then None else Some(0)
  }

  /** The record after the one at index `i`; none past the last or for an index that is not a record. */
  function NextModel(schema: Schema, i: nat): (r: Option<nat>)
    ensures r.Some? <==> i + 1 < |schema.models|
    ensures r.Some? ==> r.value == i + 1
  {
    if i + 1 < |schema.models| then Some(i + 1) else None
  }

  /** The records visited by stepping with `NextModel` from `cur`. */
  function Visit(schema: Schema, cur: Option<nat>): seq<Model>
    decreases if cur.Some? then |schema.models| - cur.value else 0
  {
    match cur
    case None => []
    case Some(i) =>
      if i < |schema.models| then [schema.models[i]] + Visit(schema, NextModel(schema, i)) else []
  }

  lemma {:induction false} VisitFrom(schema: Schema, i: nat)
    requires i < |schema.models|
    ensures Visit(schema, Some(i)) == schema.models[i..]
    decreases |schema.models| - i
  {
    if i + 1 < |schema.models| {
      VisitFrom(schema, i + 1);
    }
  }

  /** Iterating from the first model with the next-model step visits every record once, in load order. */
  lemma IterateModels(schema: Schema)
    ensures Visit(schema, FirstModel(schema)) == schema.models
  {
    if schema.models != [] {
      VisitFrom(schema, 0);
    }
  }
}
