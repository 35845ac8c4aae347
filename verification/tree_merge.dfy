/**
 * Merging a newly parsed tree into an existing one of the same name. Children
 * are matched by exact name and merged recursively; children with no match are
 * moved, in their original order, to the end of the existing node's children.
 */
module TreeMerge {
  import opened Options
  import opened SchemaNode

  /** The first sibling whose name is byte-for-byte `name` (no '-'/'_' folding). */
  function FindExact(s: seq<Node>, name: string): (r: Option<nat>)
    ensures r.Some? ==> r.value < |s| && s[r.value].name == name
    ensures r.Some? ==> forall j :: 0 <= j < r.value ==> s[j].name != name
    ensures r.None? <==> name !in Names(s)
  {
    if s == [] then None
    else if s[0].name == name then Some(0)
    else
      match FindExact(s[1..], name)
      case None => None
      case Some(k) => Some(k + 1)
  }

  /** The incoming children whose name is not among `names`, in their original order. */
  function Unmatched(names: seq<string>, s: seq<Node>): (r: seq<Node>)
    ensures forall c :: c in r <==> c in s && c.name !in names
  {
    if s == [] then []
    else if s[0].name in names then Unmatched(names, s[1..])
    else [s[0]] + Unmatched(names, s[1..])
  }

  /** The incoming children whose name is among `names`, in their original order. */
  function Matched(names: seq<string>, s: seq<Node>): (r: seq<Node>)
    ensures forall c :: c in r <==> c in s && c.name in names
  {
    if s == [] then []
    else if s[0].name in names then [s[0]] + Matched(names, s[1..])
    else Matched(names, s[1..])
  }

  /** True when no incoming child carries the name of the existing child `o`. */
  ghost predicate Untouched(o: Node, incoming: seq<Node>)
  {
    forall j :: 0 <= j < |incoming| ==> incoming[j].name != o.name
  }

  /**
   * The outcome of a merge: the existing node with the incoming tree grafted in,
   * and what is left of the incoming node once its unmatched children have been
   * taken away (the caller destroys it).
   */
  datatype Merged = Merged(orig: Node, rest: Node)

  /**
   * The outcome of merging a sequence of incoming children into a sequence of
   * existing ones: the existing children (each possibly merged into), the
   * stolen incoming children, and the incoming children that stayed behind.
   */
  datatype Graft = Graft(kids: seq<Node>, stolen: seq<Node>, kept: seq<Node>)

  function MergeNodes(orig: Node, incoming: Node): Merged
    decreases incoming, 1
  {
    var g := MergeChildren(orig.children, incoming.children);
    Merged(orig.(children := g.kids + g.stolen), incoming.(children := g.kept))
  }

  /** Merge the incoming siblings `nc`, first to last, into the existing siblings `oc`. */
  function MergeChildren(oc: seq<Node>, nc: seq<Node>): Graft
    decreases nc, 2
  {
    if nc == [] then Graft(oc, [], [])
    else
      var n := nc[0];
      match FindExact(oc, n.name)
      case Some(i) =>
        var m := MergeNodes(oc[i], n);
        var g := MergeChildren(oc[i := m.orig], nc[1..]);
        Graft(g.kids, g.stolen, [m.rest] + g.kept)
      case None =>
        var g := MergeChildren(oc, nc[1..]);
        Graft(g.kids, [n] + g.stolen, g.kept)
  }

  /**
   * The existing children keep their places, names and attributes, and those
   * that no incoming child names are left exactly as they were.
   */
  lemma {:induction false} MergeChildrenKids(oc: seq<Node>, nc: seq<Node>)
    ensures var g := MergeChildren(oc, nc);
      && |g.kids| == |oc|
      && Names(g.kids) == Names(oc)
      && (forall i :: 0 <= i < |oc| ==> Attributes(g.kids[i]) == Attributes(oc[i]))
      && (forall i :: 0 <= i < |oc| && Untouched(oc[i], nc) ==> g.kids[i] == oc[i])
    decreases nc
  {
    if nc != [] {
      var n := nc[0];
      match FindExact(oc, n.name)
      case Some(i) =>
        var oc' := oc[i := MergeNodes(oc[i], n).orig];
        MergeChildrenKids(oc', nc[1..]);
        forall j | 0 <= j < |oc| && Untouched(oc[j], nc)
          ensures Untouched(oc'[j], nc[1..]) && oc'[j] == oc[j]
        {
          assert nc[0].name != oc[j].name;
        }
      case None =>
        MergeChildrenKids(oc, nc[1..]);
    }
  }

  /**
   * An existing child that is not the first of its name is never merged into:
   * the search stops at the first exact match, so a later namesake is left
   * exactly as it was.
   */
  lemma {:induction false} MergeChildrenShadowed(oc: seq<Node>, nc: seq<Node>)
    ensures var g := MergeChildren(oc, nc);
      && |g.kids| == |oc|
      && forall i :: 0 <= i < |oc| && FindExact(oc, oc[i].name) != Some(i) ==> g.kids[i] == oc[i]
    decreases nc
  {
    if nc != [] {
      var n := nc[0];
      match FindExact(oc, n.name)
      case Some(i0) =>
        var oc' := oc[i0 := MergeNodes(oc[i0], n).orig];
        assert MergeChildren(oc, nc).kids == MergeChildren(oc', nc[1..]).kids;
        NamesUpdate(oc, i0, oc'[i0]);
        MergeChildrenShadowed(oc', nc[1..]);
        forall j | 0 <= j < |oc| && FindExact(oc, oc[j].name) != Some(j)
          ensures oc'[j] == oc[j] && FindExact(oc', oc'[j].name) != Some(j)
        {
          FindExactByNames(oc', oc, oc[j].name);
        }
      case None =>
        assert MergeChildren(oc, nc).kids == MergeChildren(oc, nc[1..]).kids;
        MergeChildrenShadowed(oc, nc[1..]);
    }
  }

  /** Replacing a sibling by a node of the same name keeps the sibling names. */
  lemma NamesUpdate(s: seq<Node>, i: nat, x: Node)
    requires i < |s| && x.name == s[i].name
    ensures Names(s[i := x]) == Names(s)
  {
  }

  /**
   * Exactly the incoming children whose name no existing child carries are
   * stolen, in their original order; the others stay behind. The search is over
   * the existing children only, so two same-named unmatched children are both stolen.
   */
  lemma {:induction false} MergeChildrenStolen(oc: seq<Node>, nc: seq<Node>)
    ensures var g := MergeChildren(oc, nc);
      && g.stolen == Unmatched(Names(oc), nc)
      && Names(g.kept) == Names(Matched(Names(oc), nc))
    decreases nc
  {
    if nc != [] {
      var n := nc[0];
      var names := Names(oc);
      match FindExact(oc, n.name)
      case Some(i) =>
        var m := MergeNodes(oc[i], n);
        var g := MergeChildren(oc[i := m.orig], nc[1..]);
        NamesUpdate(oc, i, m.orig);
        MergeChildrenStolen(oc[i := m.orig], nc[1..]);
        assert MergeChildren(oc, nc) == Graft(g.kids, g.stolen, [m.rest] + g.kept);
        assert Unmatched(names, nc) == Unmatched(names, nc[1..]);
        assert Matched(names, nc) == [n] + Matched(names, nc[1..]);
        assert m.rest.name == n.name;
        KeptNames(m.rest, g.kept, n, Matched(names, nc[1..]));
      case None =>
        var g := MergeChildren(oc, nc[1..]);
        MergeChildrenStolen(oc, nc[1..]);
        assert MergeChildren(oc, nc) == Graft(g.kids, [n] + g.stolen, g.kept);
        assert Unmatched(names, nc) == [n] + Unmatched(names, nc[1..]);
        assert Matched(names, nc) == Matched(names, nc[1..]);
    }
  }

  lemma KeptNames(x: Node, xs: seq<Node>, y: Node, ys: seq<Node>)
    requires x.name == y.name && Names(xs) == Names(ys)
    ensures Names([x] + xs) == Names([y] + ys)
  {
  }

  /**
   * After a merge the existing children are a prefix of the result, in their
   * order, with names and attributes kept; the unmatched incoming children
   * follow in their original order and are gone from the incoming node; the
   * existing node's own attributes are untouched. An existing child is left as
   * it was when no incoming child names it, and when it is not the first of its name.
   */
  lemma MergeNodesShape(orig: Node, incoming: Node)
    ensures var m := MergeNodes(orig, incoming);
      var k := |orig.children|;
      && Attributes(m.orig) == Attributes(orig)
      && |m.orig.children| == k + |Unmatched(Names(orig.children), incoming.children)|
      && Names(m.orig.children[..k]) == Names(orig.children)
      && (forall i :: 0 <= i < k ==> Attributes(m.orig.children[i]) == Attributes(orig.children[i]))
      && (forall i :: 0 <= i < k && Untouched(orig.children[i], incoming.children) ==>
            m.orig.children[i] == orig.children[i])
      && (forall i :: 0 <= i < k && FindExact(orig.children, orig.children[i].name) != Some(i) ==>
            m.orig.children[i] == orig.children[i])
      && m.orig.children[k..] == Unmatched(Names(orig.children), incoming.children)
      && Attributes(m.rest) == Attributes(incoming)
      && Names(m.rest.children) == Names(Matched(Names(orig.children), incoming.children))
  {
    var g := MergeChildren(orig.children, incoming.children);
    MergeChildrenKids(orig.children, incoming.children);
    MergeChildrenStolen(orig.children, incoming.children);
    MergeChildrenShadowed(orig.children, incoming.children);
    assert (g.kids + g.stolen)[..|orig.children|] == g.kids;
    assert (g.kids + g.stolen)[|orig.children|..] == g.stolen;
  }

  /**
   * No schema branch is lost and none is invented: the name-paths below the
   * merged node are those below the existing node together with those below
   * the incoming one.
   */
  lemma {:induction false} MergePaths(orig: Node, incoming: Node)
    ensures SubPaths(MergeNodes(orig, incoming).orig) == SubPaths(orig) + SubPaths(incoming)
    decreases incoming, 1
  {
    var g := MergeChildren(orig.children, incoming.children);
    MergeChildrenPaths(orig.children, incoming.children);
    assert MergeNodes(orig, incoming).orig.children == g.kids + g.stolen;
  }

  lemma {:induction false} MergeChildrenPaths(oc: seq<Node>, nc: seq<Node>)
    ensures var g := MergeChildren(oc, nc);
      KidPaths(g.kids + g.stolen) == KidPaths(oc) + KidPaths(nc)
    decreases nc, 2
  {
    if nc == [] {
      assert oc + [] == oc;
    } else {
      var n := nc[0];
      match FindExact(oc, n.name)
      case Some(i) =>
        var m := MergeNodes(oc[i], n);
        MergePaths(oc[i], n);
        UnderUnion(m.orig, oc[i], n);
        KidPathsUpdate(oc, i, m.orig, Under(n));
        MergeChildrenPaths(oc[i := m.orig], nc[1..]);
      case None =>
        var g := MergeChildren(oc, nc[1..]);
        MergeChildrenPaths(oc, nc[1..]);
        KidPathsAppend(g.kids, [n] + g.stolen);
        KidPathsAppend(g.kids, g.stolen);
        assert ([n] + g.stolen)[1..] == g.stolen;
    }
  }

  /** The exact-name search looks only at the names. */
  lemma {:induction false} FindExactByNames(a: seq<Node>, b: seq<Node>, name: string)
    requires Names(a) == Names(b)
    ensures FindExact(a, name) == FindExact(b, name)
  {
    if a != [] {
      assert a[0].name == Names(a)[0] == Names(b)[0] == b[0].name;
      assert Names(a[1..]) == Names(a)[1..];
      assert Names(b[1..]) == Names(b)[1..];
      FindExactByNames(a[1..], b[1..], name);
    }
  }

  /**
   * An existing child that exactly one incoming sibling names ends up as that
   * existing child merged with that incoming one, whatever the other incoming
   * siblings do.
   */
  lemma {:induction false} MergeChildrenOne(oc: seq<Node>, nc: seq<Node>, i: nat, j: nat)
    requires i < |oc| && FindExact(oc, oc[i].name) == Some(i)
    requires j < |nc| && nc[j].name == oc[i].name
    requires forall k :: 0 <= k < |nc| && k != j ==> nc[k].name != oc[i].name
    ensures i < |MergeChildren(oc, nc).kids|
    ensures MergeChildren(oc, nc).kids[i] == MergeNodes(oc[i], nc[j]).orig
    decreases nc, 1
  {
    if j == 0 {
      MergeChildrenOneFirst(oc, nc, i);
    } else {
      MergeChildrenOneLater(oc, nc, i, j);
    }
  }

  /** The incoming sibling is the first: it is merged in, and no later one touches the result. */
  lemma MergeChildrenOneFirst(oc: seq<Node>, nc: seq<Node>, i: nat)
    requires i < |oc| && |nc| > 0 && FindExact(oc, nc[0].name) == Some(i)
    requires forall k :: 0 < k < |nc| ==> nc[k].name != oc[i].name
    ensures i < |MergeChildren(oc, nc).kids|
    ensures MergeChildren(oc, nc).kids[i] == MergeNodes(oc[i], nc[0]).orig
  {
    var rest := nc[1..];
    var m := MergeNodes(oc[i], nc[0]);
    var oc' := oc[i := m.orig];
    assert MergeChildren(oc, nc).kids == MergeChildren(oc', rest).kids;
    MergeChildrenKids(oc', rest);
    assert Untouched(oc'[i], rest) by {
      forall k | 0 <= k < |rest|
        ensures rest[k].name != oc'[i].name
      {
        assert rest[k] == nc[k + 1];
      }
    }
  }

  /** The incoming sibling comes later: the first incoming sibling leaves the existing child alone. */
  lemma {:induction false} MergeChildrenOneLater(oc: seq<Node>, nc: seq<Node>, i: nat, j: nat)
    requires i < |oc| && FindExact(oc, oc[i].name) == Some(i)
    requires 0 < j < |nc| && nc[j].name == oc[i].name
    requires forall k :: 0 <= k < |nc| && k != j ==> nc[k].name != oc[i].name
    ensures i < |MergeChildren(oc, nc).kids|
    ensures MergeChildren(oc, nc).kids[i] == MergeNodes(oc[i], nc[j]).orig
    decreases nc, 0
  {
    var n := nc[0];
    var rest := nc[1..];
    assert rest[j - 1] == nc[j];
    assert forall k :: 0 <= k < |rest| && k != j - 1 ==> rest[k] == nc[k + 1];
    match FindExact(oc, n.name)
    case Some(i2) =>
      var oc' := oc[i2 := MergeNodes(oc[i2], n).orig];
      assert MergeChildren(oc, nc).kids == MergeChildren(oc', rest).kids;
      NamesUpdate(oc, i2, oc'[i2]);
      FindExactByNames(oc', oc, oc[i].name);
      MergeChildrenOne(oc', rest, i, j - 1);
    case None =>
      assert MergeChildren(oc, nc).kids == MergeChildren(oc, rest).kids;
      MergeChildrenOne(oc, rest, i, j - 1);
  }

  /**
   * The merge applies itself one level down: an existing child that exactly one
   * incoming child names becomes the merge of the two, so every property of a
   * merge holds again below it, at every depth, for the incoming side too.
   */
  lemma MergeChildOne(orig: Node, incoming: Node, i: nat, j: nat)
    requires i < |orig.children| && FindExact(orig.children, orig.children[i].name) == Some(i)
    requires j < |incoming.children| && incoming.children[j].name == orig.children[i].name
    requires forall k :: 0 <= k < |incoming.children| && k != j ==>
               incoming.children[k].name != orig.children[i].name
    ensures i < |MergeNodes(orig, incoming).orig.children|
    ensures MergeNodes(orig, incoming).orig.children[i] == MergeNodes(orig.children[i], incoming.children[j]).orig
  {
    var g := MergeChildren(orig.children, incoming.children);
    MergeChildrenOne(orig.children, incoming.children, i, j);
    assert (g.kids + g.stolen)[i] == g.kids[i];
  }

  /**
   * `m` extends `o`: the same attributes, and, child by child, extensions of
   * all of `o`'s children as a prefix of its own. Attributes are first-seen at
   * every depth.
   */
  ghost predicate Extends(m: Node, o: Node)
    decreases o
  {
    && Attributes(m) == Attributes(o)
    && |m.children| >= |o.children|
    && forall i :: 0 <= i < |o.children| ==> Extends(m.children[i], o.children[i])
  }

  lemma {:induction false} ExtendsReflexive(o: Node)
    ensures Extends(o, o)
    decreases o
  {
    forall i | 0 <= i < |o.children|
      ensures Extends(o.children[i], o.children[i])
    {
      ExtendsReflexive(o.children[i]);
    }
  }

  lemma {:induction false} ExtendsTransitive(a: Node, b: Node, c: Node)
    requires Extends(a, b) && Extends(b, c)
    ensures Extends(a, c)
    decreases c
  {
    forall i | 0 <= i < |c.children|
      ensures Extends(a.children[i], c.children[i])
    {
      ExtendsTransitive(a.children[i], b.children[i], c.children[i]);
    }
  }

  /**
   * A merge only ever adds below the existing node: every node of the existing
   * tree, at any depth, keeps its place and its flags, value, default, pattern
   * and description.
   */
  lemma {:induction false} MergeExtends(orig: Node, incoming: Node)
    ensures Extends(MergeNodes(orig, incoming).orig, orig)
    decreases incoming, 1
  {
    var g := MergeChildren(orig.children, incoming.children);
    MergeChildrenExtends(orig.children, incoming.children);
    var kids := g.kids + g.stolen;
    assert MergeNodes(orig, incoming).orig.children == kids;
    forall i | 0 <= i < |orig.children|
      ensures Extends(kids[i], orig.children[i])
    {
      assert kids[i] == g.kids[i];
    }
  }

  lemma {:induction false} MergeChildrenExtends(oc: seq<Node>, nc: seq<Node>)
    ensures var g := MergeChildren(oc, nc);
      && |g.kids| == |oc|
      && forall i :: 0 <= i < |oc| ==> Extends(g.kids[i], oc[i])
    decreases nc, 2
  {
    if nc == [] {
      forall i | 0 <= i < |oc|
        ensures Extends(oc[i], oc[i])
      {
        ExtendsReflexive(oc[i]);
      }
    } else {
      var n := nc[0];
      match FindExact(oc, n.name)
      case Some(i) =>
        var m := MergeNodes(oc[i], n);
        var oc' := oc[i := m.orig];
        MergeExtends(oc[i], n);
        MergeChildrenExtends(oc', nc[1..]);
        var g := MergeChildren(oc', nc[1..]);
        forall j | 0 <= j < |oc|
          ensures Extends(g.kids[j], oc[j])
        {
          if j == i {
            ExtendsTransitive(g.kids[j], oc'[j], oc[j]);
          }
        }
      case None =>
        MergeChildrenExtends(oc, nc[1..]);
    }
  }

  /**
   * When no incoming child shares a name with an existing child, every
   * incoming child is grafted, duplicates among them included: the search runs
   * over the existing children only, and the stolen ones are appended after it.
   */
  lemma GraftDisjoint(orig: Node, incoming: Node)
    requires forall c :: c in incoming.children ==> c.name !in Names(orig.children)
    ensures MergeNodes(orig, incoming).orig.children == orig.children + incoming.children
  {
    var oc, nc := orig.children, incoming.children;
    var g := MergeChildren(oc, nc);
    MergeChildrenKids(oc, nc);
    MergeChildrenStolen(oc, nc);
    UnmatchedAll(Names(oc), nc);
    forall i | 0 <= i < |oc|
      ensures g.kids[i] == oc[i]
    {
      assert Names(oc)[i] == oc[i].name;
      forall j | 0 <= j < |nc|
        ensures nc[j].name != oc[i].name
      {
        assert nc[j] in nc;
      }
    }
    assert g.kids == oc;
  }

  lemma {:induction false} UnmatchedAll(names: seq<string>, s: seq<Node>)
    requires forall c :: c in s ==> c.name !in names
    ensures Unmatched(names, s) == s
  {
    if s != [] {
      UnmatchedAll(names, s[1..]);
    }
  }
}
