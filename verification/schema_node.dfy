/**
 * The schema tree: one `Node` per schema element, each owning an ordered
 * sequence of children. Ownership in the C structure (every node has exactly
 * one parent, no sharing, no cycles) is what an immutable datatype gives for free.
 */
module SchemaNode {
  import opened Options

  /** The bits of a node's flag word; `(flags & F) == F` is `F in flags`. */
  datatype Flag = Leaf | Read | Write | Enum

  datatype Node = Node(
    name: string,
    flags: set<Flag>,
    value: Option<string>,        // the literal an ENUM child stands for
    defvalue: Option<string>,
    pattern: Option<string>,
    description: Option<string>,
    children: seq<Node>)

  predicate IsLeaf(n: Node) { Leaf in n.flags }

  predicate IsReadable(n: Node) { Read in n.flags }

  predicate IsWritable(n: Node) { Write in n.flags }

  predicate IsEnum(n: Node) { Enum in n.flags }

  /** Everything about a node except its children. */
  function Attributes(n: Node): Node
  {
    n.(children := [])
  }

  /** The names of a sequence of siblings, in order. */
  function Names(s: seq<Node>): (r: seq<string>)
    ensures |r| == |s|
    ensures forall i :: 0 <= i < |s| ==> r[i] == s[i].name
  {
    seq(|s|, i requires 0 <= i < |s| => s[i].name)
  }

  /**
   * The name-paths below `n`: the empty path for `n` itself, and for every
   * descendant the sequence of names leading from `n` down to it.
   */
  ghost function SubPaths(n: Node): set<seq<string>>
    decreases n, 0
  {
    {[]} + KidPaths(n.children)
  }

  /** The name-paths a child contributes to its parent: its own below, prefixed by its name. */
  ghost function Under(c: Node): set<seq<string>>
    decreases c, 1
  {
    set p | p in SubPaths(c) :: [c.name] + p
  }

  ghost function KidPaths(s: seq<Node>): set<seq<string>>
    decreases s, 2
  {
    if s == [] then {} else Under(s[0]) + KidPaths(s[1..])
  }

  /** A path lies below a sequence of siblings exactly when it lies below one of them. */
  lemma {:induction false} KidPathsMembers(s: seq<Node>, p: seq<string>)
    ensures p in KidPaths(s) <==> exists i :: 0 <= i < |s| && p in Under(s[i])
    decreases s
  {
    if s != [] {
      KidPathsMembers(s[1..], p);
      if p in KidPaths(s[1..]) {
        var i :| 0 <= i < |s[1..]| && p in Under(s[1..][i]);
        assert p in Under(s[i + 1]);
      }
      if exists i :: 0 <= i < |s| && p in Under(s[i]) {
        var i :| 0 <= i < |s| && p in Under(s[i]);
        if i > 0 {
          assert p in Under(s[1..][i - 1]);
        }
      }
    }
  }

  lemma KidPathsAppend(a: seq<Node>, b: seq<Node>)
    ensures KidPaths(a + b) == KidPaths(a) + KidPaths(b)
  {
    forall p | true
      ensures p in KidPaths(a + b) <==> p in KidPaths(a) + KidPaths(b)
    {
      KidPathsMembers(a + b, p);
      KidPathsMembers(a, p);
      KidPathsMembers(b, p);
      if p in KidPaths(a + b) {
        var i :| 0 <= i < |a + b| && p in Under((a + b)[i]);
        if i >= |a| {
          assert p in Under(b[i - |a|]);
        }
      }
      if p in KidPaths(a) {
        var i :| 0 <= i < |a| && p in Under(a[i]);
        assert p in Under((a + b)[i]);
      }
      if p in KidPaths(b) {
        var i :| 0 <= i < |b| && p in Under(b[i]);
        assert p in Under((a + b)[|a| + i]);
      }
    }
  }

  /** Replacing one sibling by a node whose paths extend the old ones by `extra` extends the whole by `extra`. */
  lemma KidPathsUpdate(s: seq<Node>, i: nat, x: Node, extra: set<seq<string>>)
    requires i < |s|
    requires Under(x) == Under(s[i]) + extra
    ensures KidPaths(s[i := x]) == KidPaths(s) + extra
  {
    forall p | true
      ensures p in KidPaths(s[i := x]) <==> p in KidPaths(s) + extra
    {
      KidPathsMembers(s[i := x], p);
      KidPathsMembers(s, p);
      if p in KidPaths(s) {
        var j :| 0 <= j < |s| && p in Under(s[j]);
        assert p in Under(s[i := x][j]);
      }
      if p in extra {
        assert p in Under(s[i := x][i]);
      }
    }
  }

  /** Two same-named nodes: the paths they contribute to a parent unite as their own paths do. */
  lemma UnderUnion(a: Node, b: Node, c: Node)
    requires a.name == b.name == c.name
    requires SubPaths(a) == SubPaths(b) + SubPaths(c)
    ensures Under(a) == Under(b) + Under(c)
  {
  }
}
