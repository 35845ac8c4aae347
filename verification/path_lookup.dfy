/**
 * Resolving a slash path against the schema forest. The first segment names a
 * root exactly; each later segment takes the first child whose name starts
 * with '*' or matches the segment with '-' and '_' read alike. There is no
 * backtracking: a miss below the first accepting child is a miss.
 */
module PathLookup {
  import opened Options
  import opened SchemaNode
  import opened NameMatch
  import opened SchemaLoad

  /** The position of the first '/' in `s`, as `strchr` finds it. */
  function FindSlash(s: string): (r: Option<nat>)
    ensures r.Some? ==> r.value < |s| && s[r.value] == '/'
    ensures r.Some? ==> forall j :: 0 <= j < r.value ==> s[j] != '/'
    ensures r.None? <==> '/' !in s
  {
    if s == [] then None
    else if s[0] == '/' then Some(0)
    else
      match FindSlash(s[1..])
      case None => None
      case Some(k) => Some(k + 1)
  }

  /** A child is taken for a segment when its name starts with '*' or matches the segment. */
  predicate Accepts(c: Node, key: string)
  {
    (|c.name| > 0 && c.name[0] == '*') || MatchName(c.name, key)
  }

  /** The first child, in order, that accepts `key`. */
  function FirstMatch(s: seq<Node>, key: string): (r: Option<nat>)
    ensures r.Some? ==> r.value < |s| && Accepts(s[r.value], key)
    ensures r.Some? ==> forall j :: 0 <= j < r.value ==> !Accepts(s[j], key)
    ensures r.None? ==> forall j :: 0 <= j < |s| ==> !Accepts(s[j], key)
  {
    if s == [] then None
    else if Accepts(s[0], key) then Some(0)
    else
      match FirstMatch(s[1..], key)
      case None => None
      case Some(k) => Some(k + 1)
  }

  /** Drops one leading '/', if there is one. */
  function StripSlash(path: string): string
  {
    if |path| > 0 && path[0] == '/' then path[1..] else path
  }

  /**
   * Resolution below `node` as the string code does it: drop one leading '/',
   * cut the key at the next '/', take the first accepting child, and carry on
   * with what follows the key (starting at its '/') if anything does.
   */
  function LookupNode(node: Node, path: string): Option<Node>
    decreases |path|
  {
    var p := StripSlash(path);
    var slash := FindSlash(p);
    var key := if slash.Some? then p[..slash.value] else p;
    match FirstMatch(node.children, key)
    case None => None
    case Some(i) =>
      if slash.Some? then LookupNode(node.children[i], p[slash.value..])
      else Some(node.children[i])
  }

  /**
   * Path lookup over the forest. The character before the root name is skipped
   * whatever it is; the root name runs to the next '/' and must be a key
   * exactly; a path that is just that one character and the root name yields
   * the root. An empty path has no first character to skip and yields nothing.
   */
  function Lookup(schema: Schema, path: string): Option<Node>
  {
    if |path| == 0 then None
    else
      var rest := path[1..];
      var rpath := match FindSlash(rest) case None => rest case Some(k) => rest[..k];
      if rpath !in schema.roots then None
      else if |path| == |rpath| + 1 then Some(schema.roots[rpath])
      else LookupNode(schema.roots[rpath], path[|rpath| + 1..])
  }

  // ---------------------------------------------------------------------------
  // The same resolution stated over path segments

  /** The pieces of `s` between '/' characters, empty pieces included. */
  function Split(s: string): (r: seq<string>)
    ensures |r| >= 1
    decreases |s|
  {
    match FindSlash(s)
    case None => [s]
    case Some(k) => [s[..k]] + Split(s[k + 1..])
  }

  /** The segments written out with '/' between them. */
  function Join(segs: seq<string>): string
    requires |segs| >= 1
  {
    if |segs| == 1 then segs[0] else segs[0] + "/" + Join(segs[1..])
  }

  /** Follows `segs` down from `node`, each segment taking the first accepting child. */
  function Walk(node: Node, segs: seq<string>): Option<Node>
  {
    if segs == [] then Some(node)
    else
      match FirstMatch(node.children, segs[0])
      case None => None
      case Some(i) => Walk(node.children[i], segs[1..])
  }

  /** The root names the first segment after the skipped character; the rest are walked. */
  function Resolve(schema: Schema, path: string): Option<Node>
  {
    if |path| == 0 then None
    else
      var segs := Split(path[1..]);
      if segs[0] !in schema.roots then None
      else Walk(schema.roots[segs[0]], segs[1..])
  }

  lemma {:induction false} SplitJoin(segs: seq<string>)
    requires |segs| >= 1
    requires forall i :: 0 <= i < |segs| ==> '/' !in segs[i]
    ensures Split(Join(segs)) == segs
  {
    if |segs| > 1 {
      var a := segs[0];
      var s := Join(segs);
      assert s == a + "/" + Join(segs[1..]);
      assert s[|a|] == '/';
      assert forall j :: 0 <= j < |a| ==> s[j] == a[j];
      assert FindSlash(s) == Some(|a|);
      assert s[..|a|] == a;
      assert s[|a| + 1..] == Join(segs[1..]);
      SplitJoin(segs[1..]);
    }
  }

  /** The string walk below a node follows the segments of the path. */
  lemma {:induction false} LookupNodeWalk(node: Node, path: string)
    ensures LookupNode(node, path) == Walk(node, Split(StripSlash(path)))
    decreases |path|
  {
    var p := StripSlash(path);
    var slash := FindSlash(p);
    match slash
    case None =>
    case Some(k) =>
      assert Split(p) == [p[..k]] + Split(p[k + 1..]);
      match FirstMatch(node.children, p[..k])
      case None =>
      case Some(i) =>
        assert StripSlash(p[k..]) == p[k + 1..];
        LookupNodeWalk(node.children[i], p[k..]);
  }

  /** Lookup is the segment resolution: split after the first character, root by key, then walk. */
  lemma LookupIsResolve(schema: Schema, path: string)
    ensures Lookup(schema, path) == Resolve(schema, path)
  {
    if |path| > 0 {
      var rest := path[1..];
      match FindSlash(rest)
      case None =>
      case Some(k) =>
        var rpath := rest[..k];
        if rpath in schema.roots {
          assert path[|rpath| + 1..] == rest[k..];
          assert StripSlash(rest[k..]) == rest[k + 1..];
          LookupNodeWalk(schema.roots[rpath], rest[k..]);
        }
    }
  }

  /** A path that is "/" and a root's name yields that root. */
  lemma LookupRoot(schema: Schema, root: string)
    requires root in schema.roots && '/' !in root
    ensures Lookup(schema, "/" + root) == Some(schema.roots[root])
  {
  }

  /** A root name that is not a key yields nothing, whatever follows it. */
  lemma LookupUnknownRoot(schema: Schema, root: string, tail: string)
    requires root !in schema.roots && '/' !in root
    ensures Lookup(schema, "/" + root) == None
    ensures Lookup(schema, "/" + root + "/" + tail) == None
  {
    assert ("/" + root)[1..] == root;
    var path := "/" + root + "/" + tail;
    var rest := path[1..];
    assert rest == root + "/" + tail;
    assert rest[|root|] == '/';
    assert forall j :: 0 <= j < |root| ==> rest[j] == root[j];
    assert FindSlash(rest) == Some(|root|);
    assert rest[..|root|] == root;
  }

  /**
   * A path written as "/" followed by a root name and further '/'-free segments
   * resolves by walking those segments down from the root.
   */
  lemma LookupSegments(schema: Schema, root: string, segs: seq<string>)
    requires root in schema.roots
    requires '/' !in root && forall i :: 0 <= i < |segs| ==> '/' !in segs[i]
    requires |segs| >= 1
    ensures Lookup(schema, "/" + Join([root] + segs)) == Walk(schema.roots[root], segs)
  {
    var path := "/" + Join([root] + segs);
    LookupIsResolve(schema, path);
    assert path[1..] == Join([root] + segs);
    SplitJoin([root] + segs);
    assert ([root] + segs)[1..] == segs;
  }
}
