/**
 * Translation between a field's literal value and its symbolic name, scoped to
 * the ENUM-flagged children of one node. Values are optional: an absent value
 * is the C NULL pointer, and two absent values compare equal.
 */
module EnumTranslate {
  import opened Options
  import opened SchemaNode

  /** The first ENUM child, in order, whose stored value is `v`. */
  function FirstByValue(s: seq<Node>, v: Option<string>): (r: Option<nat>)
    ensures r.Some? ==> r.value < |s| && IsEnum(s[r.value]) && s[r.value].value == v
    ensures r.Some? ==> forall j :: 0 <= j < r.value ==> !(IsEnum(s[j]) && s[j].value == v)
    ensures r.None? ==> forall j :: 0 <= j < |s| ==> !(IsEnum(s[j]) && s[j].value == v)
  {
    if s == [] then None
    else if IsEnum(s[0]) && s[0].value == v then Some(0)
    else
      match FirstByValue(s[1..], v)
      case None => None
      case Some(k) => Some(k + 1)
  }

  /** The first ENUM child, in order, whose name is `v`; an absent `v` names no child. */
  function FirstByName(s: seq<Node>, v: Option<string>): (r: Option<nat>)
    ensures r.Some? ==> r.value < |s| && IsEnum(s[r.value]) && v == Some(s[r.value].name)
    ensures r.Some? ==> forall j :: 0 <= j < r.value ==> !(IsEnum(s[j]) && v == Some(s[j].name))
    ensures r.None? ==> forall j :: 0 <= j < |s| ==> !(IsEnum(s[j]) && v == Some(s[j].name))
  {
    if s == [] then None
    else if IsEnum(s[0]) && v == Some(s[0].name) then Some(0)
    else
      match FirstByName(s[1..], v)
      case None => None
      case Some(k) => Some(k + 1)
  }

  /** An absent input is replaced by the node's default, when it has one. */
  function WithDefault(n: Node, value: Option<string>): Option<string>
  {
    if value.None? && n.defvalue.Some? then n.defvalue else value
  }

  /**
   * Value to name: after default substitution, the name of the first ENUM
   * child storing that value, or the substituted input when none does.
   */
  function TranslateTo(n: Node, value: Option<string>): (r: Option<string>)
    ensures var w := WithDefault(n, value);
      (exists i :: 0 <= i < |n.children| && IsEnum(n.children[i]) && n.children[i].value == w) ==>
        exists i :: 0 <= i < |n.children| && IsEnum(n.children[i]) && n.children[i].value == w
          && r == Some(n.children[i].name)
          && forall j :: 0 <= j < i ==> !(IsEnum(n.children[j]) && n.children[j].value == w)
    ensures var w := WithDefault(n, value);
      (forall i :: 0 <= i < |n.children| ==> !(IsEnum(n.children[i]) && n.children[i].value == w)) ==> r == w
  {
    var w := WithDefault(n, value);
    match FirstByValue(n.children, w)
    case Some(i) => Some(n.children[i].name)
    case None => w
  }

  /**
   * Name to value: the stored value of the first ENUM child with that name, or
   * the input unchanged when none has it. No default is substituted.
   */
  function TranslateFrom(n: Node, value: Option<string>): (r: Option<string>)
    ensures (exists i :: 0 <= i < |n.children| && IsEnum(n.children[i]) && value == Some(n.children[i].name)) ==>
        exists i :: 0 <= i < |n.children| && IsEnum(n.children[i]) && value == Some(n.children[i].name)
          && r == n.children[i].value
          && forall j :: 0 <= j < i ==> !(IsEnum(n.children[j]) && value == Some(n.children[j].name))
    ensures (forall i :: 0 <= i < |n.children| ==> !(IsEnum(n.children[i]) && value == Some(n.children[i].name))) ==>
        r == value
    ensures value.None? ==> r == None
  {
    match FirstByName(n.children, value)
    case Some(i) => n.children[i].value
    case None => value
  }

  /** No two ENUM children share a name. */
  ghost predicate DistinctNames(n: Node)
  {
    forall i, j :: 0 <= i < j < |n.children| && IsEnum(n.children[i]) && IsEnum(n.children[j]) ==>
      n.children[i].name != n.children[j].name
  }

  /** No two ENUM children share a value. */
  ghost predicate DistinctValues(n: Node)
  {
    forall i, j :: 0 <= i < j < |n.children| && IsEnum(n.children[i]) && IsEnum(n.children[j]) ==>
      n.children[i].value != n.children[j].value
  }

  /** Every ENUM child stores a value. */
  ghost predicate ValuesPresent(n: Node)
  {
    forall i :: 0 <= i < |n.children| && IsEnum(n.children[i]) ==> n.children[i].value.Some?
  }

  /** With distinct ENUM names, translating a stored value to its name and back gives the value. */
  lemma ToThenFrom(n: Node, k: nat)
    requires DistinctNames(n)
    requires k < |n.children| && IsEnum(n.children[k]) && n.children[k].value.Some?
    ensures TranslateFrom(n, TranslateTo(n, n.children[k].value)) == n.children[k].value
  {
  }

  /** With distinct ENUM values all present, translating a name to its value and back gives the name. */
  lemma FromThenTo(n: Node, k: nat)
    requires DistinctValues(n) && ValuesPresent(n)
    requires k < |n.children| && IsEnum(n.children[k])
    ensures TranslateTo(n, TranslateFrom(n, Some(n.children[k].name))) == Some(n.children[k].name)
  {
  }

  /** An absent input translates to a name exactly as the node's default does. */
  lemma DefaultSubstitution(n: Node)
    requires n.defvalue.Some?
    ensures TranslateTo(n, None) == TranslateTo(n, n.defvalue)
  {
  }
}
