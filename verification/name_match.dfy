/**
 * Name comparison used by path lookup: two names are the same when they agree
 * character by character once every '-' is read as '_'.
 */
module NameMatch {

  /** The character at `i`, or the C string terminator past the end. */
  function CharAt(s: string, i: nat): char
  {
    if i < |s| then s[i] else '\0'
  }

  /** Lookup reads '-' and '_' as the same character. */
  function Canon(c: char): char
  {
    if c == '-' then '_' else c
  }

  /** A string that a C `char *` can hold: no embedded terminator. */
  predicate IsCString(s: string)
  {
    '\0' !in s
  }

  /** The comparison loop from position `i` on: stop with success at two terminators, with failure at the first difference. */
  function MatchFrom(a: string, b: string, i: nat): bool
    decreases (if |a| < |b| then |b| else |a|) - i
  {
    var c1 := CharAt(a, i);
    var c2 := CharAt(b, i);
    if c1 == '\0' && c2 == '\0' then true
    else if Canon(c1) != Canon(c2) then false
    else MatchFrom(a, b, i + 1)
  }

  function MatchName(a: string, b: string): bool
  {
    MatchFrom(a, b, 0)
  }

  /** Two C strings agree from `i` on, position by position, once '-' is read as '_'. */
  ghost predicate AgreeFrom(a: string, b: string, i: nat)
  {
    |a| == |b| && forall k :: i <= k < |a| ==> Canon(a[k]) == Canon(b[k])
  }

  lemma {:induction false} MatchFromIff(a: string, b: string, i: nat)
    requires IsCString(a) && IsCString(b)
    requires i <= |a| && i <= |b|
    ensures MatchFrom(a, b, i) <==> AgreeFrom(a, b, i)
    decreases (if |a| < |b| then |b| else |a|) - i
  {
    var c1 := CharAt(a, i);
    var c2 := CharAt(b, i);
    if i < |a| {
      assert a[i] in a;
    }
    if i < |b| {
      assert b[i] in b;
    }
    if Canon(c1) != Canon(c2) {
      if i < |a| && i < |b| {
        assert !AgreeFrom(a, b, i);
      }
    } else if !(c1 == '\0' && c2 == '\0') {
      MatchFromIff(a, b, i + 1);
    }
  }

  /**
   * The names match exactly when they have the same length and agree at every
   * position once '-' is replaced by '_'.
   */
  lemma MatchNameIff(a: string, b: string)
    requires IsCString(a) && IsCString(b)
    ensures MatchName(a, b) <==> |a| == |b| && forall k :: 0 <= k < |a| ==> Canon(a[k]) == Canon(b[k])
  {
    MatchFromIff(a, b, 0);
  }

  lemma {:induction false} MatchFromSymmetric(a: string, b: string, i: nat)
    ensures MatchFrom(a, b, i) == MatchFrom(b, a, i)
    decreases (if |a| < |b| then |b| else |a|) - i
  {
    var c1 := CharAt(a, i);
    var c2 := CharAt(b, i);
    if !(c1 == '\0' && c2 == '\0') && Canon(c1) == Canon(c2) {
      MatchFromSymmetric(a, b, i + 1);
    }
  }

  lemma MatchNameSymmetric(a: string, b: string)
    ensures MatchName(a, b) == MatchName(b, a)
  {
    MatchFromSymmetric(a, b, 0);
  }

  lemma {:induction false} MatchFromReflexive(a: string, i: nat)
    ensures MatchFrom(a, a, i)
    decreases |a| - i
  {
    if CharAt(a, i) != '\0' {
      MatchFromReflexive(a, i + 1);
    }
  }

  lemma MatchNameReflexive(a: string)
    ensures MatchName(a, a)
  {
    MatchFromReflexive(a, 0);
  }
}
