/** `String.prototype.replaceAll` with a string pattern: the literal
    replacement the formatter relies on, and the JavaScript built-in as it
    behaves when the replacement is a string. */
module Replace {

  /** `pat` occurs in `s` starting at index `i`. */
  predicate OccursAt(s: string, pat: string, i: int) {
    0 <= i && i + |pat| <= |s| && s[i..i + |pat|] == pat
  }

  predicate Occurs(s: string, pat: string) {
    exists i :: 0 <= i <= |s| && OccursAt(s, pat, i)
  }

  /** No occurrence of `pat` in `a + b` starts inside `a` and ends inside `b`. */
  predicate NoStraddle(a: string, b: string, pat: string) {
    forall i :: 0 <= i < |a| < i + |pat| ==> !OccursAt(a + b, pat, i)
  }

  /** Occurrences in a suffix are occurrences in the whole, shifted. */
  lemma OccursAtShift(x: string, y: string, pat: string, i: int)
    requires 0 <= i
    ensures OccursAt(x + y, pat, |x| + i) <==> OccursAt(y, pat, i)
  {
    if i + |pat| <= |y| {
      assert (x + y)[|x| + i..|x| + i + |pat|] == y[i..i + |pat|];
    }
  }

  /** An occurrence after the first character is an occurrence in the whole. */
  lemma OccursInTail(s: string, pat: string)
    requires s != []
    ensures Occurs(s[1..], pat) ==> Occurs(s, pat)
  {
    if Occurs(s[1..], pat) {
      var i :| 0 <= i <= |s[1..]| && OccursAt(s[1..], pat, i);
      OccursAtShift(s[..1], s[1..], pat, i);
      assert s[..1] + s[1..] == s;
    }
  }

  /** Literal `replaceAll`: scans `s` left to right and replaces every
      occurrence of `pat` that does not overlap an earlier replaced one by
      `rep`; inserted text is never scanned again. */
  function ReplaceAll(s: string, pat: string, rep: string): (r: string)
    requires pat != []
    ensures rep == pat ==> r == s
    decreases |s|
  {
    if s == [] then []
    else if pat <= s then
      assert pat + s[|pat|..] == s;
      rep + ReplaceAll(s[|pat|..], pat, rep)
    else
      assert [s[0]] + s[1..] == s;
      [s[0]] + ReplaceAll(s[1..], pat, rep)
  }

  /** A string in which `pat` does not occur comes back unchanged. */
  lemma {:induction false} ReplaceAllNoOccurrence(s: string, pat: string, rep: string)
    requires pat != [] && !Occurs(s, pat)
    ensures ReplaceAll(s, pat, rep) == s
    decreases |s|
  {
    if s != [] {
      assert !OccursAt(s, pat, 0);
      OccursInTail(s, pat);
      ReplaceAllNoOccurrence(s[1..], pat, rep);
      assert [s[0]] + s[1..] == s;
    }
  }

  /** How many occurrences the left-to-right scan of `ReplaceAll` replaces. */
  function MatchCount(s: string, pat: string): nat
    requires pat != []
    decreases |s|
  {
    if s == [] then 0
    else if pat <= s then 1 + MatchCount(s[|pat|..], pat)
    else MatchCount(s[1..], pat)
  }

  /** The scan replaces at least one occurrence exactly when there is one. */
  lemma {:induction false} MatchCountPositive(s: string, pat: string)
    requires pat != []
    ensures MatchCount(s, pat) > 0 <==> Occurs(s, pat)
    decreases |s|
  {
    if s == [] {
    } else if pat <= s {
      assert OccursAt(s, pat, 0);
    } else {
      MatchCountPositive(s[1..], pat);
      OccursInTail(s, pat);
      if Occurs(s, pat) {
        var i :| 0 <= i <= |s| && OccursAt(s, pat, i);
        assert i != 0;
        assert s[..1] + s[1..] == s;
        OccursAtShift(s[..1], s[1..], pat, i - 1);
      }
    }
  }

  /** Each replacement changes the length by the difference of the lengths
      of `rep` and `pat`. */
  lemma {:induction false} ReplaceAllLength(s: string, pat: string, rep: string)
    requires pat != []
    ensures |ReplaceAll(s, pat, rep)| == |s| + MatchCount(s, pat) * (|rep| - |pat|)
    decreases |s|
  {
    if s == [] {
    } else if pat <= s {
      ReplaceAllLength(s[|pat|..], pat, rep);
      var c := MatchCount(s[|pat|..], pat);
      var d := |rep| - |pat|;
      assert (1 + c) * d == d + c * d;
    } else {
      ReplaceAllLength(s[1..], pat, rep);
    }
  }

  /** When `rep` and `pat` differ in length, `replaceAll` leaves a string
      unchanged exactly when the pattern does not occur in it. */
  lemma ReplaceAllUnchangedIff(s: string, pat: string, rep: string)
    requires pat != [] && |rep| != |pat|
    ensures ReplaceAll(s, pat, rep) == s <==> !Occurs(s, pat)
  {
    if !Occurs(s, pat) {
      ReplaceAllNoOccurrence(s, pat, rep);
    }
    ReplaceAllLength(s, pat, rep);
    MatchCountPositive(s, pat);
    if MatchCount(s, pat) > 0 {
      ProductNonZero(MatchCount(s, pat), |rep| - |pat|);
    }
  }

  lemma ProductNonZero(n: int, d: int)
    requires n > 0 && d != 0
    ensures n * d != 0
  {
  }

  /** Replacement is local: when no occurrence crosses the boundary between
      `a` and `b`, the two halves are replaced independently. */
  lemma {:induction false} ReplaceAllAppend(a: string, b: string, pat: string, rep: string)
    requires pat != [] && NoStraddle(a, b, pat)
    ensures ReplaceAll(a + b, pat, rep) == ReplaceAll(a, pat, rep) + ReplaceAll(b, pat, rep)
    decreases |a|
  {
    if a == [] {
      assert a + b == b;
    } else if pat <= a + b {
      assert OccursAt(a + b, pat, 0);
      assert |pat| <= |a|;
      assert pat <= a by {
        assert a[..|pat|] == (a + b)[..|pat|];
      }
      var a' := a[|pat|..];
      assert (a + b)[|pat|..] == a' + b;
      forall i | 0 <= i < |a'| < i + |pat|
        ensures !OccursAt(a' + b, pat, i)
      {
        assert a + b == a[..|pat|] + (a' + b);
        OccursAtShift(a[..|pat|], a' + b, pat, i);
      }
      ReplaceAllAppend(a', b, pat, rep);
    } else {
      assert !(pat <= a);
      var a' := a[1..];
      assert (a + b)[1..] == a' + b;
      forall i | 0 <= i < |a'| < i + |pat|
        ensures !OccursAt(a' + b, pat, i)
      {
        assert a + b == a[..1] + (a' + b);
        OccursAtShift(a[..1], a' + b, pat, i);
      }
      ReplaceAllAppend(a', b, pat, rep);
    }
  }

  /** GetSubstitution of ECMA-262 for a string search value, which has no
      capture groups: `$$` gives `$`, `$&` the matched text, `` $` `` the text
      of the whole subject before the match, `$'` the text after it; every
      other `$` stays as it is. */
  function Substitution(rep: string, matched: string, before: string, after: string): (r: string)
    ensures '$' !in rep ==> r == rep
    decreases |rep|
  {
    if rep == [] then []
    else if rep[0] == '$' && |rep| >= 2 && rep[1] in "$&`'" then
      var expansion :=
        if rep[1] == '$' then "$"
        else if rep[1] == '&' then matched
        else if rep[1] == '`' then before
        else after;
      expansion + Substitution(rep[2..], matched, before, after)
    else
      assert rep == [rep[0]] + rep[1..];
      [rep[0]] + Substitution(rep[1..], matched, before, after)
  }

  /** The scan of the built-in `replaceAll` over the original subject `s`
      from index `i`: every match position is found in `s`, and the
      replacement for each goes through `Substitution`. */
  function JsReplaceAllFrom(s: string, pat: string, rep: string, i: nat): string
    requires pat != [] && i <= |s|
    decreases |s| - i
  {
    if i + |pat| > |s| then s[i..]
    else if s[i..i + |pat|] == pat then
      Substitution(rep, pat, s[..i], s[i + |pat|..]) + JsReplaceAllFrom(s, pat, rep, i + |pat|)
    else [s[i]] + JsReplaceAllFrom(s, pat, rep, i + 1)
  }

  /** `String.prototype.replaceAll(pat, rep)` for strings `pat` and `rep`,
      as the JavaScript engine runs it. */
  function JsReplaceAll(s: string, pat: string, rep: string): (r: string)
    requires pat != []
    ensures '$' !in rep ==> r == ReplaceAll(s, pat, rep)
    ensures !Occurs(s, pat) ==> r == s
  {
    if !Occurs(s, pat) then
      JsNoOccurrenceFrom(s, pat, rep, 0);
      ReplaceAllNoOccurrence(s, pat, rep);
      JsReplaceAllFrom(s, pat, rep, 0)
    else if '$' !in rep then
      JsAgreesWithoutDollar(s, pat, rep, 0);
      JsReplaceAllFrom(s, pat, rep, 0)
    else JsReplaceAllFrom(s, pat, rep, 0)
  }

  /** Where the pattern never occurs the built-in never substitutes, so even
      a replacement with `$` leaves every suffix as it is. */
  lemma {:induction false} JsNoOccurrenceFrom(s: string, pat: string, rep: string, i: nat)
    requires pat != [] && i <= |s| && !Occurs(s, pat)
    ensures JsReplaceAllFrom(s, pat, rep, i) == s[i..]
    decreases |s| - i
  {
    if i + |pat| <= |s| {
      assert !OccursAt(s, pat, i);
      JsNoOccurrenceFrom(s, pat, rep, i + 1);
      assert s[i..] == [s[i]] + s[i + 1..];
    }
  }

  /** Without `$` in the replacement, the built-in and the literal
      replacement agree on every suffix. */
  lemma {:induction false} JsAgreesWithoutDollar(s: string, pat: string, rep: string, i: nat)
    requires pat != [] && i <= |s| && '$' !in rep
    ensures JsReplaceAllFrom(s, pat, rep, i) == ReplaceAll(s[i..], pat, rep)
    decreases |s| - i
  {
    var t := s[i..];
    if i + |pat| > |s| {
      assert !Occurs(t, pat);
      ReplaceAllNoOccurrence(t, pat, rep);
    } else if s[i..i + |pat|] == pat {
      assert pat <= t && t != [];
      assert t[|pat|..] == s[i + |pat|..];
      JsAgreesWithoutDollar(s, pat, rep, i + |pat|);
    } else {
      assert !(pat <= t) by {
        assert t[..|pat|] == s[i..i + |pat|];
      }
      assert t[1..] == s[i + 1..];
      JsAgreesWithoutDollar(s, pat, rep, i + 1);
    }
  }
}
