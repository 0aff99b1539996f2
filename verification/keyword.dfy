/** `normalizeKeyword`: the canonical form under which catalog keys and the
    matched keyword are compared. */
module Keyword {
  import opened JsString

  /** A keyword already in canonical form: no whitespace at either end and no
      upper-case letter. */
  predicate IsNormalized(k: string) {
    IsTrimmed(k) && IsLower(k)
  }

  /** Trims `k`, then lower-cases it: the result is the lower-cased slice of
      `k` left after its surrounding whitespace, and is canonical. */
  function Normalize(k: string): (r: string)
    ensures IsNormalized(r)
    ensures exists a, b :: OnlyWhiteSpaceOutside(k, a, b) && r == ToLower(k[a..b])
  {
    var t := Trim(k);
    ToLowerKeepsTrimmed(t);
    ToLower(t)
  }

  /** The canonical forms are exactly the fixed points of `Normalize`. */
  lemma NormalizeFixedPoints(k: string)
    ensures Normalize(k) == k <==> IsNormalized(k)
  {
    if IsNormalized(k) {
      TrimOfTrimmed(k);
      ToLowerOfLower(k);
    }
  }

  /** A keyword without surrounding whitespace normalises to its lower-case form. */
  lemma NormalizeOfTrimmed(k: string)
    requires IsTrimmed(k)
    ensures Normalize(k) == ToLower(k)
  {
    TrimOfTrimmed(k);
  }

  /** Normalising twice is normalising once. */
  lemma NormalizeIdempotent(k: string)
    ensures Normalize(Normalize(k)) == Normalize(k)
  {
    NormalizeFixedPoints(Normalize(k));
  }

  lemma TrimExample()
    ensures Trim(" Badword ") == "Badword"
  {
    var s := " Badword ";
    assert s[0] == ' ' && s[1] == 'B' && s[8] == ' ' && s[7] == 'd';
    assert IsWhiteSpace(' ') && !IsWhiteSpace('B') && !IsWhiteSpace('d');
    assert TrimStart(s) == s[1..] by {
      assert TrimStart(s[1..]) == s[1..];
    }
    assert TrimEnd(s[1..]) == s[1..8] by {
      assert s[1..][..7] == s[1..8];
      assert TrimEnd(s[1..8]) == s[1..8];
    }
    assert s[1..8] == "Badword";
  }

  lemma LowerExample()
    ensures ToLower("Badword") == "badword"
  {
    assert "Badword"[1..] == "adword";
    assert IsLower("adword");
    ToLowerOfLower("adword");
    assert [LowerChar('B')] + "adword" == "badword";
  }

  /** Keys that differ only in case and surrounding whitespace normalise alike. */
  lemma NormalizeExample()
    ensures Normalize(" Badword ") == Normalize("badword") == "badword"
  {
    TrimExample();
    LowerExample();
    NormalizeFixedPoints("badword");
  }
}
