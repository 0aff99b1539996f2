/** The two JavaScript string built-ins that keyword normalisation uses:
    `String.prototype.trim` and `String.prototype.toLowerCase`. */
module JsString {

  /** The code points `trim` strips: WhiteSpace and LineTerminator of ECMA-262
      (tab, vertical tab, form feed, space, no-break space, byte order mark,
      the other space separators, line feed, carriage return, line and
      paragraph separators). */
  predicate IsWhiteSpace(c: char) {
    || c == '\t' || c == '\n' || c == '\U{000B}' || c == '\U{000C}' || c == '\r'
    || c == ' ' || c == '\U{00A0}' || c == '\U{1680}'
    || ('\U{2000}' <= c <= '\U{200A}')
    || c == '\U{2028}' || c == '\U{2029}' || c == '\U{202F}' || c == '\U{205F}'
    || c == '\U{3000}' || c == '\U{FEFF}'
  }

  predicate IsUpper(c: char) {
    'A' <= c <= 'Z'
  }

  /** Lower-cases one character; only the ASCII letters A to Z are mapped. */
  function LowerChar(c: char): (d: char)
    ensures !IsUpper(d)
    ensures IsUpper(c) ==> 'a' <= d <= 'z' && d as int - c as int == 32
    ensures !IsUpper(c) ==> d == c
    ensures IsWhiteSpace(d) <==> IsWhiteSpace(c)
  {
    if IsUpper(c) then (c as int + 32) as char else c
  }

  /** `s` has no whitespace at either end. */
  predicate IsTrimmed(s: string) {
    s == [] || (!IsWhiteSpace(s[0]) && !IsWhiteSpace(s[|s| - 1]))
  }

  /** `s` has no upper-case letter. */
  predicate IsLower(s: string) {
    forall i :: 0 <= i < |s| ==> !IsUpper(s[i])
  }

  /** Drops leading whitespace: the result is the suffix of `s` that starts
      at its first non-whitespace character. */
  function TrimStart(s: string): (r: string)
    ensures |r| <= |s| && r == s[|s| - |r|..]
    ensures forall i :: 0 <= i < |s| - |r| ==> IsWhiteSpace(s[i])
    ensures r == [] || !IsWhiteSpace(r[0])
    decreases |s|
  {
    if s != [] && IsWhiteSpace(s[0]) then TrimStart(s[1..]) else s
  }

  /** Drops trailing whitespace: the result is the prefix of `s` that ends
      at its last non-whitespace character. */
  function TrimEnd(s: string): (r: string)
    ensures |r| <= |s| && r == s[..|r|]
    ensures forall i :: |r| <= i < |s| ==> IsWhiteSpace(s[i])
    ensures r == [] || !IsWhiteSpace(r[|r| - 1])
    decreases |s|
  {
    if s != [] && IsWhiteSpace(s[|s| - 1]) then TrimEnd(s[..|s| - 1]) else s
  }

  /** Everything of `s` outside the slice `s[a..b]` is whitespace. */
  predicate OnlyWhiteSpaceOutside(s: string, a: int, b: int) {
    && 0 <= a <= b <= |s|
    && (forall i :: 0 <= i < a ==> IsWhiteSpace(s[i]))
    && (forall i :: b <= i < |s| ==> IsWhiteSpace(s[i]))
  }

  /** `String.prototype.trim`: the slice of `s` between its leading and its
      trailing run of whitespace. */
  function Trim(s: string): (r: string)
    ensures IsTrimmed(r)
    ensures exists a, b :: OnlyWhiteSpaceOutside(s, a, b) && r == s[a..b]
  {
    var t := TrimStart(s);
    var r := TrimEnd(t);
    SliceOfSuffix(s, t, r);
    r
  }

  /** A whitespace-bounded prefix of a whitespace-bounded suffix is a
      whitespace-bounded slice. */
  lemma SliceOfSuffix(s: string, t: string, r: string)
    requires |t| <= |s| && t == s[|s| - |t|..]
    requires forall i :: 0 <= i < |s| - |t| ==> IsWhiteSpace(s[i])
    requires |r| <= |t| && r == t[..|r|]
    requires forall i :: |r| <= i < |t| ==> IsWhiteSpace(t[i])
    ensures OnlyWhiteSpaceOutside(s, |s| - |t|, |s| - |t| + |r|)
    ensures r == s[|s| - |t|..|s| - |t| + |r|]
  {
    var a := |s| - |t|;
    forall i | a + |r| <= i < |s|
      ensures IsWhiteSpace(s[i])
    {
      assert s[i] == t[i - a];
    }
  }

  /** `String.prototype.toLowerCase` on the ASCII letters. */
  function ToLower(s: string): (r: string)
    ensures |r| == |s|
    ensures forall i :: 0 <= i < |s| ==> r[i] == LowerChar(s[i])
    ensures IsLower(r)
    decreases |s|
  {
    if s == [] then [] else [LowerChar(s[0])] + ToLower(s[1..])
  }

  /** A string without whitespace at its ends is its own trim. */
  lemma TrimOfTrimmed(s: string)
    requires IsTrimmed(s)
    ensures Trim(s) == s
  {
  }

  /** A string without upper-case letters is its own lower-case form. */
  lemma ToLowerOfLower(s: string)
    requires IsLower(s)
    ensures ToLower(s) == s
  {
  }

  /** Lower-casing keeps a trimmed string trimmed. */
  lemma ToLowerKeepsTrimmed(s: string)
    requires IsTrimmed(s)
    ensures IsTrimmed(ToLower(s))
  {
  }
}
