/**
 * Java strings as sequences of UTF-16 code units, and the few String and
 * StringUtils operations the router uses.
 */
module JavaText {

  /** A Java `char`. Dafny's `char` excludes the surrogate range, so unpaired surrogates are not modelled. */
  type CodeUnit = c: char | c as int < 0x1_0000 witness 'a'

  /** A Java `String`. */
  type JString = seq<CodeUnit>

  /** `s.startsWith(p)`. */
  predicate StartsWith(s: JString, p: JString) {
    |p| <= |s| && s[..|p|] == p
  }

  /** `s.endsWith(t)`. */
  predicate EndsWith(s: JString, t: JString) {
    |t| <= |s| && s[|s| - |t|..] == t
  }

  /** `t` occurs in `s` starting at index `j`. */
  predicate OccursAt(s: JString, t: JString, j: int) {
    0 <= j && j + |t| <= |s| && s[j..j + |t|] == t
  }

  /** `s.indexOf(t, from)`: the first occurrence of `t` at or after `from`, or -1. */
  function IndexFrom(s: JString, t: JString, from: nat): (r: int)
    ensures r == -1 || (from <= r && OccursAt(s, t, r))
    ensures forall j :: from <= j && (r == -1 || j < r) ==> !OccursAt(s, t, j)
    decreases |s| - from
  {
    if from + |t| > |s| then -1
    else if s[from..from + |t|] == t then from
    else IndexFrom(s, t, from + 1)
  }

  /** `s.indexOf(t)`. */
  function IndexOf(s: JString, t: JString): (r: int)
    ensures r == -1 || OccursAt(s, t, r)
    ensures forall j :: 0 <= j && (r == -1 || j < r) ==> !OccursAt(s, t, j)
  {
    IndexFrom(s, t, 0)
  }

  /** `s.indexOf(c)` for one character: the first index holding `c`, or -1 when none does. */
  lemma IndexOfChar(s: JString, c: CodeUnit)
    ensures IndexOf(s, [c]) == -1 ==> forall j :: 0 <= j < |s| ==> s[j] != c
    ensures IndexOf(s, [c]) >= 0 ==> IndexOf(s, [c]) < |s| && s[IndexOf(s, [c])] == c
    ensures IndexOf(s, [c]) >= 0 ==> forall j :: 0 <= j < IndexOf(s, [c]) ==> s[j] != c
    ensures forall j :: 0 <= j < |s| && s[j] == c ==> 0 <= IndexOf(s, [c]) <= j
  {
    forall j | 0 <= j < |s| && s[j] == c
      ensures OccursAt(s, [c], j)
    {
      assert s[j..j + 1] == [c];
    }
  }

  /**
   * `s.replaceFirst(t, "")` when `t` holds no regular-expression
   * metacharacter: the first occurrence of `t` is cut out.
   */
  function RemoveFirst(s: JString, t: JString): (r: JString)
    ensures IndexOf(s, t) == -1 ==> r == s
    ensures IndexOf(s, t) >= 0 ==> r == s[..IndexOf(s, t)] + s[IndexOf(s, t) + |t|..]
  {
    var i := IndexOf(s, t);
    if i < 0 then s else s[..i] + s[i + |t|..]
  }

  /**
   * `Character.isWhitespace(c)`: the space, line and paragraph separators
   * other than the three no-break spaces, and the ASCII controls
   * U+0009-U+000D and U+001C-U+001F.
   */
  predicate IsWhitespace(c: CodeUnit) {
    var n := c as int;
    || (0x09 <= n <= 0x0D) || (0x1C <= n <= 0x20)
    || n == 0x1680 || (0x2000 <= n <= 0x2006) || (0x2008 <= n <= 0x200A)
    || n == 0x2028 || n == 0x2029 || n == 0x205F || n == 0x3000
  }

  /** `StringUtils.hasText(s)`: non-empty with at least one non-whitespace character. */
  predicate HasText(s: JString) {
    exists i :: 0 <= i < |s| && !IsWhitespace(s[i])
  }
}
