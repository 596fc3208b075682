/**
 * The character classes of the regular expressions in the text splitter.
 * `\w` is the ASCII class `[A-Za-z0-9_]`, while `\s` is JavaScript's full
 * white-space class (the ECMAScript WhiteSpace and LineTerminator characters).
 */
module CharClasses {

  /** `\s`: never a word character or a `<`. */
  predicate IsSpace(c: char)
    ensures IsSpace(c) ==> !IsWordChar(c) && c != '<'
  {
    || c == '\t' || c == '\n' || c == '\U{000B}' || c == '\U{000C}' || c == '\r' || c == ' '
    || c == '\U{00A0}' || c == '\U{1680}'
    || ('\U{2000}' <= c <= '\U{200A}')
    || c == '\U{2028}' || c == '\U{2029}' || c == '\U{202F}' || c == '\U{205F}'
    || c == '\U{3000}' || c == '\U{FEFF}'
  }

  /** `\w`: ASCII letters, digits and `_`. */
  predicate IsWordChar(c: char)
    ensures IsWordChar(c) ==> (c as int) < 128
  {
    ('a' <= c <= 'z') || ('A' <= c <= 'Z') || ('0' <= c <= '9') || c == '_'
  }

  /** Every element of `s` is in `\s`. */
  predicate AllSpace(s: string)
  {
    forall i | 0 <= i < |s| :: IsSpace(s[i])
  }

  /**
   * Length of the run of `\s` characters at the start of `s` (what a greedy
   * `\s*` consumes).
   */
  function SpaceRun(s: string): (n: nat)
    ensures n <= |s|
    ensures AllSpace(s[..n])
    ensures n == |s| || !IsSpace(s[n])
    decreases |s|
  {
    if s == [] || !IsSpace(s[0]) then 0
    else
      var n := 1 + SpaceRun(s[1..]);
      assert forall i | 1 <= i < n :: s[..n][i] == s[1..][..n - 1][i - 1];
      n
  }

  /** The run is determined by what it is followed by: spaces, then a non-space. */
  lemma {:induction false} SpaceRunOf(x: string, y: string)
    requires AllSpace(x)
    requires y != [] && !IsSpace(y[0])
    ensures SpaceRun(x + y) == |x|
  {
    var s := x + y;
    var n := SpaceRun(s);
    assert forall i | 0 <= i < n :: s[..n][i] == s[i];
    assert forall i | 0 <= i < |x| :: s[i] == x[i];
    assert s[|x|] == y[0];
  }
}
