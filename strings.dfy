/**
  The white space of ECMAScript and String.prototype.trim.
 */
module JsStrings {
  /** WhiteSpace and LineTerminator of ECMAScript (sections 12.2 and 12.3 of
      ECMA-262): the characters the regular expression class \s matches and
      the characters trim removes. */
  predicate IsSpace(c: char) {
    c == ' ' || c == '\t' || c == '\n' || c == '\U{B}' || c == '\U{C}' || c == '\r' ||
    c == '\U{A0}' || c == '\U{1680}' || ('\U{2000}' <= c <= '\U{200A}') ||
    c == '\U{2028}' || c == '\U{2029}' || c == '\U{202F}' || c == '\U{205F}' ||
    c == '\U{3000}' || c == '\U{FEFF}'
  }

  ghost predicate AllSpace(s: string) {
    forall k :: 0 <= k < |s| ==> IsSpace(s[k])
  }

  /** Where the leading white space of s[i..] ends. */
  function LeadEnd(s: string, i: nat): (k: nat)
    requires i <= |s|
    ensures i <= k <= |s| && AllSpace(s[i..k]) && (k < |s| ==> !IsSpace(s[k]))
    decreases |s| - i
  {
    if i < |s| && IsSpace(s[i]) then
      var k := LeadEnd(s, i + 1);
      assert s[i..k] == [s[i]] + s[i + 1..k];
      k
    else i
  }

  /** Where the trailing white space of s[..j] starts, not before i. */
  function TrailStart(s: string, i: nat, j: nat): (k: nat)
    requires i <= j <= |s|
    ensures i <= k <= j && AllSpace(s[k..j]) && (k > i ==> !IsSpace(s[k - 1]))
    decreases j - i
  {
    if j > i && IsSpace(s[j - 1]) then
      var k := TrailStart(s, i, j - 1);
      assert s[k..j] == s[k..j - 1] + [s[j - 1]];
      k
    else j
  }

  /** trim(): s without its leading and trailing white space. */
  function Trim(s: string): (r: string)
    ensures |r| <= |s|
    ensures r == [] || (!IsSpace(r[0]) && !IsSpace(r[|r| - 1]))
  {
    var i := LeadEnd(s, 0);
    s[i..TrailStart(s, i, |s|)]
  }

  /** What trim removes is white space and only that: cutting s into
      white space, a part that neither starts nor ends with white space,
      and white space again, trim returns the middle part. */
  lemma TrimCuts(s: string, i: nat, j: nat)
    requires i <= j <= |s| && AllSpace(s[..i]) && AllSpace(s[j..])
    requires i < j ==> !IsSpace(s[i]) && !IsSpace(s[j - 1])
    ensures Trim(s) == s[i..j]
  {
    var a := LeadEnd(s, 0);
    if i < a {
      assert IsSpace(s[0..a][i]);
    }
    var b := TrailStart(s, a, |s|);
    if j < b {
      assert s[j..][b - 1 - j] == s[b - 1];
    }
  }

  /** Trimming twice is trimming once. */
  lemma TrimIdempotent(s: string)
    ensures Trim(Trim(s)) == Trim(s)
  {
    var r := Trim(s);
    assert r[..0] == [] && r[|r|..] == [];
    TrimCuts(r, 0, |r|);
  }
}
