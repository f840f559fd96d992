/**
 * Python's str.strip() with no argument: removes leading and trailing
 * whitespace, where whitespace is every character str.isspace() accepts.
 */
module Text {

  /** The characters Python's str.isspace() accepts. */
  predicate IsSpace(c: char) {
    || '\U{9}' <= c <= '\U{D}'
    || '\U{1C}' <= c <= ' '
    || c == '\U{85}'
    || c == '\U{A0}'
    || c == '\U{1680}'
    || '\U{2000}' <= c <= '\U{200A}'
    || '\U{2028}' <= c <= '\U{2029}'
    || c == '\U{202F}'
    || c == '\U{205F}'
    || c == '\U{3000}'
  }

  /** Every character of s is whitespace (true of the empty string). */
  predicate AllSpace(s: string) {
    forall i :: 0 <= i < |s| ==> IsSpace(s[i])
  }

  /** Every character of s at a position in [lo, hi) is whitespace. */
  predicate SpaceBetween(s: string, lo: int, hi: int) {
    forall i :: lo <= i < hi && 0 <= i < |s| ==> IsSpace(s[i])
  }

  /** s without its leading whitespace: the longest suffix that starts with a non-space. */
  function StripLeading(s: string): (r: string)
    ensures |r| <= |s| && r == s[|s| - |r|..]
    ensures SpaceBetween(s, 0, |s| - |r|)
    ensures r == [] || !IsSpace(r[0])
  {
    if s == [] || !IsSpace(s[0]) then s
    else
      var r := StripLeading(s[1..]);
      assert forall i :: 1 <= i < |s| ==> s[i] == s[1..][i - 1];
      r
  }

  /** s without its trailing whitespace: the longest prefix that ends with a non-space. */
  function StripTrailing(s: string): (r: string)
    ensures |r| <= |s| && r == s[..|r|]
    ensures SpaceBetween(s, |r|, |s|)
    ensures r == [] || !IsSpace(r[|r| - 1])
  {
    if s == [] || !IsSpace(s[|s| - 1]) then s
    else
      var r := StripTrailing(s[..|s| - 1]);
      assert forall i :: 0 <= i < |s| - 1 ==> s[i] == s[..|s| - 1][i];
      r
  }

  /**
   * Trimming the whitespace prefix and then the whitespace suffix leaves
   * nothing exactly when s is all whitespace, and otherwise a string that
   * starts and ends with a non-space.
   */
  lemma TrimmedShape(s: string, lead: string, r: string)
    requires |lead| <= |s| && lead == s[|s| - |lead|..] && SpaceBetween(s, 0, |s| - |lead|)
    requires lead == [] || !IsSpace(lead[0])
    requires |r| <= |lead| && r == lead[..|r|] && SpaceBetween(lead, |r|, |lead|)
    requires r == [] || !IsSpace(r[|r| - 1])
    ensures (r == []) <==> AllSpace(s)
    ensures r != [] ==> !IsSpace(r[0]) && !IsSpace(r[|r| - 1])
  {
    var k := |s| - |lead|;
    assert lead != [] ==> lead[0] == s[k];
    assert r == [] ==> AllSpace(lead);
    assert AllSpace(lead) ==> lead == [];
    assert r != [] ==> r[0] == lead[0];
  }

  /**
   * Trimming a whitespace prefix and then a whitespace suffix leaves the
   * slice of s that starts where the prefix ends.
   */
  lemma TrimmedIsSlice(s: string, lead: string, r: string)
    requires |lead| <= |s| && lead == s[|s| - |lead|..] && SpaceBetween(s, 0, |s| - |lead|)
    requires |r| <= |lead| && r == lead[..|r|] && SpaceBetween(lead, |r|, |lead|)
    ensures var k := |s| - |lead|;
      k + |r| <= |s| && r == s[k..k + |r|] && SpaceBetween(s, k + |r|, |s|)
  {
    var k := |s| - |lead|;
    assert forall i :: 0 <= i < |lead| ==> lead[i] == s[k + i];
  }

  /**
   * str.strip(): the part of s between its leading and its trailing
   * whitespace. It is empty exactly when s is all whitespace; otherwise it
   * starts and ends with a non-space character (StripIsSlice: it is the
   * slice of s between the two runs of whitespace).
   */
  function Strip(s: string): (r: string)
    ensures (r == []) <==> AllSpace(s)
    ensures r != [] ==> !IsSpace(r[0]) && !IsSpace(r[|r| - 1])
  {
    var lead := StripLeading(s);
    var r := StripTrailing(lead);
    TrimmedShape(s, lead, r);
    r
  }

  /**
   * What strip() keeps is a slice of s with only whitespace before it and
   * only whitespace after it: nothing of s is lost or changed in between.
   */
  lemma StripIsSlice(s: string)
    ensures exists k :: (0 <= k && k + |Strip(s)| <= |s| && Strip(s) == s[k..k + |Strip(s)|]
      && SpaceBetween(s, 0, k) && SpaceBetween(s, k + |Strip(s)|, |s|))
  {
    var lead := StripLeading(s);
    var r := StripTrailing(lead);
    assert Strip(s) == r;
    TrimmedIsSlice(s, lead, r);
    var k := |s| - |lead|;
    assert r == s[k..k + |r|] && SpaceBetween(s, 0, k) && SpaceBetween(s, k + |r|, |s|);
  }

  /**
   * The truth test s.strip() == "" as a call: true exactly when s is
   * nothing but whitespace.
   */
  method StripsToEmpty(s: string) returns (empty: bool)
    ensures empty <==> AllSpace(s)
  {
    empty := Strip(s) == "";
  }

  /** Spaces around a word do not survive strip(); the word does. */
  lemma StripExample()
    ensures Strip(" Alice\t") == "Alice"
  {
    LeadingExample();
    TrailingExample();
  }

  lemma LeadingExample()
    ensures StripLeading(" Alice\t") == "Alice\t"
  {
    var s := " Alice\t";
    assert IsSpace(s[0]) && s[1..] == "Alice\t";
    assert !IsSpace('A');
  }

  lemma TrailingExample()
    ensures StripTrailing("Alice\t") == "Alice"
  {
    var s := "Alice\t";
    assert IsSpace(s[5]) && s[..5] == "Alice";
    assert !IsSpace('e');
  }
}
