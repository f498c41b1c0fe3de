/**
 * The string trim of ECMAScript, as both the store and the two input components use it.
 * It strips every leading and trailing code point that ECMA-262 classes as
 * WhiteSpace (section 12.2) or LineTerminator (section 12.3).
 */
module Text {

  /** WhiteSpace (section 12.2 of ECMA-262) or LineTerminator (section 12.3). */
  predicate IsWhitespace(c: char) {
    || c == '\t'          // CHARACTER TABULATION
    || c == '\U{B}'       // LINE TABULATION
    || c == '\U{C}'       // FORM FEED
    || c == '\U{FEFF}'    // ZERO WIDTH NO-BREAK SPACE
    || IsSpaceSeparator(c)
    || c == '\n'          // LINE FEED
    || c == '\r'          // CARRIAGE RETURN
    || c == '\U{2028}'    // LINE SEPARATOR
    || c == '\U{2029}'    // PARAGRAPH SEPARATOR
  }

  /** The Unicode general category Zs (includes SPACE and NO-BREAK SPACE). */
  predicate IsSpaceSeparator(c: char) {
    || c == ' '
    || c == '\U{A0}'
    || c == '\U{1680}'
    || ('\U{2000}' <= c <= '\U{200A}')
    || c == '\U{202F}'
    || c == '\U{205F}'
    || c == '\U{3000}'
  }

  /** Every code point of `s` at a position in `[lo, hi)` is whitespace. */
  predicate WhitespaceBetween(s: string, lo: nat, hi: nat)
    requires lo <= hi <= |s|
  {
    forall k :: lo <= k < hi ==> IsWhitespace(s[k])
  }

  predicate AllWhitespace(s: string) {
    WhitespaceBetween(s, 0, |s|)
  }

  /** Neither end of `s` is whitespace. */
  predicate IsTrimmed(s: string) {
    s == [] || (!IsWhitespace(s[0]) && !IsWhitespace(s[|s| - 1]))
  }

  /** Length of the longest all-whitespace prefix of `s`. */
  function LeadingWhitespace(s: string): (n: nat)
    ensures n <= |s|
    ensures WhitespaceBetween(s, 0, n)
    ensures n < |s| ==> !IsWhitespace(s[n])
  {
    if s == [] || !IsWhitespace(s[0]) then 0
    else
      var n := 1 + LeadingWhitespace(s[1..]);
      assert forall k :: 1 <= k < n ==> s[k] == s[1..][k - 1];
      n
  }

  /** Length of the longest all-whitespace suffix of `s`. */
  function TrailingWhitespace(s: string): (n: nat)
    ensures n <= |s|
    ensures WhitespaceBetween(s, |s| - n, |s|)
    ensures n < |s| ==> !IsWhitespace(s[|s| - 1 - n])
  {
    if s == [] || !IsWhitespace(s[|s| - 1]) then 0
    else
      var init := s[..|s| - 1];
      var n := 1 + TrailingWhitespace(init);
      assert forall k :: |s| - n <= k < |s| - 1 ==> s[k] == init[k];
      n
  }

  /**
   * The trim of `s`: the slice of `s` that starts after the leading
   * whitespace, is followed only by whitespace, and has no whitespace at
   * either end.
   */
  function Trim(s: string): (r: string)
    ensures IsTrimmed(r)
    ensures var i := LeadingWhitespace(s);
      && i + |r| <= |s|
      && r == s[i..i + |r|]
      && WhitespaceBetween(s, i + |r|, |s|)
    ensures r == [] <==> AllWhitespace(s)
  {
    var i := LeadingWhitespace(s);
    var j := TrailingWhitespace(s);
    if i == |s| then []
    else
      assert j < |s| - i by {
        assert !IsWhitespace(s[i]);
      }
      assert !AllWhitespace(s) by {
        assert !IsWhitespace(s[i]);
      }
      s[i..|s| - j]
  }

  /** The string is empty or whitespace only, so its trim is empty (a falsy string). */
  predicate IsBlank(s: string)
    ensures IsBlank(s) <==> AllWhitespace(s)
  {
    Trim(s) == []
  }

  /**
   * Trim is characterised by its cut points: any split of `s` into
   * whitespace, a trimmed middle and whitespace gives that middle.
   */
  lemma TrimUnique(s: string, i: nat, j: nat)
    requires i <= j <= |s|
    requires WhitespaceBetween(s, 0, i) && WhitespaceBetween(s, j, |s|)
    requires IsTrimmed(s[i..j])
    ensures Trim(s) == s[i..j]
  {
    if i < j {
      var r := Trim(s);
      var n := LeadingWhitespace(s);
      assert !IsWhitespace(s[i]) by {
        assert s[i] == s[i..j][0];
      }
      assert !IsWhitespace(s[j - 1]) by {
        assert s[j - 1] == s[i..j][j - i - 1];
      }
      assert n == i;
      var e := i + |r|;
      assert r != [] ==> !IsWhitespace(s[e - 1]) by {
        if r != [] {
          assert r[|r| - 1] == s[e - 1];
        }
      }
      assert e == j;
    }
  }

  lemma {:induction false} TrimIdempotent(s: string)
    ensures Trim(Trim(s)) == Trim(s)
  {
    var t := Trim(s);
    assert t[0..|t|] == t;
    TrimUnique(t, 0, |t|);
  }

  /** A string that equals its own trim is exactly a trimmed one. */
  lemma TrimFixedPoint(s: string)
    ensures Trim(s) == s <==> IsTrimmed(s)
  {
    if IsTrimmed(s) {
      assert s[0..|s|] == s;
      TrimUnique(s, 0, |s|);
    }
  }
}
