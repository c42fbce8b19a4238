/** JavaScript's `String.prototype.trim`, over Unicode characters. */
module Whitespace {

  /** The characters `trim` removes: the WhiteSpace and LineTerminator
      code points of ECMA-262 (TAB, VT, FF, ZWNBSP, the Unicode space
      separators, LF, CR, LS and PS). */
  predicate IsWhite(ch: char) {
    || ch == '\t' || ch == '\U{000B}' || ch == '\U{000C}' || ch == '\U{FEFF}'
    || ch == '\n' || ch == '\r' || ch == '\U{2028}' || ch == '\U{2029}'
    // category Zs
    || ch == ' ' || ch == '\U{00A0}' || ch == '\U{1680}'
    || ('\U{2000}' <= ch <= '\U{200A}')
    || ch == '\U{202F}' || ch == '\U{205F}' || ch == '\U{3000}'
  }

  predicate AllWhite(s: string) {
    forall k :: 0 <= k < |s| ==> IsWhite(s[k])
  }

  /** Neither end of `s` is a white character. */
  predicate IsTrimmed(s: string) {
    s == [] || (!IsWhite(s[0]) && !IsWhite(s[|s| - 1]))
  }

  /** Length of the longest all-white prefix of `s`. */
  function LeadingWhite(s: string): (k: nat)
    ensures k <= |s|
    ensures forall j :: 0 <= j < k ==> IsWhite(s[j])
    ensures k < |s| ==> !IsWhite(s[k])
    decreases |s|
  {
    if |s| > 0 && IsWhite(s[0]) then 1 + LeadingWhite(s[1..]) else 0
  }

  /** Length of the longest all-white suffix of `s`. */
  function TrailingWhite(s: string): (k: nat)
    ensures k <= |s|
    ensures forall j :: |s| - k <= j < |s| ==> IsWhite(s[j])
    ensures k < |s| ==> !IsWhite(s[|s| - k - 1])
    decreases |s|
  {
    if |s| > 0 && IsWhite(s[|s| - 1]) then 1 + TrailingWhite(s[..|s| - 1]) else 0
  }

  /** `s.trim()`: `s` with its white prefix and white suffix removed. */
  function Trim(s: string): (r: string)
    ensures IsTrimmed(r)
    ensures |r| <= |s|
    ensures exists a :: 0 <= a <= |s| - |r| && IsWhitePadding(s, a, r)
  {
    var a := LeadingWhite(s);
    var rest := s[a..];
    var b := TrailingWhite(rest);
    var r := rest[..|rest| - b];
    assert AllWhite(s[..a]) by {
      forall j | 0 <= j < a ensures IsWhite(s[..a][j]) {
        assert s[..a][j] == s[j];
      }
    }
    var tail := s[a + |r|..];
    assert AllWhite(tail) by {
      forall j | 0 <= j < b ensures IsWhite(tail[j]) {
        assert tail[j] == rest[|rest| - b + j];
      }
    }
    assert IsWhitePadding(s, a, r);
    r
  }

  /** `s` is `r` surrounded by white characters, with `r` starting at `a`. */
  predicate IsWhitePadding(s: string, a: nat, r: string) {
    && a + |r| <= |s|
    && s[a..a + |r|] == r
    && AllWhite(s[..a])
    && AllWhite(s[a + |r|..])
  }

  /** The trim of a string is the unique trimmed core surrounded by white
      characters: any such decomposition is the one `Trim` finds. */
  lemma TrimUnique(p: string, t: string, q: string)
    requires AllWhite(p) && AllWhite(q) && IsTrimmed(t)
    ensures Trim(p + t + q) == t
  {
    var s := p + t + q;
    var r := Trim(s);
    var a :| 0 <= a <= |s| - |r| && IsWhitePadding(s, a, r);
    if t == [] {
      assert AllWhite(s) by {
        forall k | 0 <= k < |s| ensures IsWhite(s[k]) {
          if k < |p| { assert s[k] == p[k]; } else { assert s[k] == q[k - |p|]; }
        }
      }
      if r != [] { assert false; }
    } else {
      // The first non-white character of s is t[0], at |p|.
      assert s[|p|] == t[0];
      if a > |p| { assert false; }
      if a < |p| { assert false; }
      // The last non-white character of s is t[|t| - 1], at |p| + |t| - 1.
      var e := |p| + |t|;
      assert s[e - 1] == t[|t| - 1];
      if a + |r| < e { assert false; }
      if a + |r| > e { assert false; }
      assert s[a..a + |r|] == t;
    }
  }

  /** Trimming is idempotent. */
  lemma TrimIdempotent(s: string)
    ensures Trim(Trim(s)) == Trim(s)
  {
    TrimUnique([], Trim(s), []);
    assert [] + Trim(s) + [] == Trim(s);
  }

  /** A string of white characters only trims to the empty string. */
  lemma TrimAllWhite(s: string)
    requires AllWhite(s)
    ensures Trim(s) == []
  {
    TrimUnique(s, [], []);
    assert s + [] + [] == s;
  }
}
