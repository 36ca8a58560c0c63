/**
 * ECMAScript `String.prototype.trim` on strings of code points: it removes
 * the WhiteSpace and LineTerminator characters of ECMA-262 (section 12.2 and
 * 12.3) from both ends of the string.
 */
module Text {

  /** WhiteSpace (TAB, VT, FF, ZWNBSP and every Zs character) or LineTerminator (LF, CR, LS, PS). */
  predicate IsWhiteSpace(c: char) {
    var n := c as int;
    n == 0x09 || n == 0x0A || n == 0x0B || n == 0x0C || n == 0x0D
    || n == 0x20 || n == 0xA0 || n == 0x1680 || (0x2000 <= n <= 0x200A)
    || n == 0x2028 || n == 0x2029 || n == 0x202F || n == 0x205F
    || n == 0x3000 || n == 0xFEFF
  }

  predicate AllWhiteSpace(s: string) {
    forall i :: 0 <= i < |s| ==> IsWhiteSpace(s[i])
  }

  /** A string that `trim` leaves as it is: empty, or neither end is white space. */
  predicate Trimmed(s: string) {
    s == [] || (!IsWhiteSpace(s[0]) && !IsWhiteSpace(s[|s| - 1]))
  }

  /** The length of the longest all-white-space prefix. */
  function LeadingWhiteSpace(s: string): (k: nat)
    ensures k <= |s|
    ensures AllWhiteSpace(s[..k])
    ensures k < |s| ==> !IsWhiteSpace(s[k])
  {
    if s == [] || !IsWhiteSpace(s[0]) then 0
    else
      var k := 1 + LeadingWhiteSpace(s[1..]);
      assert forall i :: 1 <= i < k ==> s[..k][i] == s[1..][..k - 1][i - 1];
      k
  }

  /** The length of the longest all-white-space suffix. */
  function TrailingWhiteSpace(s: string): (k: nat)
    ensures k <= |s|
    ensures AllWhiteSpace(s[|s| - k..])
    ensures k < |s| ==> !IsWhiteSpace(s[|s| - 1 - k])
  {
    if s == [] || !IsWhiteSpace(s[|s| - 1]) then 0
    else
      var init := s[..|s| - 1];
      var k := 1 + TrailingWhiteSpace(init);
      assert s[|s| - k..] == init[|init| - (k - 1)..] + [s[|s| - 1]];
      k
  }

  /** `s.trim()` */
  function Trim(s: string): string {
    var t := s[LeadingWhiteSpace(s)..];
    t[..|t| - TrailingWhiteSpace(t)]
  }

  /**
   * What `trim` returns, stated without reference to how it works: `s` is
   * the result surrounded by white space, and the result has no white space
   * at either end.
   */
  lemma TrimSplits(s: string)
    ensures Trimmed(Trim(s))
    ensures exists a, b :: 0 <= a <= b <= |s| && Trim(s) == s[a..b]
                           && AllWhiteSpace(s[..a]) && AllWhiteSpace(s[b..])
  {
    var a := LeadingWhiteSpace(s);
    var t := s[a..];
    var k := TrailingWhiteSpace(t);
    var b := a + |t| - k;
    assert Trim(s) == s[a..b];
    assert s[b..] == t[|t| - k..];
    if Trim(s) != [] {
      assert Trim(s)[0] == s[a];
      assert Trim(s)[|Trim(s)| - 1] == t[|t| - 1 - k];
    }
  }

  /** Leading white space of `p + m + q` is exactly `p` when `m` starts with a non-space. */
  lemma LeadingOfPadded(p: string, m: string, q: string)
    requires AllWhiteSpace(p) && m != [] && !IsWhiteSpace(m[0])
    ensures LeadingWhiteSpace(p + m + q) == |p|
    decreases |p|
  {
    var s := p + m + q;
    if p == [] {
      assert s[0] == m[0];
    } else {
      assert s[1..] == p[1..] + m + q;
      LeadingOfPadded(p[1..], m, q);
    }
  }

  /** Trailing white space of `m + q` is exactly `q` when `m` ends with a non-space. */
  lemma TrailingOfPadded(m: string, q: string)
    requires AllWhiteSpace(q) && m != [] && !IsWhiteSpace(m[|m| - 1])
    ensures TrailingWhiteSpace(m + q) == |q|
    decreases |q|
  {
    var s := m + q;
    if q == [] {
      assert s == m;
    } else {
      assert s[..|s| - 1] == m + q[..|q| - 1];
      TrailingOfPadded(m, q[..|q| - 1]);
    }
  }

  /**
   * `trim` is determined by the decomposition: padding a trimmed string with
   * white space on both sides and trimming gives the string back.
   */
  lemma {:induction false} TrimOfPadded(p: string, m: string, q: string)
    requires AllWhiteSpace(p) && AllWhiteSpace(q) && Trimmed(m)
    ensures Trim(p + m + q) == m
  {
    var s := p + m + q;
    if m == [] {
      assert AllWhiteSpace(s) by {
        forall i | 0 <= i < |s| ensures IsWhiteSpace(s[i]) {
          if i < |p| { assert s[i] == p[i]; } else { assert s[i] == q[i - |p|]; }
        }
      }
      AllWhiteSpaceTrimsToEmpty(s);
    } else {
      LeadingOfPadded(p, m, q);
      assert s[|p|..] == m + q;
      TrailingOfPadded(m, q);
      assert (m + q)[..|m|] == m;
    }
  }

  /** A string of white space only trims to the empty string, and only such strings do. */
  lemma AllWhiteSpaceTrimsToEmpty(s: string)
    ensures Trim(s) == [] <==> AllWhiteSpace(s)
  {
    var a := LeadingWhiteSpace(s);
    if !AllWhiteSpace(s) {
      var i :| 0 <= i < |s| && !IsWhiteSpace(s[i]);
      assert a <= i;
      var t := s[a..];
      assert !IsWhiteSpace(t[i - a]);
      var k := TrailingWhiteSpace(t);
      assert |t| - k > i - a;
    }
  }

  /** Trimming twice is trimming once. */
  lemma TrimIdempotent(s: string)
    ensures Trim(Trim(s)) == Trim(s)
  {
    TrimSplits(s);
    TrimOfPadded([], Trim(s), []);
    assert [] + Trim(s) + [] == Trim(s);
  }
}
