/**
 * Character-level helpers shared by the model: ECMAScript white space (what
 * `String.prototype.trim` removes) and decimal digit strings.
 */
module JsText {

  /** WhiteSpace and LineTerminator code points of ECMAScript (section 12.2 and 12.3 of ECMA-262). */
  const WhiteSpace: set<char> := {
    '\t', '\n', '\U{000B}', '\U{000C}', '\r', ' ', '\U{00A0}', '\U{1680}',
    '\U{2000}', '\U{2001}', '\U{2002}', '\U{2003}', '\U{2004}', '\U{2005}',
    '\U{2006}', '\U{2007}', '\U{2008}', '\U{2009}', '\U{200A}',
    '\U{2028}', '\U{2029}', '\U{202F}', '\U{205F}', '\U{3000}', '\U{FEFF}'
  }

  predicate IsWhiteSpace(c: char)
  {
    c in WhiteSpace
  }

  predicate AllWhiteSpace(s: string)
  {
    forall i :: 0 <= i < |s| ==> IsWhiteSpace(s[i])
  }

  /** Neither end of s is white space. */
  predicate IsTrimmed(s: string)
  {
    s == [] || (!IsWhiteSpace(s[0]) && !IsWhiteSpace(s[|s| - 1]))
  }

  /** End of the run of white space in s that starts at index i. */
  function LeadingWhiteSpace(s: string, i: nat): (k: nat)
    requires i <= |s|
    ensures i <= k <= |s|
    ensures forall j :: i <= j < k ==> IsWhiteSpace(s[j])
    ensures k == |s| || !IsWhiteSpace(s[k])
    decreases |s| - i
  {
    if i < |s| && IsWhiteSpace(s[i]) then LeadingWhiteSpace(s, i + 1) else i
  }

  /** Start of the run of white space in s that ends just before index i. */
  function TrailingWhiteSpace(s: string, i: nat): (k: nat)
    requires i <= |s|
    ensures k <= i
    ensures forall j :: k <= j < i ==> IsWhiteSpace(s[j])
    ensures k == 0 || !IsWhiteSpace(s[k - 1])
  {
    if i > 0 && IsWhiteSpace(s[i - 1]) then TrailingWhiteSpace(s, i - 1) else i
  }

  /** `String.prototype.trim`: drop the white space at both ends. */
  function Trim(s: string): (r: string)
    ensures |r| <= |s|
    ensures IsTrimmed(r)
    ensures r == [] <==> AllWhiteSpace(s)
  {
    var front := LeadingWhiteSpace(s, 0);
    if front == |s| then []
    else
      var back := TrailingWhiteSpace(s, |s|);
      assert !IsWhiteSpace(s[front]);
      s[front..back]
  }

  /** A white-space run found from i ends wherever white space first stops. */
  lemma {:induction false} LeadingWhiteSpaceIs(s: string, i: nat, k: nat)
    requires i <= k <= |s|
    requires forall j :: i <= j < k ==> IsWhiteSpace(s[j])
    requires k == |s| || !IsWhiteSpace(s[k])
    ensures LeadingWhiteSpace(s, i) == k
    decreases k - i
  {
    if i < k {
      LeadingWhiteSpaceIs(s, i + 1, k);
    }
  }

  /** A white-space run found back from i starts wherever white space first stops. */
  lemma {:induction false} TrailingWhiteSpaceIs(s: string, i: nat, k: nat)
    requires k <= i <= |s|
    requires forall j :: k <= j < i ==> IsWhiteSpace(s[j])
    requires k == 0 || !IsWhiteSpace(s[k - 1])
    ensures TrailingWhiteSpace(s, i) == k
  {
    if k < i {
      TrailingWhiteSpaceIs(s, i - 1, k);
    }
  }

  /**
   * Trim is characterised by its result: whenever s is white space, then a
   * trimmed core, then white space, Trim(s) is exactly that core.
   */
  lemma TrimFindsCore(s: string, front: string, core: string, back: string)
    requires s == front + core + back
    requires AllWhiteSpace(front) && AllWhiteSpace(back) && IsTrimmed(core)
    ensures Trim(s) == core
  {
    var a, b := |front|, |front| + |core|;
    if core == [] {
      assert AllWhiteSpace(s) by {
        forall j | 0 <= j < |s|
          ensures IsWhiteSpace(s[j])
        {
          if j < a { assert s[j] == front[j]; } else { assert s[j] == back[j - a]; }
        }
      }
    } else {
      forall j | 0 <= j < a
        ensures IsWhiteSpace(s[j])
      {
        assert s[j] == front[j];
      }
      assert s[a] == core[0];
      LeadingWhiteSpaceIs(s, 0, a);
      forall j | b <= j < |s|
        ensures IsWhiteSpace(s[j])
      {
        assert s[j] == back[j - b];
      }
      assert s[b - 1] == core[|core| - 1];
      TrailingWhiteSpaceIs(s, |s|, b);
      assert s[a..b] == core;
    }
  }

  /** Trim only removes white space: s is white space, Trim(s), white space. */
  lemma TrimIsInfix(s: string)
    ensures exists front, back ::
              s == front + Trim(s) + back && AllWhiteSpace(front) && AllWhiteSpace(back)
  {
    var front, back := TrimPieces(s);
  }

  /** The white space Trim removes from each end of s. */
  lemma TrimPieces(s: string) returns (front: string, back: string)
    ensures s == front + Trim(s) + back && AllWhiteSpace(front) && AllWhiteSpace(back)
  {
    var a := LeadingWhiteSpace(s, 0);
    if a == |s| {
      front, back := s, [];
      assert s == front + [] + back;
    } else {
      var b := TrailingWhiteSpace(s, |s|);
      front, back := s[..a], s[b..];
      assert s == front + s[a..b] + back;
    }
  }

  /** Trimming twice is trimming once. */
  lemma TrimIdempotent(s: string)
    ensures Trim(Trim(s)) == Trim(s)
  {
    TrimFindsCore(Trim(s), [], Trim(s), []);
  }

  predicate IsDigit(c: char)
  {
    '0' <= c <= '9'
  }

  predicate AllDigits(s: string)
  {
    forall i :: 0 <= i < |s| ==> IsDigit(s[i])
  }

  function DigitValue(c: char): (d: nat)
    requires IsDigit(c)
    ensures d < 10
  {
    c as int - '0' as int
  }

  function DigitChar(d: nat): (c: char)
    requires d < 10
    ensures IsDigit(c) && DigitValue(c) == d
  {
    ('0' as int + d) as char
  }

  /** The number a string of decimal digits denotes (the empty string denotes 0). */
  function DigitsValue(s: string): nat
    requires AllDigits(s)
  {
    if s == [] then 0 else 10 * DigitsValue(s[..|s| - 1]) + DigitValue(s[|s| - 1])
  }

  /** Decimal rendering of a natural number, as JavaScript renders a whole number in a template literal. */
  function ShowNat(n: nat): (r: string)
    ensures |r| > 0 && AllDigits(r)
    ensures r[0] == '0' ==> r == "0"
    ensures DigitsValue(r) == n
  {
    if n < 10 then [DigitChar(n)]
    else
      var r := ShowNat(n / 10) + [DigitChar(n % 10)];
      assert r[..|r| - 1] == ShowNat(n / 10);
      r
  }

  /** Digit strings have no white space at either end. */
  lemma DigitsAreTrimmed(s: string)
    requires AllDigits(s)
    ensures Trim(s) == s
  {
    TrimFindsCore(s, [], s, []);
  }
}
