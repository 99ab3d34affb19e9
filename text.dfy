/** String helpers standing in for the JavaScript built-ins the core calls:
    `String.prototype.trim`, `toLowerCase`, `includes`, `Array.prototype.join`
    and `String(number)` for integers. */
module Text {

  /** The characters `String.prototype.trim` removes: ECMAScript WhiteSpace
      (tab, VT, FF, space, NBSP, ZWNBSP and the Zs category) and LineTerminator
      (LF, CR, LS, PS). */
  predicate IsSpace(c: char)
  {
    c == '\t' || c == '\n' || c == '\U{000B}' || c == '\U{000C}' || c == '\r' || c == ' '
    || c == '\U{00A0}' || c == '\U{1680}' || ('\U{2000}' <= c <= '\U{200A}')
    || c == '\U{2028}' || c == '\U{2029}' || c == '\U{202F}' || c == '\U{205F}'
    || c == '\U{3000}' || c == '\U{FEFF}'
  }

  predicate AllSpace(s: string)
  {
    forall i :: 0 <= i < |s| ==> IsSpace(s[i])
  }

  /** Index of the first non-space character of `s` at or after `i`
      (`|s|` when there is none). */
  function SkipSpace(s: string, i: nat): (k: nat)
    requires i <= |s|
    ensures i <= k <= |s|
    ensures forall j :: i <= j < k ==> IsSpace(s[j])
    ensures k == |s| || !IsSpace(s[k])
    decreases |s| - i
  {
    if i < |s| && IsSpace(s[i]) then SkipSpace(s, i + 1) else i
  }

  /** Index just past the last non-space character of `s[lo..j]` (`lo` when
      there is none). */
  function SkipSpaceBack(s: string, lo: nat, j: nat): (k: nat)
    requires lo <= j <= |s|
    ensures lo <= k <= j
    ensures forall m :: k <= m < j ==> IsSpace(s[m])
    ensures k == lo || !IsSpace(s[k - 1])
    decreases j
  {
    if lo < j && IsSpace(s[j - 1]) then SkipSpaceBack(s, lo, j - 1) else j
  }

  /** Where the trimmed text starts in `s`. */
  function TrimStartIndex(s: string): nat
  {
    SkipSpace(s, 0)
  }

  /** `String.prototype.trim`: `s` is whitespace, then the result, then
      whitespace, and the result neither starts nor ends with whitespace. */
  function Trim(s: string): (r: string)
    ensures TrimStartIndex(s) + |r| <= |s|
    ensures r == s[TrimStartIndex(s)..TrimStartIndex(s) + |r|]
    ensures forall j :: 0 <= j < TrimStartIndex(s) ==> IsSpace(s[j])
    ensures forall j :: TrimStartIndex(s) + |r| <= j < |s| ==> IsSpace(s[j])
    ensures r == [] || (!IsSpace(r[0]) && !IsSpace(r[|r| - 1]))
  {
    var a := SkipSpace(s, 0);
    var b := SkipSpaceBack(s, a, |s|);
    s[a..b]
  }

  /** Trimming leaves nothing exactly when the text is all whitespace. */
  lemma TrimEmptyIff(s: string)
    ensures Trim(s) == [] <==> AllSpace(s)
  {
    var a := TrimStartIndex(s);
    if Trim(s) != [] {
      assert s[a] == Trim(s)[0];
    }
  }

  /** ASCII case folding; other characters are left as they are. */
  function LowerChar(c: char): char
  {
    if 'A' <= c <= 'Z' then (c as int + 32) as char else c
  }

  function Lower(s: string): (r: string)
  {
    seq(|s|, i requires 0 <= i < |s| => LowerChar(s[i]))
  }

  predicate StartsWith(s: string, prefix: string)
  {
    |prefix| <= |s| && s[..|prefix|] == prefix
  }

  /** `String.prototype.includes`. */
  predicate Contains(hay: string, q: string)
    decreases |hay|
  {
    StartsWith(hay, q) || (hay != [] && Contains(hay[1..], q))
  }

  /** `q` occurs in `hay` starting at index `i`. */
  predicate OccursAt(hay: string, q: string, i: int)
  {
    0 <= i <= |hay| - |q| && hay[i..i + |q|] == q
  }

  /** `Contains` agrees with the textbook definition of a substring occurrence. */
  lemma {:induction false} ContainsIff(hay: string, q: string)
    ensures Contains(hay, q) <==> exists i :: OccursAt(hay, q, i)
    decreases |hay|
  {
    if StartsWith(hay, q) {
      assert OccursAt(hay, q, 0);
    } else if hay == [] {
    } else {
      ContainsIff(hay[1..], q);
      if Contains(hay[1..], q) {
        var i :| OccursAt(hay[1..], q, i);
        assert hay[1..][i..i + |q|] == hay[i + 1..i + 1 + |q|];
        assert OccursAt(hay, q, i + 1);
      }
      if i :| OccursAt(hay, q, i) {
        assert i != 0;
        assert hay[1..][i - 1..i - 1 + |q|] == hay[i..i + |q|];
        assert OccursAt(hay[1..], q, i - 1);
      }
    }
  }

  /** `Array.prototype.join(sep)`. */
  function JoinWith(parts: seq<string>, sep: string): string
  {
    if |parts| == 0 then ""
    else if |parts| == 1 then parts[0]
    else parts[0] + sep + JoinWith(parts[1..], sep)
  }

  function Digit(d: nat): char
    requires d < 10
  {
    "0123456789"[d]
  }

  function NatToString(n: nat): (r: string)
    ensures r != [] && forall c :: c in r ==> '0' <= c <= '9'
  {
    if n < 10 then [Digit(n)] else NatToString(n / 10) + [Digit(n % 10)]
  }

  /** `String(n)` for an integer `n`: optional minus sign, then decimal digits. */
  function IntToString(n: int): (r: string)
    ensures r != [] && forall c :: c in r ==> c == '-' || '0' <= c <= '9'
  {
    if n < 0 then "-" + NatToString(-n) else NatToString(n)
  }
}
