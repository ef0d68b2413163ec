/**
 The three JavaScript string operations the chip input relies on:
 `toLowerCase` (restricted here to ASCII letters), the regular-expression
 class `\s`, and `String.prototype.includes`.
 */
module Text {

  predicate IsUpper(c: char)
  {
    'A' <= c <= 'Z'
  }

  /** `toLowerCase` on one character: ASCII capitals map to small letters, everything else is kept. */
  function LowerChar(c: char): (r: char)
    ensures !IsUpper(r)
    ensures IsUpper(c) ==> r as int == c as int + 32
    ensures !IsUpper(c) ==> r == c
  {
    if IsUpper(c) then (c as int - 'A' as int + 'a' as int) as char else c
  }

  /** `String.prototype.toLowerCase`, character by character. */
  function Lower(s: string): (r: string)
    ensures |r| == |s|
    ensures forall i :: 0 <= i < |s| ==> r[i] == LowerChar(s[i])
  {
    if s == [] then [] else [LowerChar(s[0])] + Lower(s[1..])
  }

  /**
   The ECMAScript `\s` class: the WhiteSpace code points (TAB, VT, FF, SPACE,
   NO-BREAK SPACE, ZERO WIDTH NO-BREAK SPACE and the Space_Separator category)
   and the LineTerminator code points (LF, CR, LINE SEPARATOR, PARAGRAPH SEPARATOR).
   */
  predicate IsWhitespace(c: char)
  {
    var n := c as int;
    n == 0x09 || n == 0x0A || n == 0x0B || n == 0x0C || n == 0x0D || n == 0x20 ||
    n == 0xA0 || n == 0x1680 || (0x2000 <= n <= 0x200A) || n == 0x2028 || n == 0x2029 ||
    n == 0x202F || n == 0x205F || n == 0x3000 || n == 0xFEFF
  }

  /** `s.replace(/\s/g, '_')`: every whitespace character becomes an underscore. */
  function ReplaceWhitespace(s: string): (r: string)
    ensures |r| == |s|
    ensures forall i :: 0 <= i < |s| ==> r[i] == if IsWhitespace(s[i]) then '_' else s[i]
  {
    if s == [] then []
    else [if IsWhitespace(s[0]) then '_' else s[0]] + ReplaceWhitespace(s[1..])
  }

  /** `pat` occurs in `text` starting at position `i`. */
  predicate OccursAt(pat: string, text: string, i: int)
  {
    0 <= i && i + |pat| <= |text| && text[i..i + |pat|] == pat
  }

  /** `pat` is a contiguous piece of `text` (the empty string is a piece of every text). */
  ghost predicate IsInfix(pat: string, text: string)
  {
    exists i :: OccursAt(pat, text, i)
  }

  lemma OccursAtShift(pat: string, text: string, i: int)
    requires |text| > 0 && 0 <= i
    ensures OccursAt(pat, text[1..], i) <==> OccursAt(pat, text, i + 1)
  {
    if i + |pat| <= |text[1..]| {
      assert text[1..][i..i + |pat|] == text[i + 1..i + 1 + |pat|];
    }
  }

  /** `text.includes(pat)`: decided by trying every start position from the left. */
  function Includes(text: string, pat: string): (r: bool)
    ensures r <==> IsInfix(pat, text)
    decreases |text|
  {
    if |pat| > |text| then false
    else if text[..|pat|] == pat then
      assert OccursAt(pat, text, 0);
      true
    else
      assert !OccursAt(pat, text, 0);
      assert forall i :: 0 <= i ==> (OccursAt(pat, text[1..], i) <==> OccursAt(pat, text, i + 1)) by {
        forall i | 0 <= i { OccursAtShift(pat, text, i); }
      }
      assert IsInfix(pat, text) ==> IsInfix(pat, text[1..]) by {
        if IsInfix(pat, text) {
          var i :| OccursAt(pat, text, i);
          assert OccursAt(pat, text[1..], i - 1);
        }
      }
      Includes(text[1..], pat)
  }

  /** Lowercasing commutes with concatenation. */
  lemma LowerAppend(a: string, b: string)
    ensures Lower(a + b) == Lower(a) + Lower(b)
  {
    assert forall i :: 0 <= i < |a + b| ==> Lower(a + b)[i] == (Lower(a) + Lower(b))[i];
  }

  /** Lowercasing twice is lowercasing once. */
  lemma LowerIdempotent(s: string)
    ensures Lower(Lower(s)) == Lower(s)
  {
    assert forall i :: 0 <= i < |s| ==> Lower(Lower(s))[i] == Lower(s)[i];
  }

  /** A piece of a piece of `text` is a piece of `text`. */
  lemma InfixTransitive(a: string, b: string, c: string)
    requires IsInfix(a, b) && IsInfix(b, c)
    ensures IsInfix(a, c)
  {
    var i :| OccursAt(a, b, i);
    var j :| OccursAt(b, c, j);
    forall k | 0 <= k < |a|
      ensures c[j + i + k] == a[k]
    {
      assert c[j..j + |b|][i + k] == b[i + k];
      assert b[i..i + |a|][k] == a[k];
    }
    assert OccursAt(a, c, j + i);
  }

  /** A pattern whose first character does not occur in `text` is not included in it. */
  lemma FirstCharAbsent(text: string, pat: string)
    requires |pat| > 0 && pat[0] !in text
    ensures !Includes(text, pat)
  {
  }

  /** A small letter absent from `s` in both cases is absent from its lowercase form. */
  lemma AbsentFromLower(s: string, c: char)
    requires 'a' <= c <= 'z'
    requires c !in s && (c as int - 32) as char !in s
    ensures c !in Lower(s)
  {
  }

  /** A string is a piece of any string it begins. */
  lemma PrefixIsInfix(a: string, b: string)
    ensures IsInfix(a, a + b)
  {
    assert OccursAt(a, a + b, 0);
  }
}
