/** Character classes and trimming as the standard library's `str` methods do them. */
module Strings {
  import opened Seqs

  /** The Unicode White_Space property, as `char::is_whitespace` tests it. */
  predicate IsWhitespace(c: char) {
    var n := c as int;
    || 0x09 <= n <= 0x0D || n == 0x20 || n == 0x85 || n == 0xA0 || n == 0x1680
    || 0x2000 <= n <= 0x200A || n == 0x2028 || n == 0x2029 || n == 0x202F || n == 0x205F || n == 0x3000
  }

  lemma WhitespaceIff(c: char)
    ensures IsWhitespace(c) <==>
              c as int in {0x09, 0x0A, 0x0B, 0x0C, 0x0D, 0x20, 0x85, 0xA0, 0x1680, 0x2000, 0x2001, 0x2002, 0x2003, 0x2004,
                           0x2005, 0x2006, 0x2007, 0x2008, 0x2009, 0x200A, 0x2028, 0x2029, 0x202F, 0x205F, 0x3000}
  {
  }

  function LowerChar(c: char): char {
    if 'A' <= c <= 'Z' then c - 'A' + 'a' else c
  }

  function Lower(s: string): string {
    if s == "" then "" else [LowerChar(s[0])] + Lower(s[1..])
  }

  function SkipSpace(s: string): (r: string)
    ensures |r| <= |s|
  {
    if s != "" && IsWhitespace(s[0]) then SkipSpace(s[1..]) else s
  }

  function CutSpace(s: string): (r: string)
    ensures |r| <= |s|
  {
    if s != "" && IsWhitespace(s[|s| - 1]) then CutSpace(s[..|s| - 1]) else s
  }

  function Trim(s: string): string {
    CutSpace(SkipSpace(s))
  }

  ghost predicate AllSpace(s: string) {
    forall i | 0 <= i < |s| :: IsWhitespace(s[i])
  }

  lemma {:induction false} SkipBefore(before: string, rest: string)
    requires AllSpace(before) && (rest != "" ==> !IsWhitespace(rest[0]))
    ensures SkipSpace(before + rest) == rest
  {
    if before == "" {
      WithEmpty(rest);
    } else {
      TailOfConcat(before, rest);
      SkipBefore(before[1..], rest);
    }
  }

  lemma {:induction false} CutAfter(rest: string, after: string)
    requires AllSpace(after) && (rest != "" ==> !IsWhitespace(rest[|rest| - 1]))
    ensures CutSpace(rest + after) == rest
    decreases |after|
  {
    if after == "" {
      WithEmpty(rest);
    } else {
      var n := |after| - 1;
      assert (rest + after)[..|rest + after| - 1] == rest + after[..n] && (rest + after)[|rest + after| - 1] == after[n];
      CutAfter(rest, after[..n]);
    }
  }

  lemma {:induction false} SkipAll(s: string)
    requires AllSpace(s)
    ensures SkipSpace(s) == ""
  {
    if s != "" {
      SkipAll(s[1..]);
    }
  }

  /** White space around a text that has none at its ends is what trimming takes off. */
  lemma TrimAround(before: string, s: string, after: string)
    requires AllSpace(before) && AllSpace(after) && s != "" && !IsWhitespace(s[0]) && !IsWhitespace(s[|s| - 1])
    ensures Trim(before + s + after) == s
  {
    Assoc(before, s, after);
    SkipBefore(before, s + after);
    CutAfter(s, after);
  }
}
