/** UTF-8 text as Rust's `str` sees it: a byte sequence that decodes, plus the
    character-boundary test that every slicing operation is guarded by. */
module Utf8 {
  import opened Seqs

  type byte = x: int | 0 <= x < 256

  predicate IsContinuation(b: byte) {
    0x80 <= b < 0xC0
  }

  /** Length of the well-formed character at the head of `s`, or 0 (Table 3-7 of the Unicode Standard). */
  function CharLength(s: seq<byte>): nat {
    if |s| >= 1 && s[0] < 0x80 then 1
    else if |s| >= 2 && 0xC2 <= s[0] < 0xE0 && IsContinuation(s[1]) then 2
    else if |s| >= 3 && 0xE0 <= s[0] < 0xF0 && IsContinuation(s[2]) &&
            (if s[0] == 0xE0 then 0xA0 else 0x80) <= s[1] < (if s[0] == 0xED then 0xA0 else 0xC0) then 3
    else if |s| >= 4 && 0xF0 <= s[0] < 0xF5 && IsContinuation(s[2]) && IsContinuation(s[3]) &&
            (if s[0] == 0xF0 then 0x90 else 0x80) <= s[1] < (if s[0] == 0xF4 then 0x90 else 0xC0) then 4
    else 0
  }

  predicate Valid(s: seq<byte>) {
    s == [] || (CharLength(s) > 0 && Valid(s[CharLength(s)..]))
  }

  type Text = s: seq<byte> | Valid(s) witness []

  /** `str::is_char_boundary`. */
  predicate IsBoundary(s: seq<byte>, i: nat) {
    i == 0 || i == |s| || (i < |s| && !IsContinuation(s[i]))
  }

  lemma {:induction false} ValidConcat(a: seq<byte>, b: seq<byte>)
    requires Valid(a) && Valid(b)
    ensures Valid(a + b)
    decreases |a|
  {
    if a == [] {
      WithEmpty(b);
    } else {
      var n := CharLength(a);
      ValidConcat(a[n..], b);
      assert CharLength(a + b) == n;
      DropOfConcat(a, b, n);
    }
  }

  /** A cut at a boundary leaves two well-formed texts. */
  lemma {:induction false} ValidCut(s: seq<byte>, i: nat)
    requires Valid(s) && i <= |s| && IsBoundary(s, i)
    ensures Valid(s[..i]) && Valid(s[i..])
    decreases |s|
  {
    if i == 0 {
      assert s[i..] == s;
    } else {
      var n := CharLength(s);
      assert n <= i;
      ValidCut(s[n..], i - n);
      assert s[n..][i - n..] == s[i..];
      assert CharLength(s[..i]) == n;
      assert s[..i][n..] == s[n..][..i - n];
    }
  }

  lemma SliceValid(s: seq<byte>, from: nat, upTo: nat)
    requires Valid(s) && from <= upTo <= |s| && IsBoundary(s, from) && IsBoundary(s, upTo)
    ensures Valid(s[from..upTo])
  {
    ValidCut(s, from);
    assert upTo < |s| ==> s[from..][upTo - from] == s[upTo];
    ValidCut(s[from..], upTo - from);
    TakeDrop(s, from, upTo);
  }

  /** What is left after a well-formed prefix is well-formed. */
  lemma {:induction false} ValidRest(s: seq<byte>, n: nat)
    requires n <= |s| && Valid(s) && Valid(s[..n])
    ensures Valid(s[n..])
    decreases n
  {
    if n == 0 {
      assert s[0..] == s;
    } else {
      var c := CharLength(s[..n]);
      assert CharLength(s) == c;
      assert s[..n][c..] == s[c..][..n - c] && s[c..][n - c..] == s[n..];
      ValidRest(s[c..], n - c);
    }
  }

  /** The byte test decides exactly where a text can be cut. */
  lemma BoundaryIffCut(s: seq<byte>, i: nat)
    requires Valid(s) && i <= |s|
    ensures IsBoundary(s, i) <==> Valid(s[..i]) && Valid(s[i..])
  {
    if IsBoundary(s, i) {
      ValidCut(s, i);
    } else {
      assert s[i..][0] == s[i];
    }
  }

  /** Boundaries of a concatenation that lie in its second half. */
  lemma BoundaryInTail(a: seq<byte>, b: seq<byte>, j: nat)
    requires Valid(b) && j <= |b|
    ensures IsBoundary(b, j) ==> IsBoundary(a + b, |a| + j)
    ensures |a| > 0 || j > 0 ==> (IsBoundary(b, j) <==> IsBoundary(a + b, |a| + j))
  {
    if j < |b| {
      assert (a + b)[|a| + j] == b[j];
    }
  }

  function Min(a: nat, b: nat): nat {
    if a < b then a else b
  }

  /** The greatest boundary at or below `offset`, clamped to the text. */
  function Floor(s: seq<byte>, offset: nat): (r: nat)
    ensures r <= offset && r <= |s| && IsBoundary(s, r)
    decreases offset, |s|
  {
    if offset >= |s| then |s|
    else if IsBoundary(s, offset) then offset
    else Floor(s, offset - 1)
  }

  /** The source's countdown loop computes that boundary. */
  method FloorLoop(s: seq<byte>, offset: nat) returns (r: nat)
    ensures r == Floor(s, offset)
  {
    r := Min(offset, |s|);
    while !IsBoundary(s, r)
      invariant r <= |s| && r <= offset
      invariant Floor(s, r) == Floor(s, offset)
      decreases r
    {
      r := r - 1;
    }
  }

  /** Floor is the greatest boundary that fits. */
  lemma {:induction false} FloorGreatest(s: seq<byte>, offset: nat, j: nat)
    requires j <= offset && j <= |s| && IsBoundary(s, j)
    ensures j <= Floor(s, offset)
    decreases offset
  {
    if offset < |s| && !IsBoundary(s, offset) {
      FloorGreatest(s, offset - 1, j);
    }
  }

  lemma FloorMonotone(s: seq<byte>, i: nat, j: nat)
    requires i <= j
    ensures Floor(s, i) <= Floor(s, j)
  {
    FloorGreatest(s, j, Floor(s, i));
  }

  /** A character is at most four bytes, so a cut with room for four makes progress. */
  lemma FloorProgress(s: seq<byte>, offset: nat)
    requires Valid(s) && s != [] && offset >= 4
    ensures 0 < Floor(s, offset)
  {
    var n := CharLength(s);
    assert s[n..] == [] || s[n..][0] == s[n];
    FloorGreatest(s, offset, n);
  }
}
