/** Release version precedence, as the promotion script compares it. A version is the
    grammar's capture groups: three numbers, an optional prerelease text and ignored build metadata. */
module SemVer {
  import opened Options
  import opened Seqs

  datatype Version = Version(major: string, minor: string, patch: string, pre: Option<string>, build: string)

  // ----- grammar

  predicate IsDigit(c: char) {
    '0' <= c <= '9'
  }

  predicate AllDigits(s: string) {
    s != "" && forall i | 0 <= i < |s| :: IsDigit(s[i])
  }

  /** A number without leading zeros. */
  predicate IsNumber(s: string) {
    AllDigits(s) && (|s| > 1 ==> s[0] != '0')
  }

  predicate IsIdentifierChar(c: char) {
    IsDigit(c) || 'A' <= c <= 'Z' || 'a' <= c <= 'z' || c == '-'
  }

  /** The characters of an identifier: digits, letters and the hyphen. */
  lemma IdentifierCharIff(c: char)
    ensures IsDigit(c) <==> c in {'0', '1', '2', '3', '4', '5', '6', '7', '8', '9'}
    ensures IsIdentifierChar(c) <==>
              IsDigit(c) || c in {'-', 'A', 'B', 'C', 'D', 'E', 'F', 'G', 'H', 'I', 'J', 'K', 'L',
                                 'M', 'N', 'O', 'P', 'Q', 'R', 'S', 'T', 'U', 'V', 'W', 'X', 'Y', 'Z',
                                 'a', 'b', 'c', 'd', 'e', 'f', 'g', 'h', 'i', 'j', 'k', 'l', 'm',
                                 'n', 'o', 'p', 'q', 'r', 's', 't', 'u', 'v', 'w', 'x', 'y', 'z'}
  {
  }

  predicate IsIdentifier(s: string) {
    && s != "" && (forall i | 0 <= i < |s| :: IsIdentifierChar(s[i]))
    && (AllDigits(s) ==> IsNumber(s))
  }

  function Split(s: string): seq<string> {
    if s == "" then [""]
    else
      var rest := Split(s[1..]);
      if s[0] == '.' then [""] + rest else [[s[0]] + rest[0]] + rest[1..]
  }

  predicate WellFormed(v: Version) {
    && IsNumber(v.major) && IsNumber(v.minor) && IsNumber(v.patch)
    && (v.pre.Some? ==> forall i | 0 <= i < |Split(v.pre.value)| :: IsIdentifier(Split(v.pre.value)[i]))
  }

  type Release = v: Version | WellFormed(v) witness Version("0", "0", "0", None, "")

  // ----- the comparison

  function Value(s: string): nat
    requires AllDigits(s) || s == ""
  {
    if s == "" then 0 else 10 * Value(s[..|s| - 1]) + (s[|s| - 1] - '0') as nat
  }

  function Sign(a: int, b: int): int {
    if a > b then 1 else if a < b then -1 else 0
  }

  /** String comparison by character. */
  function TextOrder(x: string, y: string): int {
    if x == [] || y == [] then Sign(|x|, |y|)
    else if x[0] != y[0] then Sign(x[0] as int, y[0] as int)
    else TextOrder(x[1..], y[1..])
  }

  function PreOrder(a: seq<string>, b: seq<string>): int {
    if a == [] || b == [] then Sign(|a|, |b|)
    else if a[0] == b[0] then PreOrder(a[1..], b[1..])
    else if AllDigits(a[0]) && AllDigits(b[0]) then Sign(Value(a[0]), Value(b[0]))
    else if AllDigits(a[0]) != AllDigits(b[0]) then (if AllDigits(a[0]) then -1 else 1)
    else TextOrder(a[0], b[0])
  }

  function Compare(a: Version, b: Version): int
    requires WellFormed(a) && WellFormed(b)
  {
    var (majA, majB) := (Value(a.major), Value(b.major));
    var (minA, minB) := (Value(a.minor), Value(b.minor));
    var (patA, patB) := (Value(a.patch), Value(b.patch));
    if majA != majB then Sign(majA, majB)
    else if minA != minB then Sign(minA, minB)
    else if patA != patB then Sign(patA, patB)
    else if a.pre.None? || b.pre.None? then (if a.pre.None? then 1 else 0) - (if b.pre.None? then 1 else 0)
    else PreOrder(Split(a.pre.value), Split(b.pre.value))
  }

  // ----- reference: one key per version, compared lexicographically

  /** Lexicographic order of integer sequences, a proper prefix first. */
  function Lex(a: seq<int>, b: seq<int>): int {
    if a == [] || b == [] then Sign(|a|, |b|)
    else if a[0] != b[0] then Sign(a[0], b[0])
    else Lex(a[1..], b[1..])
  }

  function Codes(s: string): seq<int> {
    if s == "" then [] else [s[0] as int] + Codes(s[1..])
  }

  /** Numbers before words; the closing -1 puts a word before its extensions. */
  function IdentifierKey(s: string): seq<int> {
    if AllDigits(s) then [1, Value(s)] else [2] + Codes(s) + [-1]
  }

  /** The closing 0 puts a list before its extensions. */
  function PreKey(ids: seq<string>): seq<int> {
    if ids == [] then [0] else IdentifierKey(ids[0]) + PreKey(ids[1..])
  }

  function Key(v: Version): seq<int>
    requires WellFormed(v)
  {
    [Value(v.major), Value(v.minor), Value(v.patch)] +
    if v.pre.None? then [1] else [0] + PreKey(Split(v.pre.value))
  }

  lemma {:induction false} LexPrefix(p: seq<int>, a: seq<int>, b: seq<int>)
    ensures Lex(p + a, p + b) == Lex(a, b)
  {
    if p == [] {
      assert p + a == a && p + b == b;
    } else {
      LexPrefix(p[1..], a, b);
      assert (p + a)[1..] == p[1..] + a && (p + b)[1..] == p[1..] + b;
    }
  }

  lemma {:induction false} TextOrderIsLex(x: string, y: string, a: seq<int>, b: seq<int>)
    requires x != y
    ensures Lex(Codes(x) + [-1] + a, Codes(y) + [-1] + b) == TextOrder(x, y) != 0
  {
    if x != [] && y != [] && x[0] == y[0] {
      assert x == [x[0]] + x[1..] && y == [y[0]] + y[1..];
      TextOrderIsLex(x[1..], y[1..], a, b);
      assert Codes(x) + [-1] + a == [x[0] as int] + (Codes(x[1..]) + [-1] + a);
      assert Codes(y) + [-1] + b == [y[0] as int] + (Codes(y[1..]) + [-1] + b);
      LexPrefix([x[0] as int], Codes(x[1..]) + [-1] + a, Codes(y[1..]) + [-1] + b);
    }
  }

  lemma {:induction false} ValueBounds(s: string)
    requires IsNumber(s)
    ensures Value(s) == 0 <==> s == "0"
    decreases |s|
  {
    if |s| > 1 {
      ValueBounds(s[..|s| - 1]);
    } else {
      assert s[..0] == "";
    }
  }

  /** Two numbers without leading zeros are equal only if they are written the same. */
  lemma {:induction false} ValueInjective(x: string, y: string)
    requires IsNumber(x) && IsNumber(y) && Value(x) == Value(y)
    ensures x == y
    decreases |x|
  {
    ValueBounds(x);
    ValueBounds(y);
    var x', y' := x[..|x| - 1], y[..|y| - 1];
    assert x == x' + [x[|x| - 1]] && y == y' + [y[|y| - 1]];
    assert Value(x') == Value(y');
    if x' == "" || y' == "" {
      if x' != "" { ValueBounds(x'); }
      if y' != "" { ValueBounds(y'); }
    } else {
      ValueInjective(x', y');
    }
  }

  predicate AllIdentifiers(ids: seq<string>) {
    forall i | 0 <= i < |ids| :: IsIdentifier(ids[i])
  }

  lemma LexSecond(k: int, x: int, y: int, a: seq<int>, b: seq<int>)
    requires x != y
    ensures Lex([k, x] + a, [k, y] + b) == Sign(x, y) != 0
  {
    LexPrefix([k], [x] + a, [y] + b);
    assert [k, x] + a == [k] + ([x] + a) && [k, y] + b == [k] + ([y] + b);
  }

  lemma NumberOrderIsLex(x: string, y: string, a: seq<int>, b: seq<int>)
    requires IsIdentifier(x) && IsIdentifier(y) && x != y && AllDigits(x) && AllDigits(y)
    ensures Lex(IdentifierKey(x) + a, IdentifierKey(y) + b) == Sign(Value(x), Value(y)) != 0
  {
    if Value(x) == Value(y) {
      ValueInjective(x, y);
    }
    LexSecond(1, Value(x), Value(y), a, b);
  }

  lemma WordOrderIsLex(x: string, y: string, a: seq<int>, b: seq<int>)
    requires x != y && !AllDigits(x) && !AllDigits(y)
    ensures Lex(IdentifierKey(x) + a, IdentifierKey(y) + b) == TextOrder(x, y) != 0
  {
    TextOrderIsLex(x, y, a, b);
    LexPrefix([2], Codes(x) + [-1] + a, Codes(y) + [-1] + b);
    WordKey(x, a);
    WordKey(y, b);
  }

  lemma WordKey(x: string, a: seq<int>)
    requires !AllDigits(x)
    ensures IdentifierKey(x) + a == [2] + (Codes(x) + [-1] + a)
  {
    Assoc([2], Codes(x), [-1]);
    Assoc([2], Codes(x) + [-1], a);
  }

  /** Two different identifiers decide the order of everything that follows them. */
  lemma IdentifierOrderIsLex(x: string, y: string, a: seq<int>, b: seq<int>)
    requires IsIdentifier(x) && IsIdentifier(y) && x != y
    ensures Lex(IdentifierKey(x) + a, IdentifierKey(y) + b) == PreOrder([x], [y]) != 0
  {
    if AllDigits(x) && AllDigits(y) {
      NumberOrderIsLex(x, y, a, b);
    } else if !AllDigits(x) && !AllDigits(y) {
      WordOrderIsLex(x, y, a, b);
    }
  }

  lemma {:induction false} PreOrderIsLex(a: seq<string>, b: seq<string>)
    requires AllIdentifiers(a) && AllIdentifiers(b)
    ensures PreOrder(a, b) == Lex(PreKey(a), PreKey(b))
    ensures PreOrder(a, b) == 0 <==> a == b
    decreases |a|
  {
    if a != [] && b != [] {
      var ra, rb := PreKey(a[1..]), PreKey(b[1..]);
      if a[0] == b[0] {
        assert a == [a[0]] + a[1..] && b == [b[0]] + b[1..];
        PreOrderIsLex(a[1..], b[1..]);
        LexPrefix(IdentifierKey(a[0]), ra, rb);
      } else {
        IdentifierOrderIsLex(a[0], b[0], ra, rb);
      }
    }
  }

  lemma {:induction false} SplitInjective(x: string, y: string)
    requires Split(x) == Split(y)
    ensures x == y
  {
    if x != "" && y != "" {
      var rx, ry := Split(x[1..]), Split(y[1..]);
      assert Split(x)[0] == Split(y)[0] && Split(x)[1..] == Split(y)[1..];
      SplitFirstHasNoDot(x[1..]);
      SplitFirstHasNoDot(y[1..]);
      assert x[0] != '.' ==> Split(x)[0][0] == x[0];
      assert y[0] != '.' ==> Split(y)[0][0] == y[0];
      assert x[0] == y[0];
      if x[0] != '.' {
        assert rx[0] == Split(x)[0][1..] == Split(y)[0][1..] == ry[0];
        assert rx == [rx[0]] + rx[1..] && ry == [ry[0]] + ry[1..];
      }
      assert rx == ry;
      SplitInjective(x[1..], y[1..]);
      assert x == [x[0]] + x[1..] && y == [y[0]] + y[1..];
    }
  }

  lemma {:induction false} SplitFirstHasNoDot(x: string)
    ensures |Split(x)| >= 1 && '.' !in Split(x)[0]
  {
    if x != "" {
      SplitFirstHasNoDot(x[1..]);
    }
  }

  /** The comparison is the lexicographic order of the keys, and it is zero exactly when nothing but
      the build metadata differs. */
  lemma CompareIsKeyOrder(a: Version, b: Version)
    requires WellFormed(a) && WellFormed(b)
    ensures Compare(a, b) == Lex(Key(a), Key(b))
    ensures Compare(a, b) == 0 <==> a.(build := "") == b.(build := "")
  {
    var coreA, coreB := [Value(a.major), Value(a.minor), Value(a.patch)], [Value(b.major), Value(b.minor), Value(b.patch)];
    var preA := if a.pre.None? then [1] else [0] + PreKey(Split(a.pre.value));
    var preB := if b.pre.None? then [1] else [0] + PreKey(Split(b.pre.value));
    if coreA == coreB {
      ValueInjective(a.major, b.major);
      ValueInjective(a.minor, b.minor);
      ValueInjective(a.patch, b.patch);
      LexPrefix(coreA, preA, preB);
      if a.pre.Some? && b.pre.Some? {
        PreOrderIsLex(Split(a.pre.value), Split(b.pre.value));
        LexPrefix([0], PreKey(Split(a.pre.value)), PreKey(Split(b.pre.value)));
        if Split(a.pre.value) == Split(b.pre.value) {
          SplitInjective(a.pre.value, b.pre.value);
        }
      }
    } else {
      LexCore(coreA, coreB, preA, preB);
    }
  }

  lemma LexCore(a: seq<int>, b: seq<int>, x: seq<int>, y: seq<int>)
    requires |a| == |b| == 3 && a != b
    ensures Lex(a + x, b + y) ==
              if a[0] != b[0] then Sign(a[0], b[0]) else if a[1] != b[1] then Sign(a[1], b[1]) else Sign(a[2], b[2])
  {
    assert a + x == [a[0]] + ([a[1]] + ([a[2]] + x)) && b + y == [b[0]] + ([b[1]] + ([b[2]] + y));
    if a[0] == b[0] {
      LexPrefix([a[0]], [a[1]] + ([a[2]] + x), [b[1]] + ([b[2]] + y));
      if a[1] == b[1] {
        LexPrefix([a[1]], [a[2]] + x, [b[2]] + y);
        assert a == [a[0], a[1], a[2]] && b == [b[0], b[1], b[2]];
      }
    }
  }

  lemma {:induction false} LexLaws(a: seq<int>, b: seq<int>, c: seq<int>)
    ensures Lex(a, b) == -Lex(b, a)
    ensures Lex(a, b) <= 0 && Lex(b, c) <= 0 ==> Lex(a, c) <= 0
    ensures Lex(a, b) <= 0 && Lex(b, c) < 0 ==> Lex(a, c) < 0
    ensures Lex(a, b) < 0 && Lex(b, c) <= 0 ==> Lex(a, c) < 0
  {
    if a != [] && b != [] {
      LexLaws(a[1..], b[1..], if c == [] then [] else c[1..]);
    }
  }

  /** A total preorder: section 11 of SemVer 2.0.0 requires exactly this of precedence. */
  lemma CompareIsTotalPreorder(a: Version, b: Version, c: Version)
    requires WellFormed(a) && WellFormed(b) && WellFormed(c)
    ensures Compare(a, b) == -Compare(b, a)
    ensures Compare(a, b) <= 0 && Compare(b, c) <= 0 ==> Compare(a, c) <= 0
    ensures Compare(a, b) <= 0 && Compare(b, c) < 0 ==> Compare(a, c) < 0
    ensures Compare(a, b) == 0 ==> Compare(a, c) == Compare(b, c)
  {
    CompareIsKeyOrder(a, b);
    CompareIsKeyOrder(b, a);
    CompareIsKeyOrder(b, c);
    CompareIsKeyOrder(a, c);
    LexLaws(Key(a), Key(b), Key(c));
    if Compare(a, b) == 0 {
      assert Key(a) == Key(b);
    }
  }
}
