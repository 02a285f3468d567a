/** Digest challenge headers: a list of `key=value` parameters, in quotes or bare, printed and parsed. */
module DigestChallenge {
  import opened Seqs
  import opened Strings

  function SkipSeparators(s: string): (r: string)
    ensures |r| <= |s|
  {
    if s != "" && (s[0] == ',' || IsWhitespace(s[0])) then SkipSeparators(s[1..]) else s
  }

  function SkipCommas(s: string): (r: string)
    ensures |r| <= |s|
  {
    if s != "" && s[0] == ',' then SkipCommas(s[1..]) else s
  }

  /** Position of the first `c`, or the length. */
  function Find(s: string, c: char): (n: nat)
    ensures n <= |s| && (n < |s| ==> s[n] == c)
  {
    if s == "" || s[0] == c then 0 else 1 + Find(s[1..], c)
  }

  // ----- quoting

  function Replace(s: string, c: char, replacement: string): string {
    if s == "" then "" else (if s[0] == c then replacement else [s[0]]) + Replace(s[1..], c, replacement)
  }

  /** Two passes, as the source does it: backslashes first, then quotes. */
  function Escape(s: string): string {
    Replace(Replace(s, '\\', "\\\\"), '"', "\\\"")
  }

  function EscapeChar(c: char): string {
    if c == '\\' || c == '"' then ['\\', c] else [c]
  }

  lemma {:induction false} ReplaceConcat(a: string, b: string, c: char, replacement: string)
    ensures Replace(a + b, c, replacement) == Replace(a, c, replacement) + Replace(b, c, replacement)
  {
    if a == "" {
      WithEmpty(b);
    } else {
      TailOfConcat(a, b);
      ReplaceConcat(a[1..], b, c, replacement);
      Assoc(if a[0] == c then replacement else [a[0]], Replace(a[1..], c, replacement), Replace(b, c, replacement));
    }
  }

  /** The two passes put one backslash before each backslash and each quote. */
  lemma EscapeCons(c: char, rest: string)
    ensures Escape([c] + rest) == EscapeChar(c) + Escape(rest)
  {
    assert ([c] + rest)[1..] == rest;
    var first := if c == '\\' then "\\\\" else [c];
    ReplaceConcat(first, Replace(rest, '\\', "\\\\"), '"', "\\\"");
    if c == '\\' {
      assert "\\\\"[1..] == "\\" && "\\"[1..] == "";
    } else {
      assert [c][1..] == "";
    }
  }

  function ParseQuotedFrom(input: string, escaped: bool): (string, string) {
    if input == "" then ("", "")
    else if escaped then
      var (value, rest) := ParseQuotedFrom(input[1..], false); ([input[0]] + value, rest)
    else if input[0] == '\\' then ParseQuotedFrom(input[1..], true)
    else if input[0] == '"' then ("", input[1..])
    else
      var (value, rest) := ParseQuotedFrom(input[1..], false); ([input[0]] + value, rest)
  }

  function ParseQuoted(input: string): (string, string) {
    ParseQuotedFrom(input, false)
  }

  lemma {:induction false} ParseQuotedShrinks(input: string, escaped: bool)
    ensures |ParseQuotedFrom(input, escaped).1| <= |input|
  {
    if input != "" {
      ParseQuotedShrinks(input[1..], false);
      ParseQuotedShrinks(input[1..], true);
    }
  }

  ghost function After(value: string, r: (string, string)): (string, string) {
    (value + r.0, r.1)
  }

  lemma AfterStep(value: string, c: char, r: (string, string))
    ensures After("", r) == r
    ensures After(value + [c], r) == After(value, ([c] + r.0, r.1))
  {
    assert "" + r.0 == r.0;
    assert value + [c] + r.0 == value + ([c] + r.0);
  }

  method ParseQuotedDigestValue(input: string) returns (value: string, rest: string)
    ensures (value, rest) == ParseQuoted(input)
  {
    value := "";
    var escaped := false;
    AfterStep("", ' ', ParseQuoted(input));
    assert input[0..] == input;
    for i := 0 to |input|
      invariant ParseQuoted(input) == After(value, ParseQuotedFrom(input[i..], escaped))
    {
      var c := input[i];
      assert input[i..][1..] == input[i + 1..];
      AfterStep(value, c, ParseQuotedFrom(input[i + 1..], false));
      if escaped {
        value, escaped := value + [c], false;
        continue;
      }
      if c == '\\' {
        escaped := true;
      } else if c == '"' {
        assert value + "" == value;
        return value, input[i + 1..];
      } else {
        value := value + [c];
      }
    }
    assert value + "" == value;
    rest := "";
  }

  /** Parsing an escaped, quoted value gives back the value and what follows it, for every value. */
  lemma {:induction false} QuotedRoundTrip(value: string, rest: string)
    ensures ParseQuoted(Escape(value) + "\"" + rest) == (value, rest)
  {
    if value == "" {
      assert Escape("") + "\"" + rest == "\"" + rest;
      assert ("\"" + rest)[1..] == rest;
    } else {
      var c, tail := value[0], value[1..];
      assert value == [c] + tail;
      EscapeCons(c, tail);
      var more := Escape(tail) + "\"" + rest;
      assert Escape(value) + "\"" + rest == EscapeChar(c) + more;
      QuotedRoundTrip(tail, rest);
      if c == '\\' || c == '"' {
        var s := ['\\', c] + more;
        assert s[1..] == [c] + more && ([c] + more)[1..] == more;
        assert ParseQuotedFrom(s, false) == ParseQuotedFrom([c] + more, true);
      } else {
        assert ([c] + more)[1..] == more;
      }
    }
  }

  // ----- parameter lists

  /** One turn of the parser: the parameter read, if the text has one more, and the text after it. */
  datatype Turn = Over | Read(key: string, value: string, next: string)

  function TakeParameter(text: string): (t: Turn)
    ensures t.Read? ==> |t.next| < |text|
  {
    var rest := SkipSeparators(text);
    var n := Find(rest, '=');
    if n == |rest| then Over
    else
      var key := Lower(Trim(rest[..n]));
      var after := SkipSpace(rest[n + 1..]);
      if after != "" && after[0] == '"' then
        ParseQuotedShrinks(after[1..], false);
        var (value, next) := ParseQuoted(after[1..]);
        Read(key, value, next)
      else
        var m := Find(after, ',');
        Read(key, Trim(after[..m]), SkipCommas(after[m..]))
  }

  function ParseFrom(text: string, values: map<string, string>): map<string, string>
    decreases |text|
  {
    if text == "" then values
    else match TakeParameter(text)
      case Over => values
      case Read(key, value, next) => ParseFrom(next, if key == "" then values else values[key := value])
  }

  function Parse(challenge: string): map<string, string> {
    ParseFrom(Trim(challenge), map[])
  }

  /** The source's loop; it ends on every input because each turn consumes an equals sign. */
  method ParseDigestChallenge(challenge: string) returns (values: map<string, string>)
    ensures values == Parse(challenge)
  {
    values := map[];
    var rest := Trim(challenge);
    ghost var parsed := ParseFrom(rest, values);
    while rest != ""
      invariant ParseFrom(rest, values) == parsed
      decreases |rest|
    {
      var turn := ReadParameter(rest);
      if turn.Over? {
        return;
      }
      if turn.key != "" {
        values := values[turn.key := turn.value];
      }
      rest := turn.next;
    }
  }

  /** One turn of the loop. */
  method ReadParameter(rest: string) returns (t: Turn)
    ensures t == TakeParameter(rest)
  {
    var text := SkipSeparators(rest);
    var n := Find(text, '=');
    if n == |text| {
      return Over;
    }
    var key := Lower(Trim(text[..n]));
    var after := SkipSpace(text[n + 1..]);
    if after != "" && after[0] == '"' {
      ParseQuotedShrinks(after[1..], false);
      var value, next := ParseQuotedDigestValue(after[1..]);
      return Read(key, value, next);
    }
    var m := Find(after, ',');
    return Read(key, Trim(after[..m]), SkipCommas(after[m..]));
  }

  // ----- printed lists parse back

  /** A parameter as it is written: its value in quotes or bare, white space around the equals sign, and white
      space before the comma that follows. */
  datatype Parameter = Parameter(key: string, value: string, quoted: bool, gap: string, pad: string)

  predicate IsKeyChar(c: char) {
    c != '=' && c != ',' && !IsWhitespace(c)
  }

  predicate IsKey(key: string) {
    key != "" && forall i | 0 <= i < |key| :: IsKeyChar(key[i])
  }

  /** What can be written without quotes. */
  predicate IsBare(value: string) {
    && ',' !in value
    && (value != "" ==> value[0] != '"' && !IsWhitespace(value[0]) && !IsWhitespace(value[|value| - 1]))
  }

  ghost predicate CanPrint(p: Parameter) {
    IsKey(p.key) && (p.quoted || (IsBare(p.value) && (p.value == "" ==> p.gap == ""))) && AllSpace(p.gap) && AllSpace(p.pad)
  }

  function PrintValue(p: Parameter): string {
    if p.quoted then "\"" + (Escape(p.value) + "\"") else p.value
  }

  function PrintOne(p: Parameter): string {
    p.key + p.gap + "=" + (p.gap + PrintValue(p))
  }

  function Print(list: seq<Parameter>): string {
    if list == [] then ""
    else if |list| == 1 then PrintOne(list[0])
    else PrintOne(list[0]) + (list[0].pad + (", " + Print(list[1..])))
  }

  /** Later parameters win over earlier ones of the same key; the case of a key does not matter. */
  function Stored(list: seq<Parameter>, values: map<string, string>): map<string, string>
    decreases |list|
  {
    if list == [] then values else Stored(list[1..], values[Lower(list[0].key) := list[0].value])
  }

  lemma {:induction false} FindAfter(s: string, c: char, rest: string)
    requires c !in s && (rest == "" || rest[0] == c)
    ensures Find(s + rest, c) == |s|
  {
    if s == "" {
      WithEmpty(rest);
    } else {
      TailOfConcat(s, rest);
      FindAfter(s[1..], c, rest);
    }
  }

  lemma NotInSpace(s: string, c: char)
    requires AllSpace(s) && !IsWhitespace(c)
    ensures c !in s
  {
  }

  lemma KeyComesFirst(key: string, gap: string, rest: string)
    requires IsKey(key) && AllSpace(gap)
    ensures var text := key + gap + "=" + rest;
            && SkipSeparators(text) == text && Find(text, '=') == |key + gap|
            && Trim(text[..|key + gap|]) == key && text[|key + gap| + 1..] == rest
  {
    var start, text := key + gap, key + gap + "=" + rest;
    assert '=' !in key;
    NotInSpace(gap, '=');
    Assoc(start, "=", rest);
    FindAfter(start, '=', "=" + rest);
    assert text[..|start|] == start && text[|start| + 1..] == rest && text[0] == key[0];
    TrimAround("", key, gap);
    WithEmpty(key);
  }

  lemma LowerKey(key: string)
    requires key != ""
    ensures Lower(key) != ""
  {
  }

  lemma TakeQuoted(p: Parameter, next: string)
    requires CanPrint(p) && p.quoted
    ensures TakeParameter(PrintOne(p) + next) == Read(Lower(p.key), p.value, next)
  {
    var quoted := Escape(p.value) + "\"" + next;
    QuotedText(p.key + p.gap, p.gap, Escape(p.value), next);
    KeyComesFirst(p.key, p.gap, p.gap + ("\"" + quoted));
    SkipBefore(p.gap, "\"" + quoted);
    ConsParts('"', quoted);
    QuotedRoundTrip(p.value, next);
  }

  lemma QuotedText(start: string, gap: string, escaped: string, next: string)
    ensures start + "=" + (gap + ("\"" + (escaped + "\""))) + next == start + "=" + (gap + ("\"" + (escaped + "\"" + next)))
  {
    Assoc(start + "=", gap + ("\"" + (escaped + "\"")), next);
    Assoc(gap, "\"" + (escaped + "\""), next);
    Assoc("\"", escaped + "\"", next);
  }

  /** What is read of a bare value, up to the comma. */
  lemma BareValue(gap: string, value: string, pad: string, next: string)
    requires AllSpace(gap) && IsBare(value) && AllSpace(pad) && (next == "" || next[0] == ',')
    ensures var after := SkipSpace(gap + (value + (pad + next)));
            var m := Find(after, ',');
            (after == "" || after[0] != '"') && Trim(after[..m]) == value && after[m..] == next
  {
    NotInSpace(pad, ',');
    if value == "" {
      WithEmpty(pad + next);
      Assoc(gap, pad, next);
      SkipBefore(gap + pad, next);
      FindAfter("", ',', next);
      WithEmpty(next);
    } else {
      SkipBefore(gap, value + (pad + next));
      Assoc(value, pad, next);
      FindAfter(value + pad, ',', next);
      JoinedParts(value + pad, next);
      TrimAround("", value, pad);
      WithEmpty(value);
    }
  }

  lemma TakeBare(p: Parameter, next: string)
    requires CanPrint(p) && !p.quoted && (next == "" || next[0] == ',')
    ensures TakeParameter(PrintOne(p) + (p.pad + next)) == Read(Lower(p.key), p.value, SkipCommas(next))
  {
    Assoc(p.key + p.gap + "=", p.gap + p.value, p.pad + next);
    Assoc(p.gap, p.value, p.pad + next);
    KeyComesFirst(p.key, p.gap, p.gap + (p.value + (p.pad + next)));
    BareValue(p.gap, p.value, p.pad, next);
  }

  /** Separators in front do not matter. */
  lemma SameParse(a: string, b: string, values: map<string, string>)
    requires a != "" && b != "" && SkipSeparators(a) == SkipSeparators(b)
    ensures ParseFrom(a, values) == ParseFrom(b, values)
  {
    assert TakeParameter(a) == TakeParameter(b);
  }

  lemma {:induction false} SkipPad(pad: string, text: string)
    requires AllSpace(pad)
    ensures SkipSeparators(pad + text) == SkipSeparators(text)
  {
    if pad == "" {
      WithEmpty(text);
    } else {
      TailOfConcat(pad, text);
      SkipPad(pad[1..], text);
    }
  }

  lemma SkipSpaceAndComma(text: string)
    requires text != "" && text[0] != ','
    ensures SkipSeparators(" " + text) == SkipSeparators(text) == SkipSeparators(", " + text) && SkipCommas(", " + text) == " " + text
  {
    assert ", " + text == [','] + (" " + text);
    ConsParts(',', " " + text);
    ConsParts(' ', text);
  }

  lemma PrintStarts(list: seq<Parameter>)
    requires list != [] && IsKey(list[0].key)
    ensures SkipSeparators(Print(list)) == Print(list) != "" && Print(list)[0] == list[0].key[0]
  {
    assert Print(list)[0] == list[0].key[0];
  }

  /** What follows a printed parameter parses as the rest of the list. */
  lemma ParseNext(p: Parameter, rest: seq<Parameter>, values: map<string, string>)
    requires CanPrint(p) && rest != [] && CanPrint(rest[0])
    ensures var next := ", " + Print(rest);
            ParseFrom(if p.quoted then p.pad + next else SkipCommas(next), values) == ParseFrom(Print(rest), values)
  {
    PrintStarts(rest);
    SkipSpaceAndComma(Print(rest));
    SkipPad(p.pad, ", " + Print(rest));
    SameParse(p.pad + (", " + Print(rest)), Print(rest), values);
    SameParse(" " + Print(rest), Print(rest), values);
  }

  lemma ParseRead(text: string, key: string, value: string, next: string, values: map<string, string>)
    requires text != "" && TakeParameter(text) == Read(key, value, next) && key != ""
    ensures ParseFrom(text, values) == ParseFrom(next, values[key := value])
  {
  }

  lemma ParseLast(p: Parameter, values: map<string, string>)
    requires CanPrint(p)
    ensures ParseFrom(PrintOne(p), values) == values[Lower(p.key) := p.value]
  {
    LowerKey(p.key);
    WithEmpty(PrintOne(p));
    if p.quoted {
      TakeQuoted(p, "");
    } else {
      TakeBare(p.(pad := ""), "");
      WithEmpty("");
    }
    ParseRead(PrintOne(p), Lower(p.key), p.value, "", values);
  }

  lemma ParseFirst(p: Parameter, rest: seq<Parameter>, values: map<string, string>)
    requires CanPrint(p) && rest != [] && CanPrint(rest[0])
    ensures ParseFrom(PrintOne(p) + (p.pad + (", " + Print(rest))), values) == ParseFrom(Print(rest), values[Lower(p.key) := p.value])
  {
    var next, text := ", " + Print(rest), PrintOne(p) + (p.pad + (", " + Print(rest)));
    LowerKey(p.key);
    ParseNext(p, rest, values[Lower(p.key) := p.value]);
    if p.quoted {
      TakeQuoted(p, p.pad + next);
      ParseRead(text, Lower(p.key), p.value, p.pad + next, values);
    } else {
      TakeBare(p, next);
      ParseRead(text, Lower(p.key), p.value, SkipCommas(next), values);
    }
  }

  lemma {:induction false} ParsePrinted(list: seq<Parameter>, values: map<string, string>)
    requires forall i | 0 <= i < |list| :: CanPrint(list[i])
    ensures ParseFrom(Print(list), values) == Stored(list, values)
    decreases |list|
  {
    if |list| == 1 {
      ParseLast(list[0], values);
      assert list[1..] == [];
    } else if list != [] {
      ParseFirst(list[0], list[1..], values);
      ParsePrinted(list[1..], values[Lower(list[0].key) := list[0].value]);
    }
  }

  lemma {:induction false} PrintEnds(list: seq<Parameter>)
    requires list != [] && forall i | 0 <= i < |list| :: CanPrint(list[i])
    ensures Print(list) != "" && !IsWhitespace(Print(list)[|Print(list)| - 1])
    decreases |list|
  {
    if |list| > 1 {
      PrintEnds(list[1..]);
    }
  }

  lemma TrimNothing(s: string)
    requires s != "" && !IsWhitespace(s[0]) && !IsWhitespace(s[|s| - 1])
    ensures Trim(s) == s
  {
  }

  /** A printed parameter list parses back to the map it denotes: any keys of the token shape in any case,
      any values in quotes, bare values that need none, and any white space around equals signs and before commas. */
  lemma ChallengeRoundTrip(list: seq<Parameter>)
    requires forall i | 0 <= i < |list| :: CanPrint(list[i])
    ensures Parse(Print(list)) == Stored(list, map[])
  {
    ParsePrinted(list, map[]);
    PrintIsTrim(list);
  }

  lemma PrintIsTrim(list: seq<Parameter>)
    requires forall i | 0 <= i < |list| :: CanPrint(list[i])
    ensures Trim(Print(list)) == Print(list)
  {
    if list != [] {
      PrintEnds(list);
      PrintStarts(list);
      TrimNothing(Print(list));
    }
  }

  predicate DistinctKeys(list: seq<Parameter>) {
    forall j, k | 0 <= j < k < |list| :: Lower(list[j].key) != Lower(list[k].key)
  }

  /** The map that a list of parameters denotes. */
  ghost function Denoted(list: seq<Parameter>): map<string, string>
    requires DistinctKeys(list)
  {
    map p | p in list :: Lower(p.key) := p.value
  }

  /** With distinct keys the parsed map is exactly what was printed: every value under its key, and no other key. */
  lemma DistinctRoundTrip(list: seq<Parameter>)
    requires DistinctKeys(list) && forall i | 0 <= i < |list| :: CanPrint(list[i])
    ensures Parse(Print(list)) == Denoted(list)
  {
    ChallengeRoundTrip(list);
    StoredIsDenoted(list);
  }

  lemma StoredIsDenoted(list: seq<Parameter>)
    requires DistinctKeys(list)
    ensures Stored(list, map[]) == Denoted(list)
  {
    var stored, denoted := Stored(list, map[]), Denoted(list);
    forall key ensures key in stored <==> key in denoted {
      StoredOnly(list, map[], key);
    }
    forall key | key in denoted ensures key in stored && stored[key] == denoted[key] {
      var i :| 0 <= i < |list| && Lower(list[i].key) == key && denoted[key] == list[i].value;
      StoredHasAll(list, map[], i);
    }
  }

  lemma {:induction false} StoredOnly(list: seq<Parameter>, values: map<string, string>, key: string)
    ensures key in Stored(list, values) <==> key in values || exists p :: p in list && Lower(p.key) == key
    decreases |list|
  {
    if list != [] {
      StoredOnly(list[1..], values[Lower(list[0].key) := list[0].value], key);
      AsCons(list);
    }
  }

  /** With distinct keys nothing is overwritten. */
  lemma {:induction false} StoredHasAll(list: seq<Parameter>, values: map<string, string>, i: nat)
    requires i < |list| && DistinctKeys(list)
    ensures Lower(list[i].key) in Stored(list, values) && Stored(list, values)[Lower(list[i].key)] == list[i].value
    decreases |list|
  {
    if i > 0 {
      StoredHasAll(list[1..], values[Lower(list[0].key) := list[0].value], i - 1);
    } else {
      StoredKeeps(list[1..], values[Lower(list[0].key) := list[0].value], Lower(list[0].key));
    }
  }

  lemma {:induction false} StoredKeeps(list: seq<Parameter>, values: map<string, string>, key: string)
    requires forall k | 0 <= k < |list| :: Lower(list[k].key) != key
    requires key in values
    ensures key in Stored(list, values) && Stored(list, values)[key] == values[key]
    decreases |list|
  {
    if list != [] {
      StoredKeeps(list[1..], values[Lower(list[0].key) := list[0].value], key);
    }
  }
}
