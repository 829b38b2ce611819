/**
 * The code-point list builder of setup/setup.ts.
 *
 * The Unihan readings file is a text of lines; a line that is not a comment holds
 * tab-separated fields, the first a code (`U+4E00`), the second a reading field name. The
 * builder collects the codes of four reading fields, merges them per language, drops
 * duplicate code strings, parses the codes, applies the include/exclude overrides of the
 * configuration, sorts, and compresses each list into a character-class source.
 * File and process I/O are not modelled: the readings file is the `content` parameter,
 * the configuration a `DetectorConfig` value, and the two sources are returned.
 */
module Setup {
  import opened Wrappers
  import opened Text
  import opened Hex
  import opened Sorting
  import opened RegExpSource
  import opened ClassDecoder

  // ---------------------------------------------------------------------------
  // Classifying the lines of the readings file.

  /** The four reading fields the builder collects. */
  datatype Reading = JapaneseKun | JapaneseOn | Mandarin | Cantonese

  /** The field name of a reading, as the second column spells it. */
  function FieldName(k: Reading): string {
    match k
    case JapaneseKun => "kJapaneseKun"
    case JapaneseOn => "kJapaneseOn"
    case Mandarin => "kMandarin"
    case Cantonese => "kCantonese"
  }

  /** The `switch` on the second field: one of the four names, or the `default` branch. */
  function ReadingOf(field: string): (r: Option<Reading>)
    ensures r.Some? ==> FieldName(r.value) == field
    ensures r.None? ==> forall k: Reading :: FieldName(k) != field
  {
    if field == "kJapaneseKun" then Some(JapaneseKun)
    else if field == "kJapaneseOn" then Some(JapaneseOn)
    else if field == "kMandarin" then Some(Mandarin)
    else if field == "kCantonese" then Some(Cantonese)
    else None
  }

  /** `line.startsWith("#")`. */
  predicate IsComment(line: string) {
    |line| > 0 && line[0] == '#'
  }

  /** The fields of a line that is not a comment: at least two, and the second one of the four names. */
  function EntryOf(fields: seq<string>): Option<(Reading, string)> {
    if |fields| < 2 then None
    else
      match ReadingOf(fields[1])
      case None => None
      case Some(k) => Some((k, fields[0]))
  }

  /**
   * What one line contributes: nothing for a comment, for a line of fewer than two fields
   * or for another field name; otherwise the reading and the first field.
   */
  function LineEntry(line: string): Option<(Reading, string)> {
    if IsComment(line) then None else EntryOf(Split(Trim(line), '\t'))
  }

  /**
   * A non-comment line whose trimmed text is a code, a tab, a field name and then nothing
   * or further tab-separated fields yields that code under the field's reading, if the field
   * is one of the four, and nothing otherwise.
   */
  lemma LineOfFields(line: string, code: string, field: string, rest: string)
    requires !IsComment(line)
    requires Trim(line) == code + ['\t'] + (field + rest)
    requires '\t' !in code && '\t' !in field
    requires rest == [] || rest[0] == '\t'
    ensures LineEntry(line) == match ReadingOf(field)
                               case None => None
                               case Some(k) => Some((k, code))
  {
    FieldsOf(Trim(line), code, field, rest);
  }

  lemma FieldsOf(t: string, code: string, field: string, rest: string)
    requires t == code + ['\t'] + (field + rest)
    requires '\t' !in code && '\t' !in field
    requires rest == [] || rest[0] == '\t'
    ensures var fields := Split(t, '\t'); |fields| >= 2 && fields[0] == code && fields[1] == field
  {
    SplitAtFirst(code, field + rest, '\t');
    if rest == [] {
      assert field + rest == field;
    } else {
      assert field + rest == field + ['\t'] + rest[1..];
      SplitAtFirst(field, rest[1..], '\t');
    }
  }

  /** A line whose trimmed text holds no tab has one field and yields nothing. */
  lemma OneFieldLine(line: string)
    requires '\t' !in Trim(line)
    ensures LineEntry(line) == None
  {
  }

  /** What each line yields, line by line. */
  function Entries(lines: seq<string>): (entries: seq<Option<(Reading, string)>>)
    ensures |entries| == |lines|
  {
    seq(|lines|, i requires 0 <= i < |lines| => LineEntry(lines[i]))
  }

  /** The codes the entries give under reading `k`, in order. */
  function Pick(entries: seq<Option<(Reading, string)>>, k: Reading): (codes: seq<string>)
    ensures |codes| <= |entries|
  {
    if entries == [] then []
    else
      Pick(entries[..|entries| - 1], k)
      + match entries[|entries| - 1]
        case Some((k', code)) => if k' == k then [code] else []
        case None => []
  }

  /** The codes the lines give under reading `k`, in the order of the lines. */
  function Collect(lines: seq<string>, k: Reading): seq<string> {
    Pick(Entries(lines), k)
  }

  /** A code is picked under `k` exactly when some entry is that code under `k`. */
  lemma {:induction false} PickMembers(entries: seq<Option<(Reading, string)>>, k: Reading, code: string)
    ensures code in Pick(entries, k) <==> Some((k, code)) in entries
  {
    if entries != [] {
      var init := entries[..|entries| - 1];
      PickMembers(init, k, code);
      assert entries == init + [entries[|entries| - 1]];
    }
  }

  /** A code is collected under `k` exactly when some line yields it under `k`. */
  lemma CollectMembers(lines: seq<string>, k: Reading, code: string)
    ensures code in Collect(lines, k) <==> exists i :: 0 <= i < |lines| && LineEntry(lines[i]) == Some((k, code))
  {
    var entries := Entries(lines);
    PickMembers(entries, k, code);
    if Some((k, code)) in entries {
      var i :| 0 <= i < |entries| && entries[i] == Some((k, code));
    }
    if exists i :: 0 <= i < |lines| && LineEntry(lines[i]) == Some((k, code)) {
      var i :| 0 <= i < |lines| && LineEntry(lines[i]) == Some((k, code));
      assert entries[i] == Some((k, code));
    }
  }

  lemma CollectSnoc(lines: seq<string>, i: nat, k: Reading)
    requires i < |lines|
    ensures Collect(lines[..i + 1], k) == Collect(lines[..i], k) + match LineEntry(lines[i])
                                                                   case Some((k', code)) => if k' == k then [code] else []
                                                                   case None => []
  {
    assert lines[..i + 1][..i] == lines[..i];
    var e := Entries(lines[..i + 1]);
    assert e[..i] == Entries(lines[..i]);
  }

  /** A line whose second field names reading `k` appends its first field to the list of `k` and to no other. */
  lemma LineAdds(lines: seq<string>, i: nat, fields: seq<string>, k: Reading)
    requires i < |lines| && !IsComment(lines[i])
    requires fields == Split(Trim(lines[i]), '\t') && |fields| >= 2 && fields[1] == FieldName(k)
    ensures forall k' :: Collect(lines[..i + 1], k') == Collect(lines[..i], k') + (if k' == k then [fields[0]] else [])
  {
    assert LineEntry(lines[i]) == Some((k, fields[0]));
    forall k' {
      CollectSnoc(lines, i, k');
    }
  }

  /** A comment, a line of one field, or a line of another field leaves every list as it is. */
  lemma LineAddsNothing(lines: seq<string>, i: nat)
    requires i < |lines|
    requires var fields := Split(Trim(lines[i]), '\t');
      IsComment(lines[i]) || |fields| < 2
      || (fields[1] != "kJapaneseKun" && fields[1] != "kJapaneseOn" && fields[1] != "kMandarin" && fields[1] != "kCantonese")
    ensures forall k' :: Collect(lines[..i + 1], k') == Collect(lines[..i], k')
  {
    assert LineEntry(lines[i]) == None;
    forall k' {
      CollectSnoc(lines, i, k');
    }
  }

  /**
   * The loop over `content.split("\n")`: each code goes to the list of its reading field,
   * in the order of the lines.
   */
  method ExtractReadings(content: string) returns (kun: seq<string>, on: seq<string>, mandarin: seq<string>, cantonese: seq<string>)
    ensures var lines := Split(content, '\n');
      && kun == Collect(lines, JapaneseKun) && on == Collect(lines, JapaneseOn)
      && mandarin == Collect(lines, Mandarin) && cantonese == Collect(lines, Cantonese)
  {
    var lines := Split(content, '\n');
    kun, on, mandarin, cantonese := [], [], [], [];
    for i := 0 to |lines|
      invariant kun == Collect(lines[..i], JapaneseKun) && on == Collect(lines[..i], JapaneseOn)
      invariant mandarin == Collect(lines[..i], Mandarin) && cantonese == Collect(lines[..i], Cantonese)
    {
      var line := lines[i];
      if !IsComment(line) {
        var splitLines := Split(Trim(line), '\t');
        if |splitLines| >= 2 {
          var stringCode, stringType := splitLines[0], splitLines[1];
          if stringType == "kJapaneseKun" {
            LineAdds(lines, i, splitLines, JapaneseKun);
            kun := kun + [stringCode];
          } else if stringType == "kJapaneseOn" {
            LineAdds(lines, i, splitLines, JapaneseOn);
            on := on + [stringCode];
          } else if stringType == "kMandarin" {
            LineAdds(lines, i, splitLines, Mandarin);
            mandarin := mandarin + [stringCode];
          } else if stringType == "kCantonese" {
            LineAdds(lines, i, splitLines, Cantonese);
            cantonese := cantonese + [stringCode];
          } else {
            LineAddsNothing(lines, i);
          }
        } else {
          LineAddsNothing(lines, i);
        }
      } else {
        LineAddsNothing(lines, i);
      }
    }
    assert lines[..|lines|] == lines;
  }

  // ---------------------------------------------------------------------------
  // Merging the readings and dropping duplicate code strings.

  /** `Array.from(new Set(s))`: the distinct elements of `s`, in the order of their first occurrence. */
  function Dedup<T(==)>(s: seq<T>): (r: seq<T>)
    ensures |r| <= |s|
  {
    if s == [] then []
    else
      var d := Dedup(s[..|s| - 1]);
      if s[|s| - 1] in d then d else d + [s[|s| - 1]]
  }

  /** The de-duplicated list holds each element of the input... */
  lemma {:induction false} DedupMembers<T>(s: seq<T>, x: T)
    ensures x in Dedup(s) <==> x in s
  {
    if s != [] {
      var init, last := s[..|s| - 1], s[|s| - 1];
      DedupMembers(init, x);
      assert s == init + [last];
    }
  }

  /** ...and each only once. */
  lemma {:induction false} DedupDistinct<T>(s: seq<T>)
    ensures Distinct(Dedup(s))
  {
    if s != [] {
      var init, last := s[..|s| - 1], s[|s| - 1];
      DedupDistinct(init);
      DedupMembers(init, last);
    }
  }

  /** The de-duplicated list keeps the order of first occurrences. */
  lemma {:induction false} DedupOrder<T>(s: seq<T>, i: nat, j: nat)
    requires i < j < |Dedup(s)|
    ensures Dedup(s)[i] in s && Dedup(s)[j] in s && IndexOf(s, Dedup(s)[i]) < IndexOf(s, Dedup(s)[j])
  {
    var init, last := s[..|s| - 1], s[|s| - 1];
    assert s == init + [last];
    DedupMembers(s, Dedup(s)[i]);
    DedupMembers(s, Dedup(s)[j]);
    var d := Dedup(init);
    assert Dedup(s) == if last in d then d else d + [last];
    var x, y := Dedup(s)[i], Dedup(s)[j];
    assert x == d[i];
    DedupMembers(init, x);
    IndexOfPrefix(init, last, x);
    if j < |d| {
      DedupOrder(init, i, j);
      assert y == d[j];
      DedupMembers(init, y);
      IndexOfPrefix(init, last, y);
    } else {
      assert y == last;
      DedupMembers(init, last);
      IndexOfIs(s, last, |s| - 1);
    }
  }

  /** Appending an element leaves the first position of an element already present alone. */
  lemma IndexOfPrefix<T>(p: seq<T>, e: T, x: T)
    requires x in p
    ensures IndexOf(p + [e], x) == IndexOf(p, x)
  {
    var k := IndexOf(p, x);
    IndexOfIs(p + [e], x, k);
  }

  // ---------------------------------------------------------------------------
  // `parseInt(e.slice(2), 16)`.

  /** The longest prefix of `s` made of hexadecimal digits. */
  function HexPrefix(s: string): (r: string)
    ensures r <= s && AllHexDigits(r)
    ensures |r| < |s| ==> !IsHexDigit(s[|r|])
  {
    if s != [] && IsHexDigit(s[0]) then [s[0]] + HexPrefix(s[1..]) else []
  }

  /**
   * `parseInt(s, 16)` (ECMA-262, section 19.2.5): leading white space is skipped, a sign and
   * then a `0x`/`0X` prefix are taken off, and the longest run of hexadecimal digits that
   * follows is the value; no digit at all is NaN, here `None`.
   */
  function ParseInt16(s: string): Option<int> {
    var t := TrimStart(s);
    var z := HexPrefix(SkipHexMark(SkipSign(t)));
    if z == [] then None
    else if IsNegative(t) then Some(-(ParseHex(z) as int))
    else Some(ParseHex(z) as int)
  }

  predicate IsNegative(t: string) {
    t != [] && t[0] == '-'
  }

  /** Takes off a leading `+` or `-`. */
  function SkipSign(t: string): string {
    if t != [] && (t[0] == '-' || t[0] == '+') then t[1..] else t
  }

  /** Takes off a leading `0x` or `0X`. */
  function SkipHexMark(u: string): string {
    if |u| >= 2 && u[0] == '0' && (u[1] == 'x' || u[1] == 'X') then u[2..] else u
  }

  lemma {:induction false} HexPrefixOf(h: string, tail: string)
    requires AllHexDigits(h)
    requires tail == [] || !IsHexDigit(tail[0])
    ensures HexPrefix(h + tail) == h
  {
    if h != [] {
      assert (h + tail)[1..] == h[1..] + tail;
      HexPrefixOf(h[1..], tail);
    }
  }

  /** A hexadecimal digit is not white space, nor a sign, nor the `x` of a prefix. */
  lemma DigitIsPlain(c: char)
    requires IsHexDigit(c)
    ensures !IsWhiteSpace(c) && c != '-' && c != '+' && c != 'x' && c != 'X'
  {
  }

  /** A text that starts with a digit and has no `0x` mark is read from its first character. */
  lemma ParseInt16Plain(s: string)
    requires s != [] && IsHexDigit(s[0])
    requires |s| < 2 || s[0] != '0' || (s[1] != 'x' && s[1] != 'X')
    ensures ParseInt16(s) == Some(ParseHex(HexPrefix(s)) as int)
  {
    DigitIsPlain(s[0]);
    assert TrimStart(s) == s;
    assert SkipSign(s) == s;
    assert SkipHexMark(s) == s;
  }

  /** `parseInt` reads the hexadecimal digits up to the first character that is not one. */
  lemma ParseInt16Digits(h: string, tail: string)
    requires h != [] && AllHexDigits(h)
    requires tail == [] || !IsHexDigit(tail[0])
    requires h == "0" && tail != [] ==> tail[0] != 'x' && tail[0] != 'X'
    ensures ParseInt16(h + tail) == Some(ParseHex(h) as int)
  {
    var s := h + tail;
    assert s[0] == h[0];
    assert |s| >= 2 && s[0] == '0' ==> s[1] != 'x' && s[1] != 'X' by {
      if |h| >= 2 {
        assert s[1] == h[1];
        DigitIsPlain(h[1]);
      } else if |s| >= 2 && s[0] == '0' {
        assert h == "0";
        assert s[1] == tail[0];
      }
    }
    HexPrefixOf(h, tail);
    ParseInt16Plain(s);
  }

  /** A minus sign negates what follows. */
  lemma ParseInt16Negative(h: string)
    requires h != [] && AllHexDigits(h)
    ensures ParseInt16(['-'] + h) == Some(-(ParseHex(h) as int))
  {
    MinusTaken(h);
    DigitsUnmarked(h);
    HexPrefixOf(h, []);
    assert h + [] == h;
  }

  lemma MinusTaken(h: string)
    ensures var s := ['-'] + h; TrimStart(s) == s && IsNegative(s) && SkipSign(s) == h
  {
    var s := ['-'] + h;
    assert s[1..] == h;
  }

  lemma DigitsUnmarked(h: string)
    requires h != [] && AllHexDigits(h)
    ensures SkipHexMark(h) == h
  {
    if |h| >= 2 {
      DigitIsPlain(h[1]);
    }
  }

  /** The `0x` prefix is skipped. */
  lemma ParseInt16HexPrefix(h: string)
    requires h != [] && AllHexDigits(h)
    ensures ParseInt16("0x" + h) == Some(ParseHex(h))
  {
    var s := "0x" + h;
    assert TrimStart(s) == s;
    assert !IsNegative(s) && SkipSign(s) == s;
    assert SkipHexMark(s) == h;
    HexPrefixOf(h, []);
    assert h + [] == h;
  }

  /** `e.slice(2)`. */
  function Slice2(e: string): string {
    if |e| >= 2 then e[2..] else []
  }

  /** The code point a code string stands for; a NaN or negative reading stands for none. */
  function CodeOf(e: string): Option<nat> {
    match ParseInt16(Slice2(e))
    case Some(n) => if n >= 0 then Some(n) else None
    case None => None
  }

  /** A code string of two characters or fewer leaves nothing after the slice: NaN. */
  lemma MissingCode(e: string)
    requires |e| <= 2
    ensures CodeOf(e) == None
  {
    assert Slice2(e) == [];
    assert TrimStart([]) == [] && SkipSign([]) == [] && SkipHexMark([]) == [];
  }

  /** A code written as the readings file writes it, `U+` and hexadecimal digits, is that number. */
  lemma UnihanCode(h: string)
    requires h != [] && AllHexDigits(h)
    ensures CodeOf("U+" + h) == Some(ParseHex(h))
  {
    assert Slice2("U+" + h) == h + [];
    ParseInt16Digits(h, []);
  }

  /** `.map((e) => parseInt(e.slice(2), 16))`. */
  function CodeList(strs: seq<string>): (codes: seq<Option<nat>>)
    ensures |codes| == |strs|
  {
    seq(|strs|, i requires 0 <= i < |strs| => CodeOf(strs[i]))
  }

  /** The entries that are code points, in order. */
  function Present(codes: seq<Option<nat>>): (r: seq<nat>)
    ensures |r| <= |codes|
  {
    if codes == [] then []
    else
      Present(codes[..|codes| - 1])
      + match codes[|codes| - 1]
        case Some(n) => [n]
        case None => []
  }

  lemma {:induction false} PresentMembers(codes: seq<Option<nat>>, x: nat)
    ensures x in Present(codes) <==> Some(x) in codes
  {
    if codes != [] {
      var init := codes[..|codes| - 1];
      PresentMembers(init, x);
      assert codes == init + [codes[|codes| - 1]];
    }
  }

  /** The parsed code strings, keeping the entries that are code points. */
  function ParseCodes(strs: seq<string>): seq<nat> {
    Present(CodeList(strs))
  }

  /** The code string at `i` stands for `x`. */
  predicate CodeAt(strs: seq<string>, i: int, x: nat) {
    0 <= i < |strs| && CodeOf(strs[i]) == Some(x)
  }

  /** The parsed list holds exactly the code points the strings stand for. */
  lemma ParseCodesMembers(strs: seq<string>, x: nat)
    ensures x in ParseCodes(strs) <==> exists i :: CodeAt(strs, i, x)
  {
    var codes := CodeList(strs);
    PresentMembers(codes, x);
    if Some(x) in codes {
      var i :| 0 <= i < |codes| && codes[i] == Some(x);
      assert CodeAt(strs, i, x);
    }
    if exists i :: CodeAt(strs, i, x) {
      var i :| CodeAt(strs, i, x);
      assert codes[i] == Some(x);
    }
  }

  /** When every string is a well-formed code, every one gives an entry. */
  lemma ParseCodesLength(strs: seq<string>)
    requires forall i :: 0 <= i < |strs| ==> CodeOf(strs[i]).Some?
    ensures |ParseCodes(strs)| == |strs|
  {
    AllPresent(CodeList(strs));
  }

  lemma {:induction false} AllPresent(codes: seq<Option<nat>>)
    requires forall i :: 0 <= i < |codes| ==> codes[i].Some?
    ensures |Present(codes)| == |codes|
  {
    if codes != [] {
      AllPresent(codes[..|codes| - 1]);
    }
  }

  // ---------------------------------------------------------------------------
  // The configuration's overrides.

  /** The configuration file: four optional lists of one-character strings. */
  datatype DetectorConfig = DetectorConfig(
    includeCodesForJa: Option<seq<string>>,
    excludeCodesForJa: Option<seq<string>>,
    includeCodesForZh: Option<seq<string>>,
    excludeCodesForZh: Option<seq<string>>)

  /** `list || []`. */
  function OrEmpty(list: Option<seq<string>>): seq<string> {
    match list
    case Some(l) => l
    case None => []
  }

  /**
   * `str.codePointAt(0)` as the source's `if (unicode)` sees it: the empty string gives
   * `undefined` and U+0000 gives `0`, both of which the test rejects.
   */
  function OverridePoint(str: string): Option<nat> {
    if str != [] && str[0] as int != 0 then Some(str[0] as int) else None
  }

  /** The code points the override strings name. */
  function Points(strs: seq<string>): set<nat> {
    if strs == [] then {}
    else
      Points(strs[..|strs| - 1])
      + match OverridePoint(strs[|strs| - 1])
        case Some(u) => {u}
        case None => {}
  }

  /** A string's code point is named exactly when one of the strings gives it. */
  lemma {:induction false} PointsMembers(strs: seq<string>, u: nat)
    ensures u in Points(strs) <==> exists i :: 0 <= i < |strs| && OverridePoint(strs[i]) == Some(u)
  {
    if strs != [] {
      var init := strs[..|strs| - 1];
      PointsMembers(init, u);
      if exists i :: 0 <= i < |init| && OverridePoint(init[i]) == Some(u) {
        var i :| 0 <= i < |init| && OverridePoint(init[i]) == Some(u);
        assert init[i] == strs[i];
      }
      if exists i :: 0 <= i < |strs| && OverridePoint(strs[i]) == Some(u) {
        var i :| 0 <= i < |strs| && OverridePoint(strs[i]) == Some(u);
        if i < |init| {
          assert init[i] == strs[i];
        }
      }
    }
  }

  /** The list after the include loop: each named code point not yet present is appended. */
  function IncludeAll(codes: seq<nat>, strs: seq<string>): (r: seq<nat>)
    ensures codes <= r
  {
    if strs == [] then codes
    else
      var r := IncludeAll(codes, strs[..|strs| - 1]);
      match OverridePoint(strs[|strs| - 1])
      case Some(u) => if u in r then r else r + [u]
      case None => r
  }

  /** Including keeps every code and adds every named code point and nothing else... */
  lemma {:induction false} IncludeAllMembers(codes: seq<nat>, strs: seq<string>, x: nat)
    ensures x in IncludeAll(codes, strs) <==> x in codes || x in Points(strs)
  {
    if strs != [] {
      IncludeAllMembers(codes, strs[..|strs| - 1], x);
    }
  }

  /** ...and adds no duplicate. */
  lemma {:induction false} IncludeAllDistinct(codes: seq<nat>, strs: seq<string>)
    requires Distinct(codes)
    ensures Distinct(IncludeAll(codes, strs))
  {
    if strs != [] {
      IncludeAllDistinct(codes, strs[..|strs| - 1]);
    }
  }

  /** The include loop. */
  method IncludeCodes(codes: seq<nat>, strs: seq<string>) returns (r: seq<nat>)
    ensures r == IncludeAll(codes, strs)
  {
    r := codes;
    for i := 0 to |strs|
      invariant r == IncludeAll(codes, strs[..i])
    {
      assert strs[..i + 1][..i] == strs[..i];
      var unicode := OverridePoint(strs[i]);
      if unicode.Some? && unicode.value !in r {
        r := r + [unicode.value];
      }
    }
    assert strs[..|strs|] == strs;
  }

  /** `codes.filter((e) => !excluded(e))`: the codes outside `excluded`, in order. */
  function Keep(codes: seq<nat>, excluded: set<nat>): (r: seq<nat>)
    ensures |r| <= |codes|
  {
    if codes == [] then []
    else (if codes[0] in excluded then [] else [codes[0]]) + Keep(codes[1..], excluded)
  }

  /** Filtering keeps exactly the codes outside the excluded set... */
  lemma {:induction false} KeepMembers(codes: seq<nat>, excluded: set<nat>, x: nat)
    ensures x in Keep(codes, excluded) <==> x in codes && x !in excluded
  {
    if codes != [] {
      KeepMembers(codes[1..], excluded, x);
      assert codes == [codes[0]] + codes[1..];
    }
  }

  /** ...and makes no duplicate. */
  lemma {:induction false} KeepDistinct(codes: seq<nat>, excluded: set<nat>)
    requires Distinct(codes)
    ensures Distinct(Keep(codes, excluded))
  {
    if codes != [] {
      var rest := Keep(codes[1..], excluded);
      assert Distinct(codes[1..]);
      KeepDistinct(codes[1..], excluded);
      if codes[0] !in excluded {
        assert codes[0] !in rest by {
          KeepMembers(codes[1..], excluded, codes[0]);
        }
        var once := [codes[0]] + rest;
        assert Keep(codes, excluded) == once;
        forall i, j | 0 <= i < j < |once|
          ensures once[i] != once[j]
        {
          assert once[j] == rest[j - 1];
          if i > 0 {
            assert once[i] == rest[i - 1];
          }
        }
      } else {
        assert Keep(codes, excluded) == [] + rest == rest;
      }
    }
  }

  /** Filtering twice is filtering once by both sets. */
  lemma {:induction false} KeepTwice(codes: seq<nat>, p: set<nat>, q: set<nat>)
    ensures Keep(Keep(codes, p), q) == Keep(codes, p + q)
  {
    if codes != [] {
      KeepTwice(codes[1..], p, q);
      var rest := Keep(codes[1..], p);
      if codes[0] !in p {
        var once := [codes[0]] + rest;
        assert Keep(codes, p) == once;
        assert once[0] == codes[0] && once[1..] == rest;
        assert Keep(once, q) == (if codes[0] in q then [] else [codes[0]]) + Keep(rest, q);
      } else {
        assert Keep(codes, p) == [] + rest == rest;
        assert Keep(codes, p + q) == [] + Keep(codes[1..], p + q);
      }
    }
  }

  /** The exclude loop: every named code point is filtered out. */
  method ExcludeCodes(codes: seq<nat>, strs: seq<string>) returns (r: seq<nat>)
    ensures r == Keep(codes, Points(strs))
  {
    r := codes;
    KeepNothing(codes);
    for i := 0 to |strs|
      invariant r == Keep(codes, Points(strs[..i]))
    {
      assert strs[..i + 1][..i] == strs[..i];
      var unicode := OverridePoint(strs[i]);
      assert unicode.None? ==> Points(strs[..i + 1]) == Points(strs[..i]);
      if unicode.Some? {
        KeepTwice(codes, Points(strs[..i]), {unicode.value});
        assert Points(strs[..i + 1]) == Points(strs[..i]) + {unicode.value};
        r := Keep(r, {unicode.value});
      }
    }
    assert strs[..|strs|] == strs;
  }

  /** Filtering by the empty set changes nothing. */
  lemma {:induction false} KeepNothing(codes: seq<nat>)
    ensures Keep(codes, {}) == codes
  {
    if codes != [] {
      KeepNothing(codes[1..]);
    }
  }

  // ---------------------------------------------------------------------------
  // The whole build.

  /** The code points of one language before sorting: merged, de-duplicated, parsed, overridden. */
  function LanguageCodes(first: seq<string>, second: seq<string>, included: seq<string>, excluded: seq<string>): seq<nat> {
    Keep(IncludeAll(ParseCodes(Dedup(first + second)), included), Points(excluded))
  }

  /**
   * A code point is in a language's list exactly when one of its reading codes or one of
   * its include strings names it and none of its exclude strings does: exclusion wins.
   */
  lemma LanguageCodesMembers(first: seq<string>, second: seq<string>, included: seq<string>, excluded: seq<string>, x: nat)
    ensures x in LanguageCodes(first, second, included, excluded)
        <==> ((exists i :: CodeAt(first + second, i, x)) || x in Points(included)) && x !in Points(excluded)
  {
    var strs := Dedup(first + second);
    var parsed := ParseCodes(strs);
    KeepMembers(IncludeAll(parsed, included), Points(excluded), x);
    IncludeAllMembers(parsed, included, x);
    ParseCodesMembers(strs, x);
    DedupCodes(first + second, x);
  }

  /** De-duplicating the code strings keeps every code point they stand for. */
  lemma DedupCodes(all: seq<string>, x: nat)
    ensures (exists i :: CodeAt(Dedup(all), i, x)) <==> exists i :: CodeAt(all, i, x)
  {
    var strs := Dedup(all);
    if exists i :: CodeAt(strs, i, x) {
      var i :| CodeAt(strs, i, x);
      DedupMembers(all, strs[i]);
      var j := IndexOf(all, strs[i]);
      assert CodeAt(all, j, x);
    }
    if exists i :: CodeAt(all, i, x) {
      var i :| CodeAt(all, i, x);
      DedupMembers(all, all[i]);
      var j := IndexOf(strs, all[i]);
      assert CodeAt(strs, j, x);
    }
  }

  /** When the parsed reading codes are distinct, so is the overridden list. */
  lemma LanguageCodesDistinct(first: seq<string>, second: seq<string>, included: seq<string>, excluded: seq<string>)
    requires Distinct(ParseCodes(Dedup(first + second)))
    ensures Distinct(LanguageCodes(first, second, included, excluded))
  {
    var parsed := ParseCodes(Dedup(first + second));
    IncludeAllDistinct(parsed, included);
    KeepDistinct(IncludeAll(parsed, included), Points(excluded));
  }

  /**
   * What one language's build delivers: its list, sorted and holding the language's code
   * points, and a character-class source that decodes to that list.
   */
  predicate Delivers(list: seq<nat>, source: string, codes: seq<nat>) {
    && Sorted(list)
    && multiset(list) == multiset(codes)
    && ((forall i :: 0 <= i < |list| ==> ScalarValue(list[i])) ==> DecodeClass(source, true) == Some(list))
  }

  /** A list of distinct code points keeps them distinct when sorted, and comes out strictly ascending. */
  lemma DeliveredAscending(list: seq<nat>, source: string, codes: seq<nat>)
    requires Delivers(list, source, codes) && Distinct(codes)
    ensures StrictlyIncreasing(list)
  {
    DistinctCounts(codes);
    DistinctCounts(list);
    SortedDistinct(list);
  }

  /** The set of code points a class source denotes under the strict reading; `None` if it is malformed. */
  function ClassSet(source: string): Option<set<nat>> {
    match DecodeClass(source, true)
    case Some(list) => Some(Elements(list))
    case None => None
  }

  /** The values of a list, as a set. */
  function Elements(s: seq<nat>): set<nat> {
    set x | x in s
  }

  /**
   * The class compiled from a delivered source matches exactly the language's code points:
   * this set is what the classifier's `init` receives as the loaded set.
   */
  lemma DeliveredClassSet(list: seq<nat>, source: string, codes: seq<nat>)
    requires Delivers(list, source, codes)
    requires forall i :: 0 <= i < |codes| ==> ScalarValue(codes[i])
    ensures ClassSet(source) == Some(Elements(codes))
  {
    forall i | 0 <= i < |list|
      ensures ScalarValue(list[i])
    {
      assert list[i] in multiset(codes);
      var j :| 0 <= j < |codes| && codes[j] == list[i];
    }
    assert DecodeClass(source, true) == Some(list);
    SameElements(list, codes);
  }

  /** Two rearrangements of the same values hold the same set of values. */
  lemma SameElements(a: seq<nat>, b: seq<nat>)
    requires multiset(a) == multiset(b)
    ensures Elements(a) == Elements(b)
  {
    forall x
      ensures x in a <==> x in b
    {
      assert x in a <==> x in multiset(a);
      assert x in b <==> x in multiset(b);
    }
  }

  /** Sorts a copy of `codes` and writes its class source. */
  method SortAndGenerate(codes: seq<nat>) returns (list: seq<nat>, source: string)
    ensures Delivers(list, source, codes)
  {
    var a := new nat[|codes|](i requires 0 <= i < |codes| => codes[i]);
    assert a[..] == codes;
    SortAscending(a);
    list := a[..];
    source := GenerateRegExpSourcePadded(list);
    if forall i :: 0 <= i < |list| ==> ScalarValue(list[i]) {
      PaddedRoundTripStrict(list);
    }
  }

  /**
   * The build: the readings are classified line by line, the Chinese list is merged and
   * overridden, then the Japanese list, and both are sorted and compressed.
   */
  method BuildSources(content: string, config: DetectorConfig)
    returns (japaneseList: seq<nat>, chineseList: seq<nat>, japanese: string, chinese: string)
    ensures var lines := Split(content, '\n');
      && Delivers(japaneseList, japanese,
                  LanguageCodes(Collect(lines, JapaneseKun), Collect(lines, JapaneseOn),
                                OrEmpty(config.includeCodesForJa), OrEmpty(config.excludeCodesForJa)))
      && Delivers(chineseList, chinese,
                  LanguageCodes(Collect(lines, Mandarin), Collect(lines, Cantonese),
                                OrEmpty(config.includeCodesForZh), OrEmpty(config.excludeCodesForZh)))
  {
    var kun, on, mandarin, cantonese := ExtractReadings(content);
    var ja := ParseCodes(Dedup(kun + on));
    var zh := ParseCodes(Dedup(mandarin + cantonese));
    zh := IncludeCodes(zh, OrEmpty(config.includeCodesForZh));
    zh := ExcludeCodes(zh, OrEmpty(config.excludeCodesForZh));
    ja := IncludeCodes(ja, OrEmpty(config.includeCodesForJa));
    ja := ExcludeCodes(ja, OrEmpty(config.excludeCodesForJa));
    japaneseList, japanese := SortAndGenerate(ja);
    chineseList, chinese := SortAndGenerate(zh);
  }
}
