/**
 * The language classifier of src/detect.ts.
 *
 * A text is a sequence of units (`char`), each standing for one code point. The two compiled
 * character classes of `detectChineseStatic` are modelled by the sets of code points they
 * match; a unit matches a class when its code point is in the set.
 *
 * `match` and the `detectChinese` constructor split a text in three stages: the units the
 * Japanese class matches, then (after removing those one by one with `replace`) the units the
 * Chinese class matches, then whatever is left. The functions below state that partition as
 * plain filters; the methods run the source's remove-first-occurrence loops and are proved
 * to produce it.
 */
module Detect {
  import opened Text

  /** The `lang` field: "JA", "ZH", or the empty string. */
  datatype Lang = JA | ZH | NoLang

  /** `LangDetectionResult`: each `...Strings` field holds one-unit strings, here units. */
  datatype LangDetectionResult = LangDetectionResult(
    lang: Lang,
    text: string,
    japaneseStrings: seq<char>,
    chineseStrings: seq<char>,
    otherStrings: seq<char>)

  /** The hiragana block and the katakana block `init` adds to the Japanese class. */
  const Hiragana: set<int> := set c: int | 0x3040 <= c <= 0x309F
  const Katakana: set<int> := set c: int | 0x30A0 <= c <= 0x30FF
  const KanaBlocks: set<int> := Hiragana + Katakana

  predicate Matches(codes: set<int>, u: char) {
    u as int in codes
  }

  // ---------------------------------------------------------------------------
  // Filters and the regexp test.

  /** `split("").filter(test)`: the units that match, in their original order. */
  function FilterIn(t: seq<char>, codes: set<int>): (r: seq<char>)
    ensures |r| <= |t|
  {
    if t == [] then []
    else (if Matches(codes, t[0]) then [t[0]] else []) + FilterIn(t[1..], codes)
  }

  /** The units that do not match, in their original order. */
  function FilterNotIn(t: seq<char>, codes: set<int>): (r: seq<char>)
    ensures |r| <= |t|
  {
    if t == [] then []
    else (if Matches(codes, t[0]) then [] else [t[0]]) + FilterNotIn(t[1..], codes)
  }

  /** `RegExp.prototype.test` on a one-character class: some unit of `t` matches. */
  function Test(codes: set<int>, t: seq<char>): bool {
    if t == [] then false else Matches(codes, t[0]) || Test(codes, t[1..])
  }

  lemma {:induction false} TestFindsUnit(codes: set<int>, t: seq<char>)
    ensures Test(codes, t) <==> exists i :: 0 <= i < |t| && Matches(codes, t[i])
  {
    if t != [] {
      TestFindsUnit(codes, t[1..]);
      if Test(codes, t[1..]) {
        var i :| 0 <= i < |t[1..]| && Matches(codes, t[1..][i]);
        assert Matches(codes, t[i + 1]);
      }
      if exists i :: 0 <= i < |t| && Matches(codes, t[i]) {
        var i :| 0 <= i < |t| && Matches(codes, t[i]);
        if i > 0 {
          assert Matches(codes, t[1..][i - 1]);
        }
      }
    }
  }

  /** The filters keep each matching (non-matching) unit as often as it occurs. */
  lemma {:induction false} FilterCounts(t: seq<char>, codes: set<int>)
    ensures forall u :: multiset(FilterIn(t, codes))[u] == if Matches(codes, u) then multiset(t)[u] else 0
    ensures forall u :: multiset(FilterNotIn(t, codes))[u] == if Matches(codes, u) then 0 else multiset(t)[u]
  {
    if t != [] {
      FilterCounts(t[1..], codes);
      assert t == [t[0]] + t[1..];
    }
  }

  /** The filters preserve order: they distribute over concatenation. */
  lemma {:induction false} FilterInAppend(a: seq<char>, b: seq<char>, codes: set<int>)
    ensures FilterIn(a + b, codes) == FilterIn(a, codes) + FilterIn(b, codes)
  {
    if a == [] {
      assert a + b == b;
    } else {
      FilterInAppend(a[1..], b, codes);
      assert (a + b)[1..] == a[1..] + b;
      assert (a + b)[0] == a[0];
      var x := if Matches(codes, a[0]) then [a[0]] else [];
      Associative(x, FilterIn(a[1..], codes), FilterIn(b, codes));
    }
  }

  lemma {:induction false} FilterNotInAppend(a: seq<char>, b: seq<char>, codes: set<int>)
    ensures FilterNotIn(a + b, codes) == FilterNotIn(a, codes) + FilterNotIn(b, codes)
  {
    if a == [] {
      assert a + b == b;
    } else {
      FilterNotInAppend(a[1..], b, codes);
      assert (a + b)[1..] == a[1..] + b;
      assert (a + b)[0] == a[0];
      var y := if Matches(codes, a[0]) then [] else [a[0]];
      Associative(y, FilterNotIn(a[1..], codes), FilterNotIn(b, codes));
    }
  }

  // ---------------------------------------------------------------------------
  // `String.prototype.replace(str, "")` with a one-unit string, and the removal loop.

  /** Removes the first occurrence of `u`, or changes nothing when there is none. */
  function RemoveFirst(w: seq<char>, u: char): seq<char> {
    if w == [] then []
    else if w[0] == u then w[1..]
    else [w[0]] + RemoveFirst(w[1..], u)
  }

  /** `replace` leaves a text without the unit unchanged. */
  lemma {:induction false} RemoveFirstAbsent(w: seq<char>, u: char)
    requires u !in w
    ensures RemoveFirst(w, u) == w
  {
    if w != [] {
      RemoveFirstAbsent(w[1..], u);
      assert w == [w[0]] + w[1..];
    }
  }

  /** Otherwise it cuts out the unit at its first position. */
  lemma {:induction false} RemoveFirstCuts(w: seq<char>, u: char)
    requires u in w
    ensures RemoveFirst(w, u) == w[..IndexOf(w, u)] + w[IndexOf(w, u) + 1..]
  {
    if w[0] != u {
      var i := IndexOf(w[1..], u);
      RemoveFirstCuts(w[1..], u);
      assert w[..i + 1] == [w[0]] + w[1..][..i];
      assert w[i + 2..] == w[1..][i + 1..];
      Associative([w[0]], w[1..][..i], w[1..][i + 1..]);
    }
  }

  /** Either way, exactly one occurrence of the unit goes, if there is one. */
  lemma {:induction false} RemoveFirstCount(w: seq<char>, u: char)
    ensures multiset(RemoveFirst(w, u)) == multiset(w) - multiset{u}
  {
    if w != [] {
      assert w == [w[0]] + w[1..];
      if w[0] != u {
        RemoveFirstCount(w[1..], u);
        assert multiset(RemoveFirst(w, u)) == multiset{w[0]} + multiset(RemoveFirst(w[1..], u));
      }
    }
  }

  /** The loop `for (const str of matches) text = text.replace(str, "")`. */
  function RemoveAll(w: seq<char>, matches: seq<char>): seq<char>
    decreases |matches|
  {
    if matches == [] then w else RemoveAll(RemoveFirst(w, matches[0]), matches[1..])
  }

  /** No unit of `p` matches. */
  predicate NoneMatch(p: seq<char>, codes: set<int>) {
    p == [] || (!Matches(codes, p[0]) && NoneMatch(p[1..], codes))
  }

  lemma {:induction false} NoneMatchSnoc(p: seq<char>, u: char, codes: set<int>)
    requires NoneMatch(p, codes) && !Matches(codes, u)
    ensures NoneMatch(p + [u], codes)
  {
    if p != [] {
      NoneMatchSnoc(p[1..], u, codes);
      assert (p + [u])[1..] == p[1..] + [u];
    }
  }

  /** A unit of the class does not occur in a prefix of units outside it, so removal skips the prefix. */
  lemma {:induction false} RemoveFirstPastPrefix(p: seq<char>, t: seq<char>, codes: set<int>)
    requires NoneMatch(p, codes)
    requires t != [] && Matches(codes, t[0])
    ensures RemoveFirst(p + t, t[0]) == p + t[1..]
  {
    if p == [] {
      assert p + t == t && p + t[1..] == t[1..];
    } else {
      RemoveFirstPastPrefix(p[1..], t, codes);
      assert (p + t)[1..] == p[1..] + t;
      assert (p + t)[0] == p[0] != t[0];
      Associative([p[0]], p[1..], t[1..]);
      assert [p[0]] + p[1..] == p;
    }
  }

  lemma {:induction false} RemoveMatchesAfter(p: seq<char>, t: seq<char>, codes: set<int>)
    requires NoneMatch(p, codes)
    ensures RemoveAll(p + t, FilterIn(t, codes)) == p + FilterNotIn(t, codes)
    decreases |t|
  {
    if t == [] {
      assert p + t == p;
    } else if Matches(codes, t[0]) {
      RemoveMatchesMatching(p, t, codes);
    } else {
      RemoveMatchesOther(p, t, codes);
    }
  }

  lemma {:induction false} RemoveMatchesMatching(p: seq<char>, t: seq<char>, codes: set<int>)
    requires NoneMatch(p, codes)
    requires t != [] && Matches(codes, t[0])
    ensures RemoveAll(p + t, FilterIn(t, codes)) == p + FilterNotIn(t, codes)
    decreases |t|, 0
  {
    var f := FilterIn(t[1..], codes);
    RemoveFirstPastPrefix(p, t, codes);
    assert FilterIn(t, codes) == [t[0]] + f;
    assert ([t[0]] + f)[1..] == f;
    assert FilterNotIn(t, codes) == [] + FilterNotIn(t[1..], codes) == FilterNotIn(t[1..], codes);
    RemoveMatchesAfter(p, t[1..], codes);
  }

  lemma {:induction false} RemoveMatchesOther(p: seq<char>, t: seq<char>, codes: set<int>)
    requires NoneMatch(p, codes)
    requires t != [] && !Matches(codes, t[0])
    ensures RemoveAll(p + t, FilterIn(t, codes)) == p + FilterNotIn(t, codes)
    decreases |t|, 0
  {
    var g := FilterNotIn(t[1..], codes);
    NoneMatchSnoc(p, t[0], codes);
    Associative(p, [t[0]], t[1..]);
    assert [t[0]] + t[1..] == t;
    assert FilterIn(t, codes) == [] + FilterIn(t[1..], codes) == FilterIn(t[1..], codes);
    assert FilterNotIn(t, codes) == [t[0]] + g;
    RemoveMatchesAfter(p + [t[0]], t[1..], codes);
    Associative(p, [t[0]], g);
  }

  /**
   * Removing, one first occurrence at a time, every unit the filter picked leaves exactly the
   * units that do not match, in order.
   */
  lemma RemoveMatchesIsFilter(t: seq<char>, codes: set<int>)
    ensures RemoveAll(t, FilterIn(t, codes)) == FilterNotIn(t, codes)
  {
    RemoveMatchesAfter([], t, codes);
    assert [] + t == t;
  }

  /** The removal loop, run on the working copy of the text. */
  method RemoveEach(text: seq<char>, matches: seq<char>) returns (work: seq<char>)
    ensures work == RemoveAll(text, matches)
  {
    work := text;
    for i := 0 to |matches|
      invariant RemoveAll(text, matches) == RemoveAll(work, matches[i..])
    {
      assert matches[i..][1..] == matches[i + 1..];
      work := RemoveFirst(work, matches[i]);
    }
  }

  // ---------------------------------------------------------------------------
  // The partition and the two verdict rules.

  /** `match`'s verdict: "JA" on more Japanese than Chinese units, else "ZH" on any Chinese unit. */
  function StaticVerdict(ja: nat, zh: nat): (l: Lang)
    ensures l == JA <==> ja > zh
    ensures l == ZH <==> zh > 0 && zh >= ja
    ensures l == NoLang <==> ja == 0 && zh == 0
  {
    if ja > zh then JA else if zh != 0 then ZH else NoLang
  }

  /** The constructor's verdict: "ZH" on any Chinese unit, else "JA" on any Japanese unit. */
  function ConstructorVerdict(ja: nat, zh: nat): (l: Lang)
    ensures l == ZH <==> zh > 0
    ensures l == JA <==> zh == 0 && ja > 0
    ensures l == NoLang <==> ja == 0 && zh == 0
  {
    if zh != 0 then ZH else if ja != 0 then JA else NoLang
  }

  /** The two rules disagree exactly when some Chinese units remain but fewer than the Japanese ones. */
  lemma VerdictsDisagree(ja: nat, zh: nat)
    ensures StaticVerdict(ja, zh) != ConstructorVerdict(ja, zh) <==> 0 < zh < ja
    ensures StaticVerdict(ja, zh) != ConstructorVerdict(ja, zh)
            ==> StaticVerdict(ja, zh) == JA && ConstructorVerdict(ja, zh) == ZH
  {
  }

  /** The three-stage split both entry points compute, as filters, with the given verdict. */
  function Partition(text: string, ja: set<int>, zh: set<int>, lang: Lang): LangDetectionResult {
    var rest := FilterNotIn(text, ja);
    LangDetectionResult(lang, text, FilterIn(text, ja), FilterIn(rest, zh), FilterNotIn(rest, zh))
  }

  function StaticResult(text: string, ja: set<int>, zh: set<int>): (r: LangDetectionResult)
    ensures r.text == text
    ensures r.lang == StaticVerdict(|r.japaneseStrings|, |r.chineseStrings|)
  {
    var rest := FilterNotIn(text, ja);
    Partition(text, ja, zh, StaticVerdict(|FilterIn(text, ja)|, |FilterIn(rest, zh)|))
  }

  function ConstructorResult(text: string, ja: set<int>, zh: set<int>): (r: LangDetectionResult)
    ensures r.text == text
    ensures r.lang == ConstructorVerdict(|r.japaneseStrings|, |r.chineseStrings|)
  {
    var rest := FilterNotIn(text, ja);
    Partition(text, ja, zh, ConstructorVerdict(|FilterIn(text, ja)|, |FilterIn(rest, zh)|))
  }

  /**
   * Every unit lands in exactly one list, as often as it occurs: a Japanese one in
   * `japaneseStrings` (also when the Chinese class matches it), a Chinese-only one in
   * `chineseStrings`, any other in `otherStrings`.
   */
  lemma PartitionPlaces(text: string, ja: set<int>, zh: set<int>, lang: Lang)
    ensures var r := Partition(text, ja, zh, lang);
      && (forall u :: multiset(r.japaneseStrings)[u] == if Matches(ja, u) then multiset(text)[u] else 0)
      && (forall u :: multiset(r.chineseStrings)[u] == if !Matches(ja, u) && Matches(zh, u) then multiset(text)[u] else 0)
      && (forall u :: multiset(r.otherStrings)[u] == if !Matches(ja, u) && !Matches(zh, u) then multiset(text)[u] else 0)
  {
    FilterCounts(text, ja);
    FilterCounts(FilterNotIn(text, ja), zh);
  }

  /** So the three lists together are the text rearranged, and their lengths add up to its length. */
  lemma PartitionCounts(text: string, ja: set<int>, zh: set<int>, lang: Lang)
    ensures var r := Partition(text, ja, zh, lang);
      && multiset(r.japaneseStrings) + multiset(r.chineseStrings) + multiset(r.otherStrings) == multiset(text)
      && |r.japaneseStrings| + |r.chineseStrings| + |r.otherStrings| == |text|
  {
    var r := Partition(text, ja, zh, lang);
    PartitionMultiset(text, ja, zh, lang);
    assert |multiset(r.japaneseStrings) + multiset(r.chineseStrings) + multiset(r.otherStrings)|
        == |r.japaneseStrings| + |r.chineseStrings| + |r.otherStrings|;
  }

  lemma PartitionMultiset(text: string, ja: set<int>, zh: set<int>, lang: Lang)
    ensures var r := Partition(text, ja, zh, lang);
      multiset(r.japaneseStrings) + multiset(r.chineseStrings) + multiset(r.otherStrings) == multiset(text)
  {
    var r := Partition(text, ja, zh, lang);
    var m := multiset(r.japaneseStrings) + multiset(r.chineseStrings) + multiset(r.otherStrings);
    PartitionPlaces(text, ja, zh, lang);
    forall u
      ensures m[u] == multiset(text)[u]
    {
    }
  }

  /** A unit both classes match is Japanese only. */
  lemma OverlapIsJapanese(text: string, ja: set<int>, zh: set<int>, lang: Lang, u: char)
    requires u in text && Matches(ja, u) && Matches(zh, u)
    ensures var r := Partition(text, ja, zh, lang);
      u in r.japaneseStrings && u !in r.chineseStrings && u !in r.otherStrings
  {
    PartitionPlaces(text, ja, zh, lang);
    var r := Partition(text, ja, zh, lang);
    assert multiset(r.japaneseStrings)[u] > 0;
  }

  // ---------------------------------------------------------------------------
  // The repository's test texts, under the class memberships the tests imply.

  /** One matching unit in front: the filters split it off. */
  lemma FilterCons(u: char, t: seq<char>, codes: set<int>)
    ensures FilterIn([u] + t, codes) == (if Matches(codes, u) then [u] else []) + FilterIn(t, codes)
    ensures FilterNotIn([u] + t, codes) == (if Matches(codes, u) then [] else [u]) + FilterNotIn(t, codes)
  {
    assert ([u] + t)[1..] == t;
  }

  /** "再见": one Japanese and one Chinese unit; the tie goes to "ZH" under both rules. */
  lemma ZaiJian(ja: set<int>, zh: set<int>)
    requires Matches(ja, '再') && !Matches(ja, '见') && Matches(zh, '见')
    ensures StaticResult("再见", ja, zh) == LangDetectionResult(ZH, "再见", "再", "见", [])
    ensures ConstructorResult("再见", ja, zh).lang == ZH
  {
    FilterCons('再', "见", ja);
    FilterCons('见', [], ja);
    FilterCons('见', [], zh);
  }

  /** The Japanese stage on "こんにちは。你好": five kana and 好 match, 。 and 你 remain. */
  lemma GreetingJapanese(ja: set<int>)
    requires KanaBlocks <= ja
    requires Matches(ja, '好') && !Matches(ja, '你') && !Matches(ja, '。')
    ensures FilterIn("こんにちは。你好", ja) == "こんにちは好"
    ensures FilterNotIn("こんにちは。你好", ja) == "。你"
  {
    assert "こんにちは。你好" == "こんにちは" + "。你好";
    KanaGreeting(ja);
    GreetingTail(ja);
    FilterInAppend("こんにちは", "。你好", ja);
    FilterNotInAppend("こんにちは", "。你好", ja);
    assert "こんにちは" + "好" == "こんにちは好";
    assert [] + "。你" == "。你";
  }

  lemma KanaGreeting(ja: set<int>)
    requires KanaBlocks <= ja
    ensures FilterIn("こんにちは", ja) == "こんにちは" && FilterNotIn("こんにちは", ja) == []
  {
    assert 'こ' as int in Hiragana && 'ん' as int in Hiragana && 'に' as int in Hiragana;
    assert 'ち' as int in Hiragana && 'は' as int in Hiragana;
    assert "ちは" == ['ち'] + "は";
    assert "にちは" == ['に'] + "ちは";
    assert "んにちは" == ['ん'] + "にちは";
    assert "こんにちは" == ['こ'] + "んにちは";
    FilterCons('は', [], ja);
    FilterCons('ち', "は", ja);
    FilterCons('に', "ちは", ja);
    FilterCons('ん', "にちは", ja);
    FilterCons('こ', "んにちは", ja);
  }

  lemma GreetingTail(ja: set<int>)
    requires Matches(ja, '好') && !Matches(ja, '你') && !Matches(ja, '。')
    ensures FilterIn("。你好", ja) == "好" && FilterNotIn("。你好", ja) == "。你"
  {
    FilterCons('。', "你好", ja);
    FilterCons('你', "好", ja);
    FilterCons('好', [], ja);
  }

  /**
   * "こんにちは。你好" with 你 Chinese and 。 in neither class: `match` says "JA" (six
   * Japanese units against one Chinese unit) where the constructor says "ZH".
   */
  lemma GreetingVerdicts(ja: set<int>, zh: set<int>)
    requires KanaBlocks <= ja
    requires Matches(ja, '好') && !Matches(ja, '你') && Matches(zh, '你')
    requires !Matches(ja, '。') && !Matches(zh, '。')
    ensures StaticResult("こんにちは。你好", ja, zh)
         == LangDetectionResult(JA, "こんにちは。你好", "こんにちは好", "你", "。")
    ensures ConstructorResult("こんにちは。你好", ja, zh).lang == ZH
  {
    GreetingJapanese(ja);
    FilterCons('。', "你", zh);
    FilterCons('你', [], zh);
  }

  /** Without a unit of either class (as in "hello"), both verdicts are "" and every unit is "other". */
  lemma Unmatched(text: string, ja: set<int>, zh: set<int>)
    requires NoneMatch(text, ja) && NoneMatch(text, zh)
    ensures StaticResult(text, ja, zh) == LangDetectionResult(NoLang, text, [], [], text)
    ensures ConstructorResult(text, ja, zh) == StaticResult(text, ja, zh)
  {
    FilterNone(text, ja);
    FilterNone(text, zh);
  }

  lemma {:induction false} FilterNone(t: seq<char>, codes: set<int>)
    requires NoneMatch(t, codes)
    ensures FilterIn(t, codes) == [] && FilterNotIn(t, codes) == t
  {
    if t != [] {
      FilterNone(t[1..], codes);
      assert [t[0]] + t[1..] == t;
    }
  }

  /** "谢谢": two Chinese units and no Japanese one. */
  lemma XieXie(ja: set<int>, zh: set<int>)
    requires !Matches(ja, '谢') && Matches(zh, '谢')
    ensures StaticResult("谢谢", ja, zh) == LangDetectionResult(ZH, "谢谢", [], "谢谢", [])
    ensures ConstructorResult("谢谢", ja, zh) == StaticResult("谢谢", ja, zh)
  {
    FilterCons('谢', "谢", ja);
    FilterCons('谢', [], ja);
    FilterCons('谢', "谢", zh);
    FilterCons('谢', [], zh);
  }

  /**
   * "不知道": every unit is Japanese, so `match` finds no Chinese unit, although the Chinese
   * class matches 不 and `hasChineseCharacters` is true.
   */
  lemma BuZhiDao(ja: set<int>, zh: set<int>)
    requires Matches(ja, '不') && Matches(ja, '知') && Matches(ja, '道') && Matches(zh, '不')
    ensures Test(zh, "不知道")
    ensures StaticResult("不知道", ja, zh) == LangDetectionResult(JA, "不知道", "不知道", [], [])
  {
    FilterCons('不', "知道", ja);
    FilterCons('知', "道", ja);
    FilterCons('道', [], ja);
  }

  // ---------------------------------------------------------------------------
  // `detectChineseStatic`: the two classes are its (static) fields.

  class DetectChineseStatic {
    /** `zhRegExp` and `jaRegExp`, as the code points they match. */
    var zhCodes: set<int>
    var jaCodes: set<int>

    /** Before `init`, both classes are the empty class `[]`. */
    constructor()
      ensures zhCodes == {} && jaCodes == {}
    {
      zhCodes := {};
      jaCodes := {};
    }

    /** `init`: the loaded Chinese set, and the loaded Japanese set plus the kana blocks. */
    method Init(zhLoaded: set<int>, jaLoaded: set<int>)
      modifies this
      ensures zhCodes == zhLoaded && jaCodes == jaLoaded + KanaBlocks
    {
      zhCodes := zhLoaded;
      jaCodes := jaLoaded + Hiragana + Katakana;
    }

    /** Some unit of the whole text is in the Chinese class; nothing is removed first. */
    function HasChineseCharacters(text: string): (b: bool)
      reads this
      ensures b <==> exists i :: 0 <= i < |text| && Matches(zhCodes, text[i])
    {
      TestFindsUnit(zhCodes, text);
      Test(zhCodes, text)
    }

    function HasJapaneseCharacters(text: string): (b: bool)
      reads this
      ensures b <==> exists i :: 0 <= i < |text| && Matches(jaCodes, text[i])
    {
      TestFindsUnit(jaCodes, text);
      Test(jaCodes, text)
    }

    /** `#getChineseCharacters`: each Chinese unit, as often as it occurs, in order. */
    function GetChineseCharacters(text: string): (r: seq<char>)
      reads this
      ensures forall u :: multiset(r)[u] == if Matches(zhCodes, u) then multiset(text)[u] else 0
    {
      FilterCounts(text, zhCodes);
      FilterIn(text, zhCodes)
    }

    function GetJapaneseCharacters(text: string): (r: seq<char>)
      reads this
      ensures forall u :: multiset(r)[u] == if Matches(jaCodes, u) then multiset(text)[u] else 0
    {
      FilterCounts(text, jaCodes);
      FilterIn(text, jaCodes)
    }

    /** `match`: the removal loops give the filter partition, with the count-based verdict. */
    method Match(text: string) returns (result: LangDetectionResult)
      ensures result == StaticResult(text, jaCodes, zhCodes)
    {
      result := LangDetectionResult(JA, text, [], [], []);
      var work := text;
      var jaMatch := GetJapaneseCharacters(work);
      result := result.(japaneseStrings := jaMatch);
      if |jaMatch| > 0 {
        work := RemoveEach(work, jaMatch);
      }
      RemoveMatchesIsFilter(text, jaCodes);
      var zhMatch := GetChineseCharacters(work);
      result := result.(chineseStrings := zhMatch);
      if |zhMatch| > 0 {
        work := RemoveEach(work, zhMatch);
      }
      RemoveMatchesIsFilter(FilterNotIn(text, jaCodes), zhCodes);
      result := result.(otherStrings := work);
      result := result.(lang := if |jaMatch| > |zhMatch| then JA else if |zhMatch| != 0 then ZH else NoLang);
    }

    /** `isChineseSentence`: at least one Chinese unit, and at least as many as Japanese ones. */
    method IsChineseSentence(text: string) returns (b: bool)
      ensures b <==> var r := StaticResult(text, jaCodes, zhCodes);
                     |r.chineseStrings| > 0 && |r.chineseStrings| >= |r.japaneseStrings|
    {
      var r := Match(text);
      b := r.lang == ZH;
    }

    /** `isJapaneseSentence`: more Japanese units than Chinese ones. */
    method IsJapaneseSentence(text: string) returns (b: bool)
      ensures b <==> var r := StaticResult(text, jaCodes, zhCodes);
                     |r.japaneseStrings| > |r.chineseStrings|
    {
      var r := Match(text);
      b := r.lang == JA;
    }
  }

  // ---------------------------------------------------------------------------
  // `detectChinese`: one object per text, reading the classes of the shared matcher.

  class DetectChinese {
    var hasChineseCharacters: bool
    var hasJapaneseCharacters: bool
    var isChineseSentence: bool
    var isJapaneseSentence: bool
    var chineseCharacters: seq<char>
    var japaneseCharacters: seq<char>
    var result: LangDetectionResult

    /**
     * With `init`, first (re)loads the shared classes; then the same partition as `match`,
     * with the constructor's verdict, and the flags derived from the partition.
     */
    constructor(text: string, init: bool, matcher: DetectChineseStatic, zhLoaded: set<int>, jaLoaded: set<int>)
      modifies matcher
      ensures init ==> matcher.zhCodes == zhLoaded && matcher.jaCodes == jaLoaded + KanaBlocks
      ensures !init ==> matcher.zhCodes == old(matcher.zhCodes) && matcher.jaCodes == old(matcher.jaCodes)
      ensures result == ConstructorResult(text, matcher.jaCodes, matcher.zhCodes)
      ensures hasChineseCharacters <==> |result.chineseStrings| > 0
      ensures hasJapaneseCharacters <==> |result.japaneseStrings| > 0
      ensures isChineseSentence <==> result.lang == ZH
      ensures isJapaneseSentence <==> result.lang == JA
      ensures chineseCharacters == result.chineseStrings && japaneseCharacters == result.japaneseStrings
    {
      if init {
        matcher.Init(zhLoaded, jaLoaded);
      }
      var ja, zh := matcher.jaCodes, matcher.zhCodes;
      var r := LangDetectionResult(JA, text, [], [], []);
      var work := text;
      var jaMatch := FilterIn(work, ja);
      r := r.(japaneseStrings := jaMatch);
      if |jaMatch| > 0 {
        work := RemoveEach(work, jaMatch);
      }
      RemoveMatchesIsFilter(text, ja);
      var zhMatch := FilterIn(work, zh);
      r := r.(chineseStrings := zhMatch);
      if |zhMatch| > 0 {
        r := r.(lang := ZH);
        work := RemoveEach(work, zhMatch);
      }
      RemoveMatchesIsFilter(FilterNotIn(text, ja), zh);
      r := r.(otherStrings := work);
      r := r.(lang := if |zhMatch| != 0 then ZH else if |jaMatch| != 0 then JA else NoLang);
      hasChineseCharacters := |r.chineseStrings| != 0;
      hasJapaneseCharacters := |r.japaneseStrings| != 0;
      isChineseSentence := r.lang == ZH;
      isJapaneseSentence := r.lang == JA;
      chineseCharacters := r.chineseStrings;
      japaneseCharacters := r.japaneseStrings;
      result := r;
    }
  }
}
