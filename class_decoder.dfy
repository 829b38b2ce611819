/**
 * Decoders for the character-class bodies the range compressor writes, used to state
 * what a compressed source denotes.
 *
 * Both read a sequence of atoms, each a `\u` escape, where an atom followed by `-` and a
 * second atom is the inclusive range between them. They differ in the fixed-width form:
 * - lenient (`strict == false`): `\u` is followed by hex digits up to the next `\`, `-`
 *   or the end of the text, so `\u41` reads as U+0041;
 * - strict (`strict == true`): the form the `u` flag of ECMA-262 section 22.2.1
 *   ("Patterns") admits, exactly four hex digits after `\u` or `\u{` hex digits `}`
 *   of value at most 0x10FFFF; `\u41` is a syntax error there.
 * Only the escape atoms and ranges the compressor emits are covered. In particular the strict
 * decoder reads every `\uHHHH` on its own, whereas under the `u` flag a lead surrogate
 * escape followed by a trail surrogate escape is one code point; so the strict reading is
 * only claimed for Unicode scalar values (`ScalarValue`), where no surrogate escape occurs.
 */
module ClassDecoder {
  import opened Wrappers
  import opened Hex
  import opened Text
  import opened RegExpSource

  /** The first index from `i` on holding a character of `stops`, or `|s|`. */
  function FindFrom(s: string, i: nat, stops: set<char>): (k: nat)
    requires i <= |s|
    ensures i <= k <= |s|
    ensures forall j :: i <= j < k ==> s[j] !in stops
    ensures k < |s| ==> s[k] in stops
    decreases |s| - i
  {
    if i == |s| || s[i] in stops then i else FindFrom(s, i + 1, stops)
  }

  /** One escape at the start of `s`: its code point and the number of characters it takes. */
  function ParseEscape(s: string, strict: bool): (r: Option<(nat, nat)>)
    ensures r.Some? ==> 1 <= r.value.1 <= |s|
  {
    if |s| >= 3 && s[0] == '\\' && s[1] == 'u' && s[2] == '{' then
      var k := FindFrom(s, 3, {'}'});
      if k < |s| && k > 3 && AllHexDigits(s[3..k]) && (!strict || ParseHex(s[3..k]) <= 0x10FFFF)
      then Some((ParseHex(s[3..k]), k + 1))
      else None
    else if |s| >= 2 && s[0] == '\\' && s[1] == 'u' then
      if strict then
        if |s| >= 6 && AllHexDigits(s[2..6]) then Some((ParseHex(s[2..6]), 6)) else None
      else
        var k := FindFrom(s, 2, {'\\', '-'});
        if k > 2 && AllHexDigits(s[2..k]) then Some((ParseHex(s[2..k]), k)) else None
    else None
  }

  /**
   * One class item at the start of `s`: an escape, or a range `a-b` of two escapes with
   * `a <= b`; its code points and the number of characters it takes.
   */
  function ParseItem(s: string, strict: bool): (r: Option<(seq<nat>, nat)>)
    ensures r.Some? ==> 1 <= r.value.1 <= |s|
  {
    match ParseEscape(s, strict)
    case None => None
    case Some((a, n)) =>
      if n < |s| && s[n] == '-' then
        match ParseEscape(s[n + 1..], strict)
        case None => None
        case Some((b, m)) => if a <= b then Some((Span(a, b), n + 1 + m)) else None
      else Some(([a], n))
  }

  /** The code points a class body denotes, in the order written; `None` if it is malformed. */
  function DecodeClass(s: string, strict: bool): Option<seq<nat>>
    decreases |s|
  {
    if s == [] then Some([])
    else
      match ParseItem(s, strict)
      case None => None
      case Some((items, n)) =>
        match DecodeClass(s[n..], strict)
        case None => None
        case Some(tail) => Some(items + tail)
  }

  /** Whatever follows an emitted escape: nothing, the next escape or a range dash. */
  predicate Delimited(t: string) {
    t == [] || t[0] == '\\' || t[0] == '-'
  }

  /** A Unicode scalar value: a code point that is not a surrogate. */
  predicate ScalarValue(c: nat) {
    c <= 0x10FFFF && !(0xD800 <= c <= 0xDFFF)
  }

  /** The strict reading is only claimed for padded escapes of scalar values. */
  predicate Admissible(c: nat, padded: bool, strict: bool) {
    strict ==> padded && ScalarValue(c)
  }

  /** Every escape the compressor writes reads back as its code point and ends where it should. */
  lemma ParseEmittedEscape(c: nat, padded: bool, strict: bool, t: string)
    requires Delimited(t) && Admissible(c, padded, strict)
    ensures ParseEscape(ToCodeString(c, padded) + t, strict)
         == Some((c, |ToCodeString(c, padded)|))
  {
    var h := HexForm(c, padded);
    var e := ToCodeString(c, padded);
    var s := e + t;
    if |h| > 4 {
      assert e == "\\u{" + h + "}";
      assert s[2] == '{';
      var k := 3 + |h|;
      assert s[3..k] == h;
      assert s[k] == '}';
      assert forall j :: 3 <= j < k ==> s[j] == h[j - 3];
      assert FindFrom(s, 3, {'}'}) == k;
    } else {
      assert e == "\\u" + h;
      assert s[2] == h[0];
      if strict {
        assert |h| == 4;
        assert s[2..6] == h;
      } else {
        var k := 2 + |h|;
        assert s[2..k] == h;
        assert forall j :: 2 <= j < k ==> s[j] == h[j - 2];
        assert k < |s| ==> s[k] == t[0];
        assert FindFrom(s, 2, {'\\', '-'}) == k;
      }
    }
  }

  lemma AfterPrefix(a: string, t: string)
    ensures (a + t)[|a|..] == t
  {
  }

  lemma AfterDash(a: string, t: string)
    ensures |a + (['-'] + t)| > |a| && (a + (['-'] + t))[|a|] == '-'
    ensures (a + (['-'] + t))[|a| + 1..] == t
  {
  }

  lemma AfterDashEscape(a: string, b: string, t: string)
    ensures (a + (['-'] + (b + t)))[|a| + 1 + |b|..] == t
  {
    var s := a + (['-'] + (b + t));
    assert |s| == |a| + 1 + |b| + |t|;
    forall i | 0 <= i < |t|
      ensures s[|a| + 1 + |b| + i] == t[i]
    {
    }
  }

  /** One decoding step over one item. */
  lemma DecodeStep(s: string, strict: bool, items: seq<nat>, n: nat, tail: seq<nat>)
    requires s != [] && ParseItem(s, strict) == Some((items, n))
    requires DecodeClass(s[n..], strict) == Some(tail)
    ensures DecodeClass(s, strict) == Some(items + tail)
  {
  }

  /** One escape followed by more escapes decodes to its code point first. */
  lemma DecodeAtom(c: nat, padded: bool, strict: bool, t: string, tail: seq<nat>)
    requires t == [] || t[0] == '\\'
    requires DecodeClass(t, strict) == Some(tail)
    requires Admissible(c, padded, strict)
    ensures DecodeClass(ToCodeString(c, padded) + t, strict) == Some([c] + tail)
  {
    var e := ToCodeString(c, padded);
    ParseEmittedEscape(c, padded, strict, t);
    DecodeAtomText(e, c, strict, t, tail);
  }

  lemma DecodeAtomText(e: string, c: nat, strict: bool, t: string, tail: seq<nat>)
    requires e != [] && ParseEscape(e + t, strict) == Some((c, |e|))
    requires t == [] || t[0] == '\\'
    requires DecodeClass(t, strict) == Some(tail)
    ensures DecodeClass(e + t, strict) == Some([c] + tail)
  {
    AfterPrefix(e, t);
    assert ParseItem(e + t, strict) == Some(([c], |e|));
    DecodeStep(e + t, strict, [c], |e|, tail);
  }

  /** `lo-hi` followed by more escapes decodes to the range first. */
  lemma DecodeRange(lo: nat, hi: nat, padded: bool, strict: bool, t: string, tail: seq<nat>)
    requires lo <= hi
    requires t == [] || t[0] == '\\'
    requires DecodeClass(t, strict) == Some(tail)
    requires Admissible(lo, padded, strict) && Admissible(hi, padded, strict)
    ensures DecodeClass(ToCodeString(lo, padded) + (['-'] + (ToCodeString(hi, padded) + t)), strict)
         == Some(Span(lo, hi) + tail)
  {
    var a := ToCodeString(lo, padded);
    var b := ToCodeString(hi, padded);
    ParseEmittedEscape(lo, padded, strict, ['-'] + (b + t));
    ParseEmittedEscape(hi, padded, strict, t);
    DecodeRangeText(a + (['-'] + (b + t)), a, b, t, lo, hi, strict, tail);
  }

  lemma DecodeRangeText(s: string, a: string, b: string, t: string, lo: nat, hi: nat, strict: bool, tail: seq<nat>)
    requires s == a + (['-'] + (b + t))
    requires a != [] && ParseEscape(s, strict) == Some((lo, |a|))
    requires ParseEscape(b + t, strict) == Some((hi, |b|))
    requires lo <= hi
    requires DecodeClass(t, strict) == Some(tail)
    ensures DecodeClass(s, strict) == Some(Span(lo, hi) + tail)
  {
    ParseRangeItem(s, a, b, t, lo, hi, strict);
    AfterDashEscape(a, b, t);
    DecodeStep(s, strict, Span(lo, hi), |a| + 1 + |b|, tail);
  }

  lemma ParseRangeItem(s: string, a: string, b: string, t: string, lo: nat, hi: nat, strict: bool)
    requires s == a + (['-'] + (b + t))
    requires ParseEscape(s, strict) == Some((lo, |a|))
    requires ParseEscape(b + t, strict) == Some((hi, |b|))
    requires lo <= hi
    ensures ParseItem(s, strict) == Some((Span(lo, hi), |a| + 1 + |b|))
  {
    AfterDash(a, b + t);
  }

  lemma DecodeFlushSingle(run: Run, padded: bool, strict: bool, t: string, tail: seq<nat>)
    requires run.lo == run.hi
    requires t == [] || t[0] == '\\'
    requires DecodeClass(t, strict) == Some(tail)
    requires Admissible(run.lo, padded, strict)
    ensures DecodeClass(Flush(run, padded) + t, strict) == Some(Span(run.lo, run.hi) + tail)
  {
    FlushSingleText(run, padded);
    DecodeAtom(run.lo, padded, strict, t, tail);
    SpanOfOne(run);
  }

  lemma FlushSingleText(run: Run, padded: bool)
    requires run.lo == run.hi
    ensures Flush(run, padded) == ToCodeString(run.lo, padded)
  {
  }

  lemma SpanOfOne(run: Run)
    requires run.lo == run.hi
    ensures Span(run.lo, run.hi) == [run.lo]
  {
  }

  lemma DecodeFlushPair(run: Run, padded: bool, strict: bool, t: string, tail: seq<nat>)
    requires run.hi == run.lo + 1
    requires t == [] || t[0] == '\\'
    requires DecodeClass(t, strict) == Some(tail)
    requires Admissible(run.lo, padded, strict) && Admissible(run.hi, padded, strict)
    ensures DecodeClass(Flush(run, padded) + t, strict) == Some(Span(run.lo, run.hi) + tail)
  {
    FlushPairText(run, padded, t);
    DecodeAtom(run.hi, padded, strict, t, tail);
    BackslashFirst(run.hi, padded, t);
    DecodeAtom(run.lo, padded, strict, ToCodeString(run.hi, padded) + t, [run.hi] + tail);
    SpanOfTwo(run, tail);
  }

  lemma FlushPairText(run: Run, padded: bool, t: string)
    requires run.hi == run.lo + 1
    ensures Flush(run, padded) + t == ToCodeString(run.lo, padded) + (ToCodeString(run.hi, padded) + t)
  {
    var a := ToCodeString(run.lo, padded);
    var b := ToCodeString(run.hi, padded);
    assert Flush(run, padded) == a + ("" + b);
    assert "" + b == b;
    Associative(a, b, t);
  }

  lemma BackslashFirst(c: nat, padded: bool, t: string)
    ensures (ToCodeString(c, padded) + t)[0] == '\\'
  {
  }

  lemma SpanOfTwo(run: Run, tail: seq<nat>)
    requires run.hi == run.lo + 1
    ensures Span(run.lo, run.hi) + tail == [run.lo] + ([run.hi] + tail)
  {
    assert Span(run.lo, run.hi) == [run.lo, run.hi];
  }

  lemma DecodeFlushLong(run: Run, padded: bool, strict: bool, t: string, tail: seq<nat>)
    requires run.hi - run.lo >= 2
    requires t == [] || t[0] == '\\'
    requires DecodeClass(t, strict) == Some(tail)
    requires Admissible(run.lo, padded, strict) && Admissible(run.hi, padded, strict)
    ensures DecodeClass(Flush(run, padded) + t, strict) == Some(Span(run.lo, run.hi) + tail)
  {
    FlushLongText(run, padded, t);
    DecodeRange(run.lo, run.hi, padded, strict, t, tail);
  }

  lemma FlushLongText(run: Run, padded: bool, t: string)
    requires run.hi - run.lo >= 2
    ensures Flush(run, padded) + t
         == ToCodeString(run.lo, padded) + (['-'] + (ToCodeString(run.hi, padded) + t))
  {
    var a := ToCodeString(run.lo, padded);
    var b := ToCodeString(run.hi, padded);
    assert Flush(run, padded) == a + ("-" + b);
    Associative(a, "-" + b, t);
    Associative("-", b, t);
  }

  /** Decoding one flushed run followed by more escapes yields the run's range first. */
  lemma DecodeFlush(run: Run, padded: bool, strict: bool, t: string, tail: seq<nat>)
    requires run.lo <= run.hi
    requires t == [] || t[0] == '\\'
    requires DecodeClass(t, strict) == Some(tail)
    requires Admissible(run.lo, padded, strict) && Admissible(run.hi, padded, strict)
    ensures DecodeClass(Flush(run, padded) + t, strict) == Some(Span(run.lo, run.hi) + tail)
  {
    if run.lo == run.hi {
      DecodeFlushSingle(run, padded, strict, t, tail);
    } else if run.hi == run.lo + 1 {
      DecodeFlushPair(run, padded, strict, t, tail);
    } else {
      DecodeFlushLong(run, padded, strict, t, tail);
    }
  }

  lemma {:induction false} DecodeEmit(runs: seq<Run>, padded: bool, strict: bool)
    requires ProperRuns(runs)
    requires forall i :: 0 <= i < |runs| ==> Admissible(runs[i].lo, padded, strict) && Admissible(runs[i].hi, padded, strict)
    ensures DecodeClass(Emit(runs, padded), strict) == Some(Expand(runs))
  {
    if runs != [] {
      DecodeEmit(runs[1..], padded, strict);
      var t := Emit(runs[1..], padded);
      assert t == [] || t[0] == '\\' by {
        if runs[1..] != [] {
          var r := runs[1..][0];
          assert t == Flush(r, padded) + Emit(runs[2..], padded) by {
            assert runs[1..][1..] == runs[2..];
          }
        }
      }
      DecodeFlush(runs[0], padded, strict, t, Expand(runs[1..]));
    }
  }

  /**
   * The compressed source decodes to exactly the code points it was made from, in the
   * same order, whatever the list (for strictly ascending input: exactly the set, ascending).
   */
  lemma RoundTrip(arr: seq<nat>)
    ensures DecodeClass(GenerateRegExpSource(arr), false) == Some(arr)
  {
    GenerateFollowsRuns(arr, false);
    MaximalRunsProperties(arr);
    DecodeEmit(MaximalRuns(arr), false, false);
  }

  /**
   * As written, a code point below U+1000 becomes an escape of fewer than four digits,
   * which the `u` flag rejects although the lenient reading accepts it.
   */
  lemma ShortEscapeRejected(c: nat)
    requires c < 0x1000
    ensures DecodeClass(GenerateRegExpSource([c]), false) == Some([c])
    ensures DecodeClass(GenerateRegExpSource([c]), true) == None
  {
    RoundTrip([c]);
    SingleValue(c);
    ToCodeStringForm(c);
    var s := ToCodeString(c, false);
    assert s[2] == ToHex(c)[0];
  }

  /** With padded escapes, the strict (`u` flag) reading gives back exactly a list of scalar values. */
  lemma PaddedRoundTripStrict(arr: seq<nat>)
    requires forall i :: 0 <= i < |arr| ==> ScalarValue(arr[i])
    ensures DecodeClass(GenerateRegExpSourcePadded(arr), true) == Some(arr)
  {
    GenerateFollowsRuns(arr, true);
    MaximalRunsProperties(arr);
    var runs := MaximalRuns(arr);
    forall i | 0 <= i < |runs|
      ensures Admissible(runs[i].lo, true, true) && Admissible(runs[i].hi, true, true)
    {
      assert runs[i].lo in arr && runs[i].hi in arr;
    }
    DecodeEmit(runs, true, true);
  }
}
