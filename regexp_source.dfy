/**
 * The range compressor of setup/setup.ts: `toCodeString`, `buildCode` and the
 * `reduce` fold of `generateRegExpSource`, which turns a list of code points into
 * the body of a regular-expression character class.
 *
 * The flag `padded` selects between the escape as the source writes it
 * (`padded == false`: `\u` followed by the unpadded hex digits) and the corrected
 * escape (`padded == true`: at least four digits), see README "## Findings".
 */
module RegExpSource {
  import opened Text
  import opened Hex
  import opened Sorting

  /** The accumulator of the fold: source built so far, start and end of the open run (-1: none yet). */
  datatype FoldState = FoldState(built: string, runStart: int, runEnd: int)

  const Initial: FoldState := FoldState("", -1, -1)

  predicate HasRun(st: FoldState) {
    st.runStart >= 0 && st.runEnd >= 0
  }

  /** Either the initial "no run" marker or an open run, given by its first and last code point. */
  predicate WellFormed(st: FoldState) {
    st.runStart < 0 || HasRun(st)
  }

  /** The digits of one escape. */
  function HexForm(input: nat, padded: bool): (h: string)
    ensures AllLowerHexDigits(h) && AllHexDigits(h) && ParseHex(h) == input
    ensures |h| >= 1 && (padded ==> |h| >= 4)
    ensures |h| > 4 <==> input >= 0x10000
  {
    HexAboveFourDigits(input);
    if padded then Pad4(ToHex(input)) else ToHex(input)
  }

  /** `toCodeString`: one code point as a `\u` escape. */
  function ToCodeString(input: nat, padded: bool): (r: string)
    ensures |r| >= 3 && r[0] == '\\' && r[1] == 'u'
  {
    var str := HexForm(input, padded);
    if |str| > 4 then "\\u{" + str + "}" else "\\u" + str
  }

  /** An escape holds no dash and no backslash after its first character. */
  lemma NoDelimiterInside(input: nat, padded: bool)
    ensures '-' !in ToCodeString(input, padded)
    ensures '\\' !in ToCodeString(input, padded)[1..]
  {
  }

  /**
   * The escape has the braces form exactly for code points from U+10000 on; below,
   * the source writes `\u` and the hex digits without padding.
   */
  lemma ToCodeStringForm(input: nat)
    ensures input >= 0x10000 ==> ToCodeString(input, false) == "\\u{" + ToHex(input) + "}"
    ensures input < 0x10000 ==> ToCodeString(input, false) == "\\u" + ToHex(input)
    ensures input < 0x1000 ==> |ToCodeString(input, false)| < 6
  {
    if input < 0x1000 {
      ToHexLength(input, 3);
      assert Pow16(3) == 0x1000;
    }
  }

  /**
   * The escapes `buildCode` writes for the run `[lo, hi]`: one escape for a lone
   * value, two adjacent escapes for two consecutive values, `lo-hi` otherwise.
   */
  function RunCode(lo: nat, hi: nat, padded: bool): string {
    if lo == hi then ToCodeString(lo, padded)
    else ToCodeString(lo, padded) + ((if hi - lo == 1 then "" else "-") + ToCodeString(hi, padded))
  }

  /** `buildCode`: appends the run `[runStart, runEnd]` to `built`. */
  function BuildCode(st: FoldState, padded: bool): string
    requires HasRun(st)
  {
    st.built + RunCode(st.runStart, st.runEnd, padded)
  }

  /** The callback given to `reduce`. */
  function Step(st: FoldState, currentCode: nat, padded: bool): (r: FoldState)
    requires WellFormed(st)
    ensures HasRun(r)
  {
    if st.runStart < 0 then FoldState(st.built, currentCode, currentCode)
    else if currentCode - st.runEnd == 1 then FoldState(st.built, st.runStart, currentCode)
    else FoldState(BuildCode(st, padded), currentCode, currentCode)
  }

  /** `Array.prototype.reduce`, a left fold. */
  function Reduce(st: FoldState, arr: seq<nat>, padded: bool): (r: FoldState)
    requires WellFormed(st)
    ensures arr == [] ==> r == st
    ensures arr != [] ==> HasRun(r)
    decreases |arr|
  {
    if arr == [] then st else Reduce(Step(st, arr[0], padded), arr[1..], padded)
  }

  function Generate(arr: seq<nat>, padded: bool): string {
    var sum := Reduce(Initial, arr, padded);
    if sum.runStart == -1 then "" else BuildCode(sum, padded)
  }

  /** `generateRegExpSource` as written; only the empty list gives the empty source. */
  function GenerateRegExpSource(arr: seq<nat>): (r: string)
    ensures r == "" <==> arr == []
  {
    Generate(arr, false)
  }

  /** `generateRegExpSource` with every fixed-width escape padded to four digits. */
  function GenerateRegExpSourcePadded(arr: seq<nat>): (r: string)
    ensures r == "" <==> arr == []
  {
    Generate(arr, true)
  }

  // ---------------------------------------------------------------------------
  // Reference definition: the maximal runs of consecutive values.

  datatype Run = Run(lo: nat, hi: nat)

  /** The runs of `Span(lo, hi) + rest`, extending the open run while values stay consecutive. */
  function RunsFrom(lo: nat, hi: nat, rest: seq<nat>): seq<Run>
    decreases |rest|
  {
    if rest == [] then [Run(lo, hi)]
    else if rest[0] == hi + 1 then RunsFrom(lo, rest[0], rest[1..])
    else [Run(lo, hi)] + RunsFrom(rest[0], rest[0], rest[1..])
  }

  function MaximalRuns(s: seq<nat>): seq<Run> {
    if s == [] then [] else RunsFrom(s[0], s[0], s[1..])
  }

  /** The inclusive range `lo..hi`, ascending. */
  function Span(lo: nat, hi: nat): (r: seq<nat>)
    ensures lo <= hi ==> |r| == hi - lo + 1
    ensures lo > hi ==> r == []
    ensures forall i :: 0 <= i < |r| ==> r[i] == lo + i
    decreases hi - lo
  {
    if lo > hi then [] else if lo == hi then [hi] else Span(lo, hi - 1) + [hi]
  }

  function Expand(runs: seq<Run>): seq<nat> {
    if runs == [] then [] else Span(runs[0].lo, runs[0].hi) + Expand(runs[1..])
  }

  /** The text `buildCode` emits for one run. */
  function Flush(run: Run, padded: bool): string {
    RunCode(run.lo, run.hi, padded)
  }

  function Emit(runs: seq<Run>, padded: bool): string {
    if runs == [] then "" else Flush(runs[0], padded) + Emit(runs[1..], padded)
  }

  predicate ProperRuns(runs: seq<Run>) {
    forall i :: 0 <= i < |runs| ==> runs[i].lo <= runs[i].hi
  }

  /** No run could be extended by its successor's first value. */
  predicate Maximal(runs: seq<Run>) {
    forall i :: 0 <= i < |runs| - 1 ==> runs[i + 1].lo != runs[i].hi + 1
  }

  /** Runs in ascending order with a gap of at least one absent value between them. */
  predicate Separated(runs: seq<Run>) {
    forall i :: 0 <= i < |runs| - 1 ==> runs[i].hi + 1 < runs[i + 1].lo
  }

  /** The fold, started on an open run, emits exactly the runs of the rest of the input. */
  lemma {:induction false} FoldFollowsRuns(st: FoldState, rest: seq<nat>, padded: bool)
    requires HasRun(st)
    ensures BuildCode(Reduce(st, rest, padded), padded)
         == st.built + Emit(RunsFrom(st.runStart, st.runEnd, rest), padded)
    decreases |rest|
  {
    var lo: nat, hi: nat := st.runStart, st.runEnd;
    if rest == [] {
      assert Emit([Run(lo, hi)], padded) == Flush(Run(lo, hi), padded);
    } else if rest[0] == hi + 1 {
      FoldFollowsRuns(FoldState(st.built, lo, rest[0]), rest[1..], padded);
    } else {
      var next := FoldState(BuildCode(st, padded), rest[0], rest[0]);
      assert Reduce(st, rest, padded) == Reduce(next, rest[1..], padded);
      FoldFollowsRuns(next, rest[1..], padded);
      var tail := RunsFrom(rest[0], rest[0], rest[1..]);
      EmitCons(Run(lo, hi), tail, padded);
      Associative(st.built, Flush(Run(lo, hi), padded), Emit(tail, padded));
    }
  }

  /** `generateRegExpSource` is the concatenation of the flushed maximal runs. */
  lemma GenerateFollowsRuns(arr: seq<nat>, padded: bool)
    ensures Generate(arr, padded) == Emit(MaximalRuns(arr), padded)
  {
    if arr != [] {
      var st := Step(Initial, arr[0], padded);
      assert Reduce(Initial, arr, padded) == Reduce(st, arr[1..], padded);
      FoldFollowsRuns(st, arr[1..], padded);
    }
  }

  lemma {:induction false} RunsFromExpand(lo: nat, hi: nat, rest: seq<nat>)
    requires lo <= hi
    ensures Expand(RunsFrom(lo, hi, rest)) == Span(lo, hi) + rest
    decreases |rest|
  {
    if rest == [] {
    } else if rest[0] == hi + 1 {
      RunsFromExpand(lo, rest[0], rest[1..]);
      assert Span(lo, rest[0]) == Span(lo, hi) + [rest[0]];
      assert [rest[0]] + rest[1..] == rest;
    } else {
      var c := rest[0];
      var tail := RunsFrom(c, c, rest[1..]);
      RunsFromExpand(c, c, rest[1..]);
      assert ([Run(lo, hi)] + tail)[1..] == tail;
      assert [c] + rest[1..] == rest;
    }
  }

  lemma {:induction false} RunsFromShape(lo: nat, hi: nat, rest: seq<nat>)
    requires lo <= hi
    ensures var runs := RunsFrom(lo, hi, rest);
      && |runs| >= 1 && runs[0].lo == lo
      && ProperRuns(runs) && Maximal(runs)
      && (forall i :: 0 <= i < |runs| ==> runs[i].hi in [hi] + rest)
      && (forall i :: 0 <= i < |runs| ==> runs[i].lo in [lo] + rest)
    decreases |rest|
  {
    if rest == [] {
    } else if rest[0] == hi + 1 {
      RunsFromShape(lo, rest[0], rest[1..]);
      assert [rest[0]] + rest[1..] == rest;
    } else {
      var c := rest[0];
      var tail := RunsFrom(c, c, rest[1..]);
      RunsFromShape(c, c, rest[1..]);
      var runs := [Run(lo, hi)] + tail;
      assert forall i :: 1 <= i < |runs| ==> runs[i] == tail[i - 1];
      assert [c] + rest[1..] == rest;
    }
  }

  lemma {:induction false} RunsFromSeparated(lo: nat, hi: nat, rest: seq<nat>)
    requires lo <= hi
    requires StrictlyIncreasing([hi] + rest)
    ensures Separated(RunsFrom(lo, hi, rest))
    decreases |rest|
  {
    if rest != [] {
      var c := rest[0];
      assert ([hi] + rest)[1] == c;
      assert [c] + rest[1..] == ([hi] + rest)[1..];
      assert StrictlyIncreasing([c] + rest[1..]);
      if c == hi + 1 {
        RunsFromSeparated(lo, c, rest[1..]);
      } else {
        var tail := RunsFrom(c, c, rest[1..]);
        RunsFromSeparated(c, c, rest[1..]);
        RunsFromShape(c, c, rest[1..]);
        var runs := [Run(lo, hi)] + tail;
        assert forall i :: 1 <= i < |runs| ==> runs[i] == tail[i - 1];
        assert ([hi] + rest)[0] == hi && hi < c;
        assert runs[0].hi + 1 < runs[1].lo;
      }
    }
  }

  /**
   * The maximal runs of any list cover it exactly, in order; each is a proper range,
   * none can be extended, and both ends of every run are values of the list. For strictly
   * ascending input the runs are disjoint and separated by gaps.
   */
  lemma MaximalRunsProperties(s: seq<nat>)
    ensures var runs := MaximalRuns(s);
      && Expand(runs) == s
      && ProperRuns(runs) && Maximal(runs)
      && (forall i :: 0 <= i < |runs| ==> runs[i].lo in s && runs[i].hi in s)
      && (StrictlyIncreasing(s) ==> Separated(runs))
  {
    if s != [] {
      RunsFromExpand(s[0], s[0], s[1..]);
      RunsFromShape(s[0], s[0], s[1..]);
      assert [s[0]] + s[1..] == s;
      if StrictlyIncreasing(s) {
        RunsFromSeparated(s[0], s[0], s[1..]);
      }
    }
  }

  // ---------------------------------------------------------------------------
  // The shapes `buildCode` gives to runs of length one, two and three or more.

  /** A lone value is one escape and no dash. */
  lemma SingleValue(c: nat)
    ensures GenerateRegExpSource([c]) == ToCodeString(c, false)
    ensures '-' !in GenerateRegExpSource([c])
  {
    assert Reduce(Initial, [c], false) == FoldState("", c, c);
    NoDelimiterInside(c, false);
  }

  /** Two consecutive values are two adjacent escapes and no dash. */
  lemma PairRun(c: nat)
    ensures GenerateRegExpSource([c, c + 1]) == ToCodeString(c, false) + ToCodeString(c + 1, false)
    ensures '-' !in GenerateRegExpSource([c, c + 1])
  {
    var s := [c, c + 1];
    GenerateFollowsRuns(s, false);
    assert s[1..] == [c + 1];
    assert RunsFrom(c, c, [c + 1]) == RunsFrom(c, c + 1, []);
    assert MaximalRuns(s) == [Run(c, c + 1)];
    assert Emit([Run(c, c + 1)], false) == Flush(Run(c, c + 1), false);
    var a, b := ToCodeString(c, false), ToCodeString(c + 1, false);
    assert Flush(Run(c, c + 1), false) == a + ("" + b);
    assert "" + b == b;
    NoDelimiterInside(c, false);
    NoDelimiterInside(c + 1, false);
  }

  lemma {:induction false} RunsOfSpan(lo: nat, hi: nat, last: nat)
    requires lo <= hi <= last
    ensures RunsFrom(lo, hi, Span(hi + 1, last)) == [Run(lo, last)]
    decreases last - hi
  {
    if hi < last {
      var s := Span(hi + 1, last);
      assert s[0] == hi + 1;
      assert s[1..] == Span(hi + 2, last);
      RunsOfSpan(lo, hi + 1, last);
    }
  }

  lemma SpanIsOneRun(lo: nat, hi: nat)
    requires lo <= hi
    ensures MaximalRuns(Span(lo, hi)) == [Run(lo, hi)]
  {
    var s := Span(lo, hi);
    assert s[0] == lo;
    assert s[1..] == Span(lo + 1, hi);
    RunsOfSpan(lo, lo, hi);
  }

  lemma EmitCons(run: Run, tail: seq<Run>, padded: bool)
    ensures Emit([run] + tail, padded) == Flush(run, padded) + Emit(tail, padded)
  {
    assert ([run] + tail)[1..] == tail;
  }

  lemma OneDash(a: string, b: string)
    requires '-' !in a && '-' !in b
    ensures multiset(a + ("-" + b))['-'] == 1
  {
    assert multiset(a + ("-" + b)) == multiset(a) + multiset("-") + multiset(b);
    assert multiset(a)['-'] == 0 && multiset(b)['-'] == 0;
  }

  lemma EmitSpan(lo: nat, hi: nat)
    requires hi >= lo + 2
    ensures GenerateRegExpSource(Span(lo, hi))
         == ToCodeString(lo, false) + ("-" + ToCodeString(hi, false))
  {
    SpanIsOneRun(lo, hi);
    GenerateFollowsRuns(Span(lo, hi), false);
    assert Emit([Run(lo, hi)], false) == Flush(Run(lo, hi), false);
  }

  /** Three or more consecutive values `lo..hi` are `lo-hi` with exactly one dash. */
  lemma LongRun(lo: nat, hi: nat)
    requires hi - lo >= 2
    ensures GenerateRegExpSource(Span(lo, hi))
         == ToCodeString(lo, false) + "-" + ToCodeString(hi, false)
    ensures multiset(GenerateRegExpSource(Span(lo, hi)))['-'] == 1
  {
    var a, b := ToCodeString(lo, false), ToCodeString(hi, false);
    EmitSpan(lo, hi);
    Associative(a, "-", b);
    NoDelimiterInside(lo, false);
    NoDelimiterInside(hi, false);
    OneDash(a, b);
  }
}
