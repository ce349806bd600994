/**
 The silence-log parser (`parseSilence`): the analyzer's diagnostic text is
 scanned line by line; every line is searched, independently, for the two
 patterns `silence_end: (\d+\.\d+)` and `silence_start: (\d+\.\d+)`, and each
 capture that `strconv.ParseFloat` accepts is appended to its own list. The
 two lists are then paired into segments `(ends[i], starts[i + 1])`.

 Timestamps are kept as the captured decimal text: the parser only moves them
 around, and the one thing the float conversion decides (whether the capture
 is kept at all) is stated exactly in `ParsesAsFloat64`.
 */
module SilenceParser {
  import opened Optional
  import opened Decimal
  import LineScanner

  /** A captured `digits.digits` timestamp, in seconds. */
  type Timestamp = string

  const EndTag: string := "silence_end: "
  const StartTag: string := "silence_start: "

  /**
   2^1024 - 2^970: the float64 halfway point between the largest finite value
   and the next power of two. A decimal at or above it rounds (to even) to
   infinity, for which ParseFloat returns ErrRange; anything below it is a
   finite float64 (underflow to zero is not an error).
   */
  const Float64OverflowBound: nat := 179769313486231580793728971405303415079934132710037826936173778980444968292764750946649017977587207096330286416692887910946555547851940402630657488671505820681908902000708383676273854845817711531764475730270069855571366959622842914819860834936475292719074168444365510704342711559699508093042880177904174497792

  /** One derived segment: from the end of a silence to the start of the next one. */
  datatype Segment = Segment(start: Timestamp, end: Timestamp)

  function Min(a: int, b: int): int {
    if a < b then a else b
  }

  function Max(a: int, b: int): int {
    if a < b then b else a
  }

  /** Length of the run of digits in `s` starting at `i` (greedy `\d*`). */
  function DigitRun(s: string, i: nat): (n: nat)
    requires i <= |s|
    ensures i + n <= |s|
    decreases |s| - i
  {
    if i < |s| && IsDigit(s[i]) then 1 + DigitRun(s, i + 1) else 0
  }

  /** The run is all digits and stops at the end of `s` or at a non-digit. */
  lemma {:induction false} DigitRunSpec(s: string, i: nat)
    requires i <= |s|
    ensures forall j :: i <= j < i + DigitRun(s, i) ==> IsDigit(s[j])
    ensures i + DigitRun(s, i) == |s| || !IsDigit(s[i + DigitRun(s, i)])
    decreases |s| - i
  {
    if i < |s| && IsDigit(s[i]) {
      DigitRunSpec(s, i + 1);
    }
  }

  /** The text `\d+\.\d+` matches in full. */
  ghost predicate IsDecimalText(c: string) {
    exists k :: 0 < k < |c| - 1 && c[k] == '.' && AllDigits(c[..k]) && AllDigits(c[k + 1..])
  }

  /**
   The regular expression `tag(\d+\.\d+)` matches `line` at position `p`, with
   `n1` digits before the dot and `n2` after it.
   */
  ghost predicate PatternSplit(line: string, tag: string, p: nat, n1: nat, n2: nat) {
    var q := p + |tag|;
    && 1 <= n1 && 1 <= n2 && q + n1 + 1 + n2 <= |line|
    && line[p..q] == tag
    && AllDigits(line[q..q + n1])
    && line[q + n1] == '.'
    && AllDigits(line[q + n1 + 1..q + n1 + 1 + n2])
  }

  ghost predicate PatternAt(line: string, tag: string, p: nat) {
    exists n1: nat, n2: nat :: PatternSplit(line, tag, p, n1, n2)
  }

  /**
   The submatch of `tag(\d+\.\d+)` for a match starting at `p`, if one starts
   there. Both digit runs are greedy, so the capture takes every digit on
   either side of the dot.
   */
  function MatchAt(line: string, tag: string, p: nat): Option<Timestamp>
    requires p <= |line|
  {
    var q := p + |tag|;
    if q > |line| || line[p..q] != tag then None
    else
      var n1 := DigitRun(line, q);
      if n1 == 0 || q + n1 == |line| || line[q + n1] != '.' then None
      else
        var n2 := DigitRun(line, q + n1 + 1);
        if n2 == 0 then None else Some(line[q..q + n1 + 1 + n2])
  }

  /**
   The first position at or after `p` where a match starts, or `|line| + 1`
   when none does: the regular expression reports the leftmost match.
   */
  function FirstMatch(line: string, tag: string, p: nat): (j: nat)
    requires p <= |line| + 1
    ensures p <= j <= |line| + 1
    decreases |line| + 1 - p
  {
    if p > |line| then p
    else if MatchAt(line, tag, p).Some? then p
    else FirstMatch(line, tag, p + 1)
  }

  /** The position found holds a match, and none starts before it. */
  lemma {:induction false} FirstMatchSpec(line: string, tag: string, p: nat)
    requires p <= |line| + 1
    ensures FirstMatch(line, tag, p) <= |line| ==> MatchAt(line, tag, FirstMatch(line, tag, p)).Some?
    ensures forall k :: p <= k < FirstMatch(line, tag, p) ==> MatchAt(line, tag, k).None?
    decreases |line| + 1 - p
  {
    if p <= |line| && MatchAt(line, tag, p).None? {
      FirstMatchSpec(line, tag, p + 1);
    }
  }

  /** `FindStringSubmatch(line)[1]` for the pattern `tag(\d+\.\d+)`, when there is a match. */
  function FindCapture(line: string, tag: string): Option<Timestamp> {
    var j := FirstMatch(line, tag, 0);
    if j <= |line| then MatchAt(line, tag, j) else None
  }

  /** The digits before the dot of a capture. */
  function IntegerPart(c: string): (r: string)
    ensures |r| <= |c| && r == c[..|r|] && '.' !in r
    ensures |r| < |c| ==> c[|r|] == '.'
  {
    if |c| == 0 || c[0] == '.' then [] else [c[0]] + IntegerPart(c[1..])
  }

  /**
   `strconv.ParseFloat(c, 64)` succeeds on a `digits.digits` capture: it is
   finite once rounded to float64.
   */
  predicate ParsesAsFloat64(c: Timestamp) {
    var ip := IntegerPart(c);
    AllDigits(ip) && Value(ip) < Float64OverflowBound
  }

  /** What one line adds to the list for `tag`: its capture, when there is one and it parses. */
  function LineEvent(line: string, tag: string): seq<Timestamp> {
    match FindCapture(line, tag)
    case None => []
    case Some(c) => if ParsesAsFloat64(c) then [c] else []
  }

  /** The list for `tag` built from `lines`, in line order. */
  function Events(lines: seq<string>, tag: string): (r: seq<Timestamp>)
    ensures |r| <= |lines|
  {
    if |lines| == 0 then []
    else Events(lines[..|lines| - 1], tag) + LineEvent(lines[|lines| - 1], tag)
  }

  function Ends(text: string): seq<Timestamp> {
    Events(LineScanner.Lines(text), EndTag)
  }

  function Starts(text: string): seq<Timestamp> {
    Events(LineScanner.Lines(text), StartTag)
  }

  /** The pairing loop: segment i runs from `ends[i]` to `starts[i + 1]`. */
  function Pairing(ends: seq<Timestamp>, starts: seq<Timestamp>): (segs: seq<Segment>)
    ensures |segs| == Max(0, Min(|ends|, |starts| - 1))
    ensures forall i :: 0 <= i < |segs| ==> segs[i] == Segment(ends[i], starts[i + 1])
  {
    if |ends| == 0 || |starts| < 2 then []
    else [Segment(ends[0], starts[1])] + Pairing(ends[1..], starts[1..])
  }

  /** `parseSilence`: the segments derived from the analyzer's diagnostic text. */
  function ParseSilence(text: string): (segs: seq<Segment>)
    ensures |segs| == Max(0, Min(|Ends(text)|, |Starts(text)| - 1))
    ensures forall i :: 0 <= i < |segs| ==> segs[i] == Segment(Ends(text)[i], Starts(text)[i + 1])
  {
    Pairing(Ends(text), Starts(text))
  }

  // ---------------------------------------------------------------------------
  // The regular expression, stated independently of the matcher
  // ---------------------------------------------------------------------------

  /** `DigitRun` is the only run length bounded by a non-digit. */
  lemma DigitRunIs(s: string, i: nat, n: nat)
    requires i + n <= |s|
    requires forall j :: i <= j < i + n ==> IsDigit(s[j])
    requires i + n == |s| || !IsDigit(s[i + n])
    ensures DigitRun(s, i) == n
    decreases n
  {
    if n > 0 {
      DigitRunIs(s, i + 1, n - 1);
    }
  }

  /** A capture found at `p` is a match of the regular expression there, and is `digits.digits` text. */
  lemma MatchAtSound(line: string, tag: string, p: nat)
    requires p <= |line|
    requires MatchAt(line, tag, p).Some?
    ensures PatternAt(line, tag, p)
    ensures IsDecimalText(MatchAt(line, tag, p).value)
  {
    var q := p + |tag|;
    var n1 := DigitRun(line, q);
    var n2 := DigitRun(line, q + n1 + 1);
    DigitRunSpec(line, q);
    DigitRunSpec(line, q + n1 + 1);
    assert MatchAt(line, tag, p).value == line[q..q + n1 + 1 + n2];
    DecimalRuns(line, q, n1, n2);
    assert PatternSplit(line, tag, p, n1, n2);
  }

  /**
   A capture found at `p` is the text right behind the tag, and it ends where
   the digits after the dot end: the next character, if any, is not a digit.
   */
  lemma MatchAtText(line: string, tag: string, p: nat)
    requires p <= |line|
    requires MatchAt(line, tag, p).Some?
    ensures var c := MatchAt(line, tag, p).value;
            var q := p + |tag|;
            && q + |c| <= |line|
            && line[p..q] == tag
            && line[q..q + |c|] == c
            && (q + |c| == |line| || !IsDigit(line[q + |c|]))
  {
    var q := p + |tag|;
    DigitRunSpec(line, q + DigitRun(line, q) + 1);
  }

  /** Two digit runs around a dot form `digits.digits` text. */
  lemma DecimalRuns(line: string, q: nat, n1: nat, n2: nat)
    requires 1 <= n1 && 1 <= n2 && q + n1 + 1 + n2 <= |line|
    requires forall j :: q <= j < q + n1 ==> IsDigit(line[j])
    requires line[q + n1] == '.'
    requires forall j :: q + n1 + 1 <= j < q + n1 + 1 + n2 ==> IsDigit(line[j])
    ensures AllDigits(line[q..q + n1]) && AllDigits(line[q + n1 + 1..q + n1 + 1 + n2])
    ensures IsDecimalText(line[q..q + n1 + 1 + n2])
  {
    var c := line[q..q + n1 + 1 + n2];
    assert c[..n1] == line[q..q + n1];
    assert c[n1 + 1..] == line[q + n1 + 1..q + n1 + 1 + n2];
    assert c[n1] == '.';
  }

  /** Wherever the regular expression matches, the matcher finds a capture. */
  lemma MatchAtComplete(line: string, tag: string, p: nat)
    requires p <= |line|
    requires PatternAt(line, tag, p)
    ensures MatchAt(line, tag, p).Some?
  {
    var q := p + |tag|;
    var n1: nat, n2: nat :| PatternSplit(line, tag, p, n1, n2);
    forall j | q <= j < q + n1 ensures IsDigit(line[j]) {
      assert line[j] == line[q..q + n1][j - q];
    }
    DigitRunIs(line, q, n1);
    assert line[q + n1 + 1] == line[q + n1 + 1..q + n1 + 1 + n2][0];
  }

  /** No capture exactly when the regular expression matches nowhere in the line. */
  lemma FindCaptureNone(line: string, tag: string)
    ensures FindCapture(line, tag).None? <==> forall p :: 0 <= p <= |line| ==> !PatternAt(line, tag, p)
  {
    var j := FirstMatch(line, tag, 0);
    FirstMatchSpec(line, tag, 0);
    if j <= |line| {
      MatchAtSound(line, tag, j);
    } else {
      forall p | 0 <= p <= |line| ensures !PatternAt(line, tag, p) {
        if PatternAt(line, tag, p) {
          MatchAtComplete(line, tag, p);
        }
      }
    }
  }

  /** Every recorded timestamp is `digits.digits` text that ParseFloat accepts. */
  lemma {:induction false} EventsWellFormed(lines: seq<string>, tag: string)
    ensures forall i :: 0 <= i < |Events(lines, tag)| ==>
              IsDecimalText(Events(lines, tag)[i]) && ParsesAsFloat64(Events(lines, tag)[i])
  {
    if |lines| > 0 {
      var init := lines[..|lines| - 1];
      var line := lines[|lines| - 1];
      EventsWellFormed(init, tag);
      var j := FirstMatch(line, tag, 0);
      FirstMatchSpec(line, tag, 0);
      if j <= |line| {
        MatchAtSound(line, tag, j);
      }
      assert Events(lines, tag) == Events(init, tag) + LineEvent(line, tag);
    }
  }

  /** The lists keep line order: the events of a text are those of its first part, then those of the rest. */
  lemma {:induction false} EventsConcat(a: seq<string>, b: seq<string>, tag: string)
    ensures Events(a + b, tag) == Events(a, tag) + Events(b, tag)
  {
    if |b| == 0 {
      assert a + b == a;
    } else {
      var b' := b[..|b| - 1];
      assert (a + b)[..|a + b| - 1] == a + b';
      assert (a + b)[|a + b| - 1] == b[|b| - 1];
      EventsConcat(a, b', tag);
    }
  }

  /** No segment comes out exactly when there is no end, or fewer than two starts. */
  lemma NoSegmentsIff(text: string)
    ensures |ParseSilence(text)| == 0 <==> |Ends(text)| == 0 || |Starts(text)| < 2
  {
  }

  // ---------------------------------------------------------------------------
  // Lines the analyzer writes
  // ---------------------------------------------------------------------------

  /**
   A line holding the tag and a well-formed decimal, with no match starting
   in the text before the tag, has the whole decimal captured; it is kept
   exactly when its integer part is below the overflow bound, and a capture
   ParseFloat rejects is skipped.
   */
  lemma TaggedLine(pre: string, tag: string, whole: string, frac: string, rest: string)
    requires AllDigits(whole) && AllDigits(frac) && 1 <= |whole| && 1 <= |frac|
    requires |rest| == 0 || !IsDigit(rest[0])
    requires forall p :: 0 <= p < |pre| ==> !PatternAt(pre + tag + whole + "." + frac + rest, tag, p)
    ensures FindCapture(pre + tag + whole + "." + frac + rest, tag) == Some(whole + "." + frac)
    ensures LineEvent(pre + tag + whole + "." + frac + rest, tag) ==
            (if Value(whole) < Float64OverflowBound then [whole + "." + frac] else [])
  {
    var line := pre + tag + whole + "." + frac + rest;
    MatchAtBehind(pre, tag, whole, frac, rest);
    NoMatchBefore(line, tag, |pre|);
    FirstCapture(line, tag, |pre|);
    IntegerPartOf(whole, frac);
  }

  lemma IntegerPartOf(whole: string, frac: string)
    requires AllDigits(whole)
    ensures IntegerPart(whole + "." + frac) == whole
  {
    var c := whole + "." + frac;
    assert c[..|whole|] == whole;
    assert c[|whole|] == '.';
  }

  /** A character of the tag that the line never contains rules every match out. */
  lemma MissingTagChar(line: string, tag: string, ch: char)
    requires ch in tag && ch !in line
    ensures FindCapture(line, tag).None?
  {
    FirstMatchSpec(line, tag, 0);
  }

  /**
   A tag character that occurs once in the tag and never after it pins every
   occurrence of the tag to the start of the line.
   */
  predicate Anchor(tag: string, rest: string, k: nat) {
    k < |tag| && tag[k] !in tag[..k] && tag[k] !in tag[k + 1..] && tag[k] !in rest
  }

  lemma AnchoredTag(tag: string, rest: string, k: nat, p: nat)
    requires Anchor(tag, rest, k)
    requires 0 < p <= |tag + rest|
    ensures MatchAt(tag + rest, tag, p).None?
  {
  }

  /** On an anchored line, whatever follows the tag decides alone whether anything is captured. */
  lemma AnchoredNoCapture(tag: string, rest: string, k: nat)
    requires Anchor(tag, rest, k)
    requires MatchAt(tag + rest, tag, 0).None?
    ensures LineEvent(tag + rest, tag) == []
  {
    forall p | 0 < p <= |tag + rest| ensures MatchAt(tag + rest, tag, p).None? {
      AnchoredTag(tag, rest, k, p);
    }
    FirstMatchSpec(tag + rest, tag, 0);
  }

  /** A negative value or a value without a dot is not recorded. */
  lemma UnsignedDecimalsOnly()
    ensures LineEvent("silence_end: -1.500000", EndTag) == []
    ensures LineEvent("silence_start: 10", StartTag) == []
  {
    NegativeNotRecorded();
    DotlessNotRecorded();
  }

  lemma NegativeNotRecorded()
    ensures LineEvent("silence_end: -1.500000", EndTag) == []
  {
    var neg := "silence_end: -1.500000";
    assert neg == EndTag + "-1.500000";
    DigitRunIs(neg, 13, 0);
    AnchoredNoCapture(EndTag, "-1.500000", 11);
  }

  lemma DotlessNotRecorded()
    ensures LineEvent("silence_start: 10", StartTag) == []
  {
    var bare := "silence_start: 10";
    assert bare == StartTag + "10";
    DigitRunIs(bare, 15, 2);
    AnchoredNoCapture(StartTag, "10", 13);
  }

  /**
   A capture is kept exactly when ParseFloat can represent it: its integer
   part is below the overflow bound; at or above it the line adds nothing.
   */
  lemma CaptureKeptIffFinite(n: nat, frac: string)
    requires AllDigits(frac) && 1 <= |frac|
    ensures LineEvent(EndTag + Digits(n) + "." + frac, EndTag) ==
            (if n < Float64OverflowBound then [Digits(n) + "." + frac] else [])
  {
    ValueOfDigits(n);
    TaggedLine([], EndTag, Digits(n), frac, "");
    assert [] + EndTag == EndTag;
    assert EndTag + Digits(n) + "." + frac + "" == EndTag + Digits(n) + "." + frac;
  }

  /** A capture the parser keeps: `digits.digits` whose integer part ParseFloat can represent. */
  predicate Kept(c: string) {
    var ip := IntegerPart(c);
    1 <= |ip| && |ip| + 1 < |c| && AllDigits(c[|ip| + 1..]) && ParsesAsFloat64(c)
  }

  /** Kept captures are exactly the `digits.digits` texts that ParseFloat accepts. */
  lemma KeptIff(c: string)
    ensures Kept(c) <==> IsDecimalText(c) && ParsesAsFloat64(c)
  {
    var ip := IntegerPart(c);
    if Kept(c) {
      assert c[..|ip|] == ip;
    }
    if IsDecimalText(c) && ParsesAsFloat64(c) {
      var k :| 0 < k < |c| - 1 && c[k] == '.' && AllDigits(c[..k]) && AllDigits(c[k + 1..]);
      DotPosition(c, k);
    }
  }

  /** The integer part of `digits.digits` text ends at its dot. */
  lemma {:induction false} DotPosition(c: string, k: nat)
    requires k < |c| && c[k] == '.' && AllDigits(c[..k])
    ensures |IntegerPart(c)| == k
  {
    if k > 0 {
      assert c[0] == c[..k][0];
      assert c[1..][..k - 1] == c[..k][1..];
      DotPosition(c[1..], k - 1);
    }
  }

  lemma KeptChars(c: string)
    requires Kept(c)
    ensures forall i :: 0 <= i < |c| ==> IsDigit(c[i]) || c[i] == '.'
    ensures IsDigit(c[|c| - 1])
  {
    var ip := IntegerPart(c);
    forall i | 0 <= i < |c| ensures IsDigit(c[i]) || c[i] == '.' {
      if i < |ip| {
        assert c[i] == ip[i];
      } else if i > |ip| {
        assert c[i] == c[|ip| + 1..][i - |ip| - 1];
      }
    }
    assert c[|c| - 1] == c[|ip| + 1..][|c| - |ip| - 2];
  }

  /**
   A line holding a tag followed by a kept capture feeds that tag's list with
   the capture, whatever text comes before the tag (as long as no match starts
   in it) and whatever follows the capture (as long as it does not continue
   the digits). What the other pattern finds on the line plays no part.
   */
  lemma KeptLine(pre: string, tag: string, c: string, rest: string)
    requires Kept(c)
    requires |rest| == 0 || !IsDigit(rest[0])
    requires forall p :: 0 <= p < |pre| ==> !PatternAt(pre + tag + c + rest, tag, p)
    ensures LineEvent(pre + tag + c + rest, tag) == [c]
  {
    var line := pre + tag + c + rest;
    KeptBehind(pre, tag, c, rest);
    NoMatchBefore(line, tag, |pre|);
    FirstCapture(line, tag, |pre|);
  }

  /** A line on which a pattern matches nowhere adds nothing to that pattern's list. */
  lemma UnmatchedLine(line: string, tag: string)
    requires forall p :: 0 <= p <= |line| ==> !PatternAt(line, tag, p)
    ensures LineEvent(line, tag) == []
  {
    FindCaptureNone(line, tag);
  }

  /**
   One line can feed both lists: an end followed on the same line by a start
   adds the end's capture to the ends and the start's capture to the starts.
   */
  lemma BothTags(c: string, d: string)
    requires Kept(c) && Kept(d)
    ensures LineEvent(EndTag + c + " " + StartTag + d, EndTag) == [c]
    ensures LineEvent(EndTag + c + " " + StartTag + d, StartTag) == [d]
  {
    var line := EndTag + c + " " + StartTag + d;
    var pre := EndTag + c + " ";
    assert line == [] + EndTag + c + (" " + StartTag + d);
    KeptLine([], EndTag, c, " " + StartTag + d);
    assert line == pre + StartTag + d + [];
    NoStartBefore(c, d);
    KeptLine(pre, StartTag, d, []);
  }

  /** No start pattern begins inside the end tag, its capture or the space after it. */
  lemma NoStartBefore(c: string, d: string)
    requires Kept(c)
    ensures var line := EndTag + c + " " + StartTag + d;
            forall p :: 0 <= p < |EndTag + c + " "| ==> !PatternAt(line, StartTag, p)
  {
    var line := EndTag + c + " " + StartTag + d;
    var k := |EndTag + c + " "|;
    KeptChars(c);
    forall p | 0 <= p < k ensures !PatternAt(line, StartTag, p) {
      var j := if p == 0 then 8 else 0;
      assert line[p + j] != 's' by {
        if p + j < 13 {
          assert line[p + j] == EndTag[p + j];
        } else if p + j < 13 + |c| {
          assert line[p + j] == c[p + j - 13];
        } else {
          assert line[p + j] == ' ';
        }
      }
      assert StartTag[j] == 's';
      assert p + 15 <= |line| ==> line[p..p + 15][j] != StartTag[j];
    }
  }

  lemma KeptBehind(pre: string, tag: string, c: string, rest: string)
    requires Kept(c)
    requires |rest| == 0 || !IsDigit(rest[0])
    ensures MatchAt(pre + tag + c + rest, tag, |pre|) == Some(c)
  {
    var ip := IntegerPart(c);
    var frac := c[|ip| + 1..];
    assert c == ip + "." + frac;
    assert pre + tag + c + rest == pre + tag + ip + "." + frac + rest;
    MatchAtBehind(pre, tag, ip, frac, rest);
  }

  /** Where the pattern does not match, the matcher captures nothing. */
  lemma NoMatchBefore(line: string, tag: string, k: nat)
    requires k <= |line|
    requires forall p :: 0 <= p < k ==> !PatternAt(line, tag, p)
    ensures forall p :: 0 <= p < k ==> MatchAt(line, tag, p).None?
  {
    forall p | 0 <= p < k ensures MatchAt(line, tag, p).None? {
      if MatchAt(line, tag, p).Some? {
        MatchAtSound(line, tag, p);
      }
    }
  }

  /** The capture at the first position where the matcher captures is the one reported. */
  lemma FirstCapture(line: string, tag: string, k: nat)
    requires k <= |line| && MatchAt(line, tag, k).Some?
    requires forall p :: 0 <= p < k ==> MatchAt(line, tag, p).None?
    ensures FindCapture(line, tag) == MatchAt(line, tag, k)
  {
    FirstMatchSpec(line, tag, 0);
  }

  /** The matcher captures a well-formed decimal right behind the tag, wherever the tag sits. */
  lemma MatchAtBehind(pre: string, tag: string, whole: string, frac: string, rest: string)
    requires AllDigits(whole) && AllDigits(frac) && 1 <= |whole| && 1 <= |frac|
    requires |rest| == 0 || !IsDigit(rest[0])
    ensures MatchAt(pre + tag + whole + "." + frac + rest, tag, |pre|) == Some(whole + "." + frac)
  {
    var line := pre + tag + whole + "." + frac + rest;
    var q := |pre| + |tag|;
    var e := q + |whole| + 1 + |frac|;
    assert line[|pre|..q] == tag;
    assert line[q..e] == whole + "." + frac;
    forall j | q <= j < q + |whole| ensures IsDigit(line[j]) {
      assert line[j] == whole[j - q];
    }
    DigitRunIs(line, q, |whole|);
    assert line[q + |whole|] == '.';
    forall j | q + |whole| + 1 <= j < e ensures IsDigit(line[j]) {
      assert line[j] == frac[j - q - |whole| - 1];
    }
    if |rest| > 0 {
      assert line[e] == rest[0];
    }
    DigitRunIs(line, q + |whole| + 1, |frac|);
  }

  /** A line that is exactly a tag and a kept capture, told apart from the other tag by `ch`. */
  lemma BareKeptLine(tag: string, other: string, ch: char, c: string)
    requires Kept(c) && ch in other && ch !in tag && !IsDigit(ch) && ch != '.'
    ensures LineEvent(tag + c, tag) == [c]
    ensures LineEvent(tag + c, other) == []
  {
    var ip := IntegerPart(c);
    var frac := c[|ip| + 1..];
    assert c == ip + "." + frac;
    TaggedLine([], tag, ip, frac, "");
    assert [] + tag == tag;
    assert tag + c == tag + ip + "." + frac + "";
    KeptChars(c);
    assert ch !in tag + c;
    MissingTagChar(tag + c, other, ch);
  }

  lemma KeptLinePlain(tag: string, c: string)
    requires Kept(c) && |c| < 1000 && |tag| < 1000 && '\n' !in tag
    ensures LineScanner.PlainLine(tag + c)
  {
    KeptChars(c);
    assert (tag + c)[|tag + c| - 1] == c[|c| - 1];
    assert '\n' !in c;
  }

  /**
   A transcript of the shape the analyzer writes for a file that opens in
   silence and then alternates speech and silence. Three starts and two ends give two segments, each from
   an end to the following start; the first start is never a bound.
   */
  lemma AlternatingTranscript(s0: string, e0: string, s1: string, e1: string, s2: string)
    requires Kept(s0) && Kept(e0) && Kept(s1) && Kept(e1) && Kept(s2)
    requires |s0| < 1000 && |e0| < 1000 && |s1| < 1000 && |e1| < 1000 && |s2| < 1000
    ensures var text := LineScanner.Terminated([StartTag + s0, EndTag + e0, StartTag + s1, EndTag + e1, StartTag + s2]);
            && Ends(text) == [e0, e1]
            && Starts(text) == [s0, s1, s2]
            && ParseSilence(text) == [Segment(e0, s1), Segment(e1, s2)]
  {
    var ls := [StartTag + s0, EndTag + e0, StartTag + s1, EndTag + e1, StartTag + s2];
    TagFacts();
    AlternatingLines(ls, StartTag, EndTag, s0, e0, s1, e1, s2);
    AlternatingEvents(ls, StartTag, EndTag, s0, e0, s1, e1, s2);
    ParseOfLines(LineScanner.Terminated(ls), ls, [e0, e1], [s0, s1, s2]);
    PairTwoThree(e0, e1, s0, s1, s2);
  }

  lemma ParseOfLines(text: string, ls: seq<string>, ends: seq<Timestamp>, starts: seq<Timestamp>)
    requires LineScanner.Lines(text) == ls
    requires Events(ls, EndTag) == ends && Events(ls, StartTag) == starts
    ensures Ends(text) == ends && Starts(text) == starts
    ensures ParseSilence(text) == Pairing(ends, starts)
  {
  }

  lemma PairTwoThree(e0: Timestamp, e1: Timestamp, s0: Timestamp, s1: Timestamp, s2: Timestamp)
    ensures Pairing([e0, e1], [s0, s1, s2]) == [Segment(e0, s1), Segment(e1, s2)]
  {
  }

  /** The two tags tell each other apart, and each fits on one short line. */
  lemma TagFacts()
    ensures 'd' in EndTag && 'd' !in StartTag && 't' in StartTag && 't' !in EndTag
    ensures |StartTag| < 1000 && |EndTag| < 1000 && '\n' !in StartTag && '\n' !in EndTag
  {
  }

  lemma AlternatingLines(ls: seq<string>, st: string, en: string, s0: string, e0: string, s1: string, e1: string, s2: string)
    requires Kept(s0) && Kept(e0) && Kept(s1) && Kept(e1) && Kept(s2)
    requires |s0| < 1000 && |e0| < 1000 && |s1| < 1000 && |e1| < 1000 && |s2| < 1000
    requires |st| < 1000 && |en| < 1000 && '\n' !in st && '\n' !in en
    requires |ls| == 5 && ls[0] == st + s0 && ls[1] == en + e0 && ls[2] == st + s1
    requires ls[3] == en + e1 && ls[4] == st + s2
    ensures LineScanner.Lines(LineScanner.Terminated(ls)) == ls
  {
    KeptLinePlain(st, s0);
    KeptLinePlain(en, e0);
    KeptLinePlain(st, s1);
    KeptLinePlain(en, e1);
    KeptLinePlain(st, s2);
    LineScanner.LinesOfPlain(ls);
  }

  lemma AlternatingEvents(ls: seq<string>, st: string, en: string, s0: string, e0: string, s1: string, e1: string, s2: string)
    requires Kept(s0) && Kept(e0) && Kept(s1) && Kept(e1) && Kept(s2)
    requires 'd' in en && 'd' !in st && 't' in st && 't' !in en
    requires |ls| == 5 && ls[0] == st + s0 && ls[1] == en + e0 && ls[2] == st + s1
    requires ls[3] == en + e1 && ls[4] == st + s2
    ensures Events(ls, en) == [e0, e1] && Events(ls, st) == [s0, s1, s2]
  {
    BareKeptLine(st, en, 'd', s0);
    BareKeptLine(en, st, 't', e0);
    BareKeptLine(st, en, 'd', s1);
    BareKeptLine(en, st, 't', e1);
    BareKeptLine(st, en, 'd', s2);
    EndsOfFive(ls, en, e0, e1);
    StartsOfFive(ls, st, s0, s1, s2);
  }

  lemma EndsOfFive(ls: seq<string>, en: string, e0: Timestamp, e1: Timestamp)
    requires |ls| == 5
    requires LineEvent(ls[0], en) == [] && LineEvent(ls[1], en) == [e0] && LineEvent(ls[2], en) == []
    requires LineEvent(ls[3], en) == [e1] && LineEvent(ls[4], en) == []
    ensures Events(ls, en) == [e0, e1]
  {
    EventsOfFive(ls, en, [], [e0], [], [e1], []);
    assert [] + [e0] + [] + [e1] + [] == [e0, e1];
  }

  lemma StartsOfFive(ls: seq<string>, st: string, s0: Timestamp, s1: Timestamp, s2: Timestamp)
    requires |ls| == 5
    requires LineEvent(ls[0], st) == [s0] && LineEvent(ls[1], st) == [] && LineEvent(ls[2], st) == [s1]
    requires LineEvent(ls[3], st) == [] && LineEvent(ls[4], st) == [s2]
    ensures Events(ls, st) == [s0, s1, s2]
  {
    EventsOfFive(ls, st, [s0], [], [s1], [], [s2]);
    assert [s0] + [] + [s1] + [] + [s2] == [s0, s1, s2];
  }

  lemma EventsOfFive(ls: seq<string>, tag: string, e0: seq<Timestamp>, e1: seq<Timestamp>,
                      e2: seq<Timestamp>, e3: seq<Timestamp>, e4: seq<Timestamp>)
    requires |ls| == 5
    requires LineEvent(ls[0], tag) == e0 && LineEvent(ls[1], tag) == e1 && LineEvent(ls[2], tag) == e2
    requires LineEvent(ls[3], tag) == e3 && LineEvent(ls[4], tag) == e4
    ensures Events(ls, tag) == e0 + e1 + e2 + e3 + e4
  {
    assert ls[..1][..0] == [];
    assert Events(ls[..1], tag) == e0;
    assert ls[..2][..1] == ls[..1];
    assert Events(ls[..2], tag) == e0 + e1;
    assert ls[..3][..2] == ls[..2];
    assert Events(ls[..3], tag) == e0 + e1 + e2;
    assert ls[..4][..3] == ls[..3];
    assert Events(ls[..4], tag) == e0 + e1 + e2 + e3;
    assert ls[..4] == ls[..|ls| - 1];
  }
}
