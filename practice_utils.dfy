/**
 * The practice page helpers: clock and duration formatting, the
 * performance bands, the choice-letter mapping and the older explanation
 * splitter, which breaks an HTML rationale into one text per answer choice
 * A-D by trying four strategies in turn.
 *
 * The HTML parser is outside the model: the paragraphs of the parsed
 * document (their text and their HTML) and the sentences the
 * "is correct / is incorrect" pattern recognises are inputs.
 */
module PracticeUtils {
  import opened Wrappers
  import opened Text

  // ---------------------------------------------------------------------
  // Clock formatting
  // ---------------------------------------------------------------------

  /** `n.toString().padStart(2, "0")`. */
  function Pad2(n: nat): string
  {
    PadStart(NatToString(n), 2, '0')
  }

  /** "HH:MM:SS" when there is at least one hour, otherwise "MM:SS". */
  function FormatTime(seconds: nat): string
  {
    ClockText(seconds / 3600, (seconds % 3600) / 60, seconds % 60)
  }

  /** The clock text of an hour, minute and second count, each padded to two digits. */
  function ClockText(hours: nat, minutes: nat, rest: nat): string
  {
    if hours > 0 then Pad2(hours) + ":" + Pad2(minutes) + ":" + Pad2(rest)
    else Pad2(minutes) + ":" + Pad2(rest)
  }

  /** The colon-separated fields of a clock text. */
  function ClockFields(clock: string): seq<string>
  {
    Split(clock, ':')
  }

  /** The number of seconds a clock text denotes, reading its fields in base 60. */
  function ClockSeconds(clock: string): nat
  {
    Base60(ClockFields(clock))
  }

  function Base60(fields: seq<string>): nat
  {
    if fields == [] then 0 else Base60(fields[..|fields| - 1]) * 60 + ParseNat(fields[|fields| - 1])
  }

  lemma Pad2Digits(n: nat)
    ensures |Pad2(n)| >= 2
    ensures forall i :: 0 <= i < |Pad2(n)| ==> IsDigit(Pad2(n)[i])
    ensures ':' !in Pad2(n)
    ensures ParseNat(Pad2(n)) == n
  {
    var d := NatToString(n);
    var p := Pad2(n);
    var z := p[..|p| - |d|];
    assert p == z + d;
    ParseNatLeadingZeros(z, d);
    ParseNatToString(n);
  }

  lemma ClockDecomposition(seconds: nat)
    ensures ((seconds / 3600) * 60 + (seconds % 3600) / 60) * 60 + seconds % 60 == seconds
    ensures (seconds / 3600) * 60 + (seconds % 3600) / 60 == seconds / 60
    ensures (seconds % 3600) / 60 < 60
  {
    var h := seconds / 3600;
    var r := seconds % 3600;
    var m := r / 60;
    var s := r % 60;
    assert seconds == 3600 * h + r;
    assert r == 60 * m + s;
    assert seconds == 60 * (60 * h + m) + s;
    assert seconds % 60 == s;
    assert seconds / 60 == 60 * h + m;
  }

  /** The fields of a clock text are its padded counts. */
  lemma ClockTextFields(hours: nat, minutes: nat, rest: nat)
    ensures hours > 0 ==> ClockFields(ClockText(hours, minutes, rest)) == [Pad2(hours), Pad2(minutes), Pad2(rest)]
    ensures hours == 0 ==> ClockFields(ClockText(hours, minutes, rest)) == [Pad2(minutes), Pad2(rest)]
  {
    var a, b, c := Pad2(hours), Pad2(minutes), Pad2(rest);
    Pad2Digits(hours);
    Pad2Digits(minutes);
    Pad2Digits(rest);
    SplitNoSeparator(c, ':');
    SplitField(b, ':', c);
    assert b + ":" + c == b + [':'] + c;
    if hours > 0 {
      SplitField(a, ':', b + ":" + c);
      assert a + ":" + b + ":" + c == a + [':'] + (b + ":" + c);
    }
  }

  /** Each field of a formatted clock is at least two digits; there are three fields exactly when there is an hour. */
  lemma FormatTimeShape(seconds: nat)
    ensures |ClockFields(FormatTime(seconds))| == if seconds >= 3600 then 3 else 2
    ensures forall f :: f in ClockFields(FormatTime(seconds)) ==>
      |f| >= 2 && forall i :: 0 <= i < |f| ==> IsDigit(f[i])
  {
    ClockTextShape(seconds / 3600, (seconds % 3600) / 60, seconds % 60);
    HasHour(seconds);
  }

  lemma HasHour(seconds: nat)
    ensures seconds / 3600 > 0 <==> seconds >= 3600
  {
  }

  /** The clock text of any counts has two-digit fields, three of them exactly when there is an hour. */
  lemma ClockTextShape(hours: nat, minutes: nat, rest: nat)
    ensures |ClockFields(ClockText(hours, minutes, rest))| == if hours > 0 then 3 else 2
    ensures forall f :: f in ClockFields(ClockText(hours, minutes, rest)) ==>
      |f| >= 2 && forall i :: 0 <= i < |f| ==> IsDigit(f[i])
  {
    ClockTextFields(hours, minutes, rest);
    Pad2Digits(hours);
    Pad2Digits(minutes);
    Pad2Digits(rest);
    DigitFields(Pad2(hours), Pad2(minutes), Pad2(rest));
  }

  predicate DigitField(f: string)
  {
    |f| >= 2 && forall i :: 0 <= i < |f| ==> IsDigit(f[i])
  }

  lemma DigitFields(a: string, b: string, c: string)
    requires DigitField(a) && DigitField(b) && DigitField(c)
    ensures forall f :: f in [a, b, c] ==> DigitField(f)
    ensures forall f :: f in [b, c] ==> DigitField(f)
  {
  }

  /** Reading a formatted clock back in base 60 gives the number of seconds formatted. */
  lemma FormatTimeRoundTrip(seconds: nat)
    ensures ClockSeconds(FormatTime(seconds)) == seconds
  {
    var h, m, s := seconds / 3600, (seconds % 3600) / 60, seconds % 60;
    ClockTextFields(h, m, s);
    Pad2Digits(h);
    Pad2Digits(m);
    Pad2Digits(s);
    ClockDecomposition(seconds);
    var a, b, c := Pad2(h), Pad2(m), Pad2(s);
    Base60Fields(a, b, c);
    if h > 0 {
      assert ClockSeconds(FormatTime(seconds)) == Base60([a, b, c]);
    } else {
      assert ClockSeconds(FormatTime(seconds)) == Base60([b, c]);
    }
  }

  lemma Base60Fields(a: string, b: string, c: string)
    ensures Base60([b, c]) == ParseNat(b) * 60 + ParseNat(c)
    ensures Base60([a, b, c]) == (ParseNat(a) * 60 + ParseNat(b)) * 60 + ParseNat(c)
  {
    assert [a, b, c][..2] == [a, b];
    assert [a, b][..1] == [a];
    assert [b, c][..1] == [b];
    assert [a][..0] == [] && [b][..0] == [];
    assert Base60([a]) == ParseNat(a);
    assert Base60([b]) == ParseNat(b);
    assert Base60([a, b]) == ParseNat(a) * 60 + ParseNat(b);
  }

  // ---------------------------------------------------------------------
  // Duration formatting
  // ---------------------------------------------------------------------

  /** "{h}h {m}m" when there is at least one hour, otherwise "{m}m"; seconds are dropped. */
  function FormatDuration(seconds: nat): string
  {
    DurationText(seconds / 3600, (seconds % 3600) / 60)
  }

  /** The duration text of an hour and minute count. */
  function DurationText(hours: nat, minutes: nat): string
  {
    if hours > 0 then NatToString(hours) + "h " + NatToString(minutes) + "m"
    else NatToString(minutes) + "m"
  }

  /** The whole minutes a duration text denotes. */
  function DurationMinutes(text: string): nat
  {
    var body := if text != [] && text[|text| - 1] == 'm' then text[..|text| - 1] else text;
    var parts := Split(body, ' ');
    if |parts| == 2 && parts[0] != [] then ParseNat(parts[0][..|parts[0]| - 1]) * 60 + ParseNat(parts[1])
    else ParseNat(parts[0])
  }

  /** Reading a formatted duration back gives the whole minutes of the input. */
  lemma FormatDurationRoundTrip(seconds: nat)
    ensures DurationMinutes(FormatDuration(seconds)) == seconds / 60
  {
    ClockDecomposition(seconds);
    DurationTextRoundTrip(seconds / 3600, (seconds % 3600) / 60);
  }

  /** A duration text reads back as its hours times sixty plus its minutes. */
  lemma DurationTextRoundTrip(hours: nat, minutes: nat)
    ensures DurationMinutes(DurationText(hours, minutes)) == hours * 60 + minutes
  {
    var text := DurationText(hours, minutes);
    ParseNatToString(hours);
    ParseNatToString(minutes);
    var ms := NatToString(minutes);
    assert ' ' !in ms by {
      forall i | 0 <= i < |ms| ensures ms[i] != ' ' { assert IsDigit(ms[i]); }
    }
    SplitNoSeparator(ms, ' ');
    if hours > 0 {
      var hs := NatToString(hours) + "h";
      assert ' ' !in hs by {
        forall i | 0 <= i < |hs| ensures hs[i] != ' ' {
          if i < |hs| - 1 { assert IsDigit(NatToString(hours)[i]); }
        }
      }
      assert text[..|text| - 1] == hs + [' '] + ms;
      SplitField(hs, ' ', ms);
      assert hs[..|hs| - 1] == NatToString(hours);
    } else {
      assert text[..|text| - 1] == ms;
    }
  }

  // ---------------------------------------------------------------------
  // Performance bands
  // ---------------------------------------------------------------------

  /** How many of the thresholds `accuracy` reaches. */
  function ThresholdsReached(thresholds: seq<real>, accuracy: real): nat
  {
    if thresholds == [] then 0
    else (if accuracy >= thresholds[0] then 1 else 0) + ThresholdsReached(thresholds[1..], accuracy)
  }

  const LevelThresholds: seq<real> := [60.0, 70.0, 80.0, 90.0]
  const ColorThresholds: seq<real> := [60.0, 80.0]

  /** The position of a level name from "Needs Improvement" (0) to "Excellent" (4). */
  function LevelRank(level: string): nat
  {
    if level == "Excellent" then 4
    else if level == "Very Good" then 3
    else if level == "Good" then 2
    else if level == "Fair" then 1
    else 0
  }

  function ColorRank(color: string): nat
  {
    if color == "text-green-600" then 2 else if color == "text-yellow-600" then 1 else 0
  }

  /** The level's rank is the number of band thresholds (60, 70, 80, 90) the accuracy reaches. */
  function PerformanceLevel(accuracy: real): (level: string)
    ensures LevelRank(level) == ThresholdsReached(LevelThresholds, accuracy)
  {
    LevelThresholdsReached(accuracy);
    if accuracy >= 90.0 then "Excellent"
    else if accuracy >= 80.0 then "Very Good"
    else if accuracy >= 70.0 then "Good"
    else if accuracy >= 60.0 then "Fair"
    else "Needs Improvement"
  }

  /** The colour's rank is the number of thresholds (60, 80) the accuracy reaches. */
  function PerformanceColor(accuracy: real): (color: string)
    ensures ColorRank(color) == ThresholdsReached(ColorThresholds, accuracy)
  {
    ColorThresholdsReached(accuracy);
    if accuracy >= 80.0 then "text-green-600"
    else if accuracy >= 60.0 then "text-yellow-600"
    else "text-red-600"
  }

  lemma LevelThresholdsReached(a: real)
    ensures ThresholdsReached(LevelThresholds, a) ==
      (if a >= 60.0 then 1 else 0) + (if a >= 70.0 then 1 else 0) + (if a >= 80.0 then 1 else 0) + (if a >= 90.0 then 1 else 0)
  {
    assert ThresholdsReached([90.0], a) == if a >= 90.0 then 1 else 0 by {
      assert [90.0][1..] == [];
    }
    assert ThresholdsReached([80.0, 90.0], a) == (if a >= 80.0 then 1 else 0) + ThresholdsReached([90.0], a) by {
      assert [80.0, 90.0][1..] == [90.0];
    }
    assert ThresholdsReached([70.0, 80.0, 90.0], a) == (if a >= 70.0 then 1 else 0) + ThresholdsReached([80.0, 90.0], a) by {
      assert [70.0, 80.0, 90.0][1..] == [80.0, 90.0];
    }
    assert LevelThresholds[1..] == [70.0, 80.0, 90.0];
  }

  lemma ColorThresholdsReached(a: real)
    ensures ThresholdsReached(ColorThresholds, a) == (if a >= 60.0 then 1 else 0) + (if a >= 80.0 then 1 else 0)
  {
    var t := ColorThresholds;
    assert t[1..] == [80.0];
    assert ThresholdsReached([80.0], a) == if a >= 80.0 then 1 else 0 by {
      assert [80.0][1..] == [];
    }
  }

  lemma {:induction false} ThresholdsReachedMonotone(thresholds: seq<real>, a: real, b: real)
    requires a <= b
    ensures ThresholdsReached(thresholds, a) <= ThresholdsReached(thresholds, b)
  {
    if thresholds != [] {
      ThresholdsReachedMonotone(thresholds[1..], a, b);
    }
  }

  /** A higher accuracy never yields a lower level or colour. */
  lemma PerformanceMonotone(a: real, b: real)
    requires a <= b
    ensures LevelRank(PerformanceLevel(a)) <= LevelRank(PerformanceLevel(b))
    ensures ColorRank(PerformanceColor(a)) <= ColorRank(PerformanceColor(b))
  {
    ThresholdsReachedMonotone(LevelThresholds, a, b);
    ThresholdsReachedMonotone(ColorThresholds, a, b);
  }

  /** Green goes with the two top levels and yellow with the two middle ones. */
  lemma LevelAndColorAgree(accuracy: real)
    ensures PerformanceColor(accuracy) == "text-green-600" <==> LevelRank(PerformanceLevel(accuracy)) >= 3
    ensures PerformanceColor(accuracy) == "text-yellow-600" <==> LevelRank(PerformanceLevel(accuracy)) in {1, 2}
  {
  }

  // ---------------------------------------------------------------------
  // Answer options and the selected choice letter
  // ---------------------------------------------------------------------

  datatype AnswerOption = AnswerOption(id: string, content: string)

  /** `options.findIndex(opt => opt.id === id)`. */
  function FindOption(options: seq<AnswerOption>, id: string): (r: Option<nat>)
    ensures r.Some? ==> r.value < |options| && options[r.value].id == id
    ensures r.Some? ==> forall j :: 0 <= j < r.value ==> options[j].id != id
    ensures r.None? ==> forall j :: 0 <= j < |options| ==> options[j].id != id
  {
    if options == [] then None
    else if options[0].id == id then Some(0)
    else match FindOption(options[1..], id)
      case None => None
      case Some(k) => Some(k + 1)
  }

  /**
   * `String.fromCharCode(65 + index)` for the first option whose id is the
   * selected answer, as a UTF-16 code unit; `None` for an empty answer,
   * missing options or no such option.
   */
  function SelectedChoiceLetter(selectedAnswer: string, options: Option<seq<AnswerOption>>): (r: Option<nat>)
    ensures r.None? <==>
      selectedAnswer == [] || options.None? ||
      forall j :: 0 <= j < |options.value| ==> options.value[j].id != selectedAnswer
  {
    if selectedAnswer == [] || options.None? then None
    else match FindOption(options.value, selectedAnswer)
      case None => None
      case Some(i) => Some((65 + i) % 0x1_0000)
  }

  /** A selected letter is 'A' plus the position of the first option carrying the selected id. */
  lemma SelectedChoiceLetterFirst(selectedAnswer: string, options: Option<seq<AnswerOption>>)
    requires SelectedChoiceLetter(selectedAnswer, options).Some?
    ensures options.Some? && exists i ::
      && 0 <= i < |options.value|
      && options.value[i].id == selectedAnswer
      && (forall j :: 0 <= j < i ==> options.value[j].id != selectedAnswer)
      && SelectedChoiceLetter(selectedAnswer, options).value == (65 + i) % 0x1_0000
  {
    var i := FindOption(options.value, selectedAnswer).value;
    assert options.value[i].id == selectedAnswer;
  }

  // ---------------------------------------------------------------------
  // The shape of a parsed explanation
  // ---------------------------------------------------------------------

  datatype ParsedExplanation = ParsedExplanation(letter: char, content: string, isCorrect: bool, isSelected: bool)

  const Letters: seq<char> := ['A', 'B', 'C', 'D']
  const NoExplanation: string := "<p>No explanation available for this choice.</p>"

  /** The per-letter texts before any strategy runs. */
  const EmptyExplanations: map<char, string> := map['A' := "", 'B' := "", 'C' := "", 'D' := ""]

  function Entry(explanations: map<char, string>, letter: char): string
  {
    if letter in explanations then explanations[letter] else ""
  }

  /** The result array both explanation parsers build from their per-letter texts. */
  function BuildResult(explanations: map<char, string>, correctAnswer: string, selectedAnswer: string,
                       options: Option<seq<AnswerOption>>): (r: seq<ParsedExplanation>)
    ensures |r| == 4
    ensures forall i :: 0 <= i < 4 ==>
      && r[i].letter == Letters[i]
      && r[i].content != []
      && (r[i].isCorrect <==> correctAnswer == [Letters[i]])
      && (r[i].isSelected <==> SelectedChoiceLetter(selectedAnswer, options) == Some(Letters[i] as nat))
      && (Entry(explanations, Letters[i]) != [] ==> r[i].content == Entry(explanations, Letters[i]))
  {
    seq(4, i requires 0 <= i < 4 =>
      var letter := Letters[i];
      var text := Entry(explanations, letter);
      ParsedExplanation(
        letter,
        if text != [] then text else NoExplanation,
        correctAnswer == [letter],
        SelectedChoiceLetter(selectedAnswer, options) == Some(letter as nat)))
  }

  /**
   * An entry is marked selected exactly when the selected answer is the id of
   * the option at that letter's position and of no earlier option.
   */
  lemma SelectedEntry(explanations: map<char, string>, correctAnswer: string, selectedAnswer: string,
                      options: seq<AnswerOption>, k: nat)
    requires k < 4 && selectedAnswer != [] && |options| <= 0x1_0000
    ensures BuildResult(explanations, correctAnswer, selectedAnswer, Some(options))[k].isSelected <==>
      k < |options| && options[k].id == selectedAnswer &&
      forall j :: 0 <= j < k ==> options[j].id != selectedAnswer
  {
    assert Letters[k] as nat == 65 + k;
    SelectedLetterAt(selectedAnswer, options, k);
  }

  /** The selected letter is the UTF-16 code of letter k exactly when option k is the first one with the selected id. */
  lemma SelectedLetterAt(selectedAnswer: string, options: seq<AnswerOption>, k: nat)
    requires k < 4 && selectedAnswer != [] && |options| <= 0x1_0000
    ensures SelectedChoiceLetter(selectedAnswer, Some(options)) == Some(65 + k) <==>
      k < |options| && options[k].id == selectedAnswer &&
      forall j :: 0 <= j < k ==> options[j].id != selectedAnswer
  {
    match FindOption(options, selectedAnswer)
    case None =>
    case Some(i) =>
      if 65 + i >= 0x1_0000 {
        assert (65 + i) % 0x1_0000 == 65 + i - 0x1_0000;
      }
  }

  // ---------------------------------------------------------------------
  // The four strategies of the older explanation splitter
  // ---------------------------------------------------------------------

  /** A paragraph of the parsed rationale: its `textContent` and its `outerHTML`. */
  datatype Paragraph = Paragraph(text: string, outerHtml: string)

  /** A sentence the "X is correct / incorrect / the best answer" pattern recognised, with its upper-cased letter. */
  datatype SentenceHit = SentenceHit(letter: char, sentence: string)

  predicate IsChoiceLetter(c: char)
  {
    'A' <= UpperAscii(c) <= 'D'
  }

  /** `/^Choice ([A-D])/i` matches the text. */
  predicate StartsWithChoice(text: string)
  {
    |text| >= 8 && MatchAtIgnoreCase(text, 0, "Choice ") && IsChoiceLetter(text[7])
  }

  /** The state strategy 1 carries across paragraphs. */
  datatype ParagraphScan = ParagraphScan(explanations: map<char, string>, current: Option<char>, found: bool)

  /** One paragraph of strategy 1: a "Choice X" paragraph starts letter X, later non-blank ones are appended to it. */
  function ScanParagraph(st: ParagraphScan, p: Paragraph): ParagraphScan
  {
    if StartsWithChoice(p.text) then
      var letter := UpperAscii(p.text[7]);
      ParagraphScan(st.explanations[letter := p.outerHtml], Some(letter), true)
    else if st.current.Some? && Trim(p.text) != [] then
      var letter := st.current.value;
      ParagraphScan(st.explanations[letter := Entry(st.explanations, letter) + "<br/>" + p.outerHtml], st.current, st.found)
    else st
  }

  /** Strategy 1 over the first paragraphs. */
  function ScanParagraphs(paragraphs: seq<Paragraph>): ParagraphScan
  {
    if paragraphs == [] then ParagraphScan(EmptyExplanations, None, false)
    else ScanParagraph(ScanParagraphs(paragraphs[..|paragraphs| - 1]), paragraphs[|paragraphs| - 1])
  }

  /** `/Choice ([A-D])[:\s]/i` matches at index `i`: nine characters ending in a colon or white space. */
  predicate MarkerAt(text: string, i: int)
  {
    0 <= i && i + 9 <= |text| && MatchAtIgnoreCase(text, i, "Choice ") && IsChoiceLetter(text[i + 7]) &&
    (text[i + 8] == ':' || IsJsSpace(text[i + 8]))
  }

  /** Markers are strictly ascending, nine characters apart at least, and fit in the text. */
  ghost predicate WellSpaced(text: string, markers: seq<nat>)
  {
    && (forall k :: 0 <= k < |markers| ==> markers[k] + 9 <= |text|)
    && (forall a, b :: 0 <= a < b < |markers| ==> markers[a] + 9 <= markers[b])
  }

  /** The indices `matchAll` reports from `from` on: after a match the search resumes past it. */
  function MarkersFrom(text: string, from: nat): (r: seq<nat>)
    ensures WellSpaced(text, r)
    ensures forall k :: 0 <= k < |r| ==> from <= r[k] && MarkerAt(text, r[k])
    decreases |text| - from
  {
    if from >= |text| then []
    else if MarkerAt(text, from) then [from] + MarkersFrom(text, from + 9)
    else MarkersFrom(text, from + 1)
  }

  /** Two markers never overlap, so resuming past a match loses no match. */
  lemma MarkersDoNotOverlap(text: string, i: int, j: int)
    requires MarkerAt(text, i) && i < j < i + 9
    ensures !MarkerAt(text, j)
  {
    MarkerCharacters(text, i);
    MarkerCharacters(text, j);
    var d := j - i;
    if d == 4 {
      assert j + 1 == i + 5;
    } else if d == 7 {
      assert j + 1 == i + 8;
    } else if d == 8 {
      assert j == i + 8;
    } else {
      assert LowerAscii(text[i + d]) != 'c';
    }
  }

  /** Every match at or after `from` is reported: the search never skips one. */
  lemma {:induction false} MarkersComplete(text: string, from: nat, i: nat)
    requires from <= i && MarkerAt(text, i)
    ensures i in MarkersFrom(text, from)
    decreases |text| - from
  {
    if MarkerAt(text, from) {
      MarkersFromMatch(text, from);
      if from < i {
        MatchesApart(text, from, i);
        MarkersComplete(text, from + 9, i);
      }
    } else {
      MarkersFromSkip(text, from);
      MarkersComplete(text, from + 1, i);
    }
  }

  /** A later match starts at least nine characters after an earlier one. */
  lemma MatchesApart(text: string, i: nat, j: nat)
    requires MarkerAt(text, i) && MarkerAt(text, j) && i < j
    ensures i + 9 <= j
  {
    if j < i + 9 {
      MarkersDoNotOverlap(text, i, j);
    }
  }

  lemma MarkersFromMatch(text: string, from: nat)
    requires MarkerAt(text, from)
    ensures from in MarkersFrom(text, from)
    ensures forall x :: x in MarkersFrom(text, from + 9) ==> x in MarkersFrom(text, from)
  {
    assert MarkersFrom(text, from) == [from] + MarkersFrom(text, from + 9);
  }

  lemma MarkersFromSkip(text: string, from: nat)
    requires from < |text| && !MarkerAt(text, from)
    ensures MarkersFrom(text, from) == MarkersFrom(text, from + 1)
  {
  }

  /** What a marker's nine characters are. */
  lemma MarkerCharacters(text: string, i: int)
    ensures MarkerAt(text, i) ==>
      && LowerAscii(text[i]) == 'c' && LowerAscii(text[i + 1]) == 'h' && LowerAscii(text[i + 2]) == 'o'
      && LowerAscii(text[i + 3]) == 'i' && LowerAscii(text[i + 4]) == 'c' && LowerAscii(text[i + 5]) == 'e'
      && text[i + 6] == ' ' && IsChoiceLetter(text[i + 7])
      && LowerAscii(text[i + 8]) != 'c' && LowerAscii(text[i + 8]) != 'h'
  {
    if MarkerAt(text, i) {
      var p := "Choice ";
      assert LowerAscii(text[i + 0]) == LowerAscii(p[0]);
      assert LowerAscii(text[i + 1]) == LowerAscii(p[1]);
      assert LowerAscii(text[i + 2]) == LowerAscii(p[2]);
      assert LowerAscii(text[i + 3]) == LowerAscii(p[3]);
      assert LowerAscii(text[i + 4]) == LowerAscii(p[4]);
      assert LowerAscii(text[i + 5]) == LowerAscii(p[5]);
      assert LowerAscii(text[i + 6]) == LowerAscii(p[6]);
    }
  }

  /** The text between the end of marker `k` and the start of the next marker (or the end), trimmed. */
  function Segment(text: string, markers: seq<nat>, k: nat): string
    requires WellSpaced(text, markers) && k < |markers|
  {
    var start := markers[k] + 9;
    var end := if k + 1 < |markers| then markers[k + 1] else |text|;
    Trim(text[start..end])
  }

  /** A marker's upper-cased letter with the text that follows it. */
  datatype ChoiceSegment = ChoiceSegment(letter: char, content: string)

  /** Each marker's upper-cased letter with its segment. */
  function MarkerSegments(text: string, markers: seq<nat>): (r: seq<ChoiceSegment>)
    requires WellSpaced(text, markers)
    ensures |r| == |markers|
  {
    seq(|markers|, k requires 0 <= k < |markers| => ChoiceSegment(UpperAscii(text[markers[k] + 7]), Segment(text, markers, k)))
  }

  /** Strategy 2 after the first `n` segments: a non-empty segment overwrites its letter's text. */
  function FillSegments(segments: seq<ChoiceSegment>, n: nat): map<char, string>
    requires n <= |segments|
  {
    if n == 0 then EmptyExplanations
    else
      var explanations := FillSegments(segments, n - 1);
      var letter := segments[n - 1].letter;
      var content := segments[n - 1].content;
      if content != [] then explanations[letter := "<p>" + content + "</p>"] else explanations
  }

  /** Strategy 3 after the first `n` recognised sentences, with whether any of them counted. */
  function FillSentences(hits: seq<SentenceHit>, n: nat): (map<char, string>, bool)
    requires n <= |hits|
  {
    if n == 0 then (EmptyExplanations, false)
    else
      var (explanations, found) := FillSentences(hits, n - 1);
      var hit := hits[n - 1];
      if hit.sentence == [] then (explanations, found)
      else
        var previous := Entry(explanations, hit.letter);
        var addition := "<p>" + hit.sentence + ".</p>";
        (explanations[hit.letter := if previous != [] then previous + "<br/>" + addition else addition], true)
  }

  /** Strategy 4: every letter gets the whole explanation. */
  function GeneralExplanation(explanation: string): (r: map<char, string>)
    ensures forall l :: l in Letters ==> l in r && r[l] == explanation
  {
    map['A' := explanation, 'B' := explanation, 'C' := explanation, 'D' := explanation]
  }

  /** The per-letter texts of the first strategy that succeeds. */
  function Explanations(explanation: string, paragraphs: seq<Paragraph>, hits: seq<SentenceHit>): map<char, string>
  {
    var byParagraph := ScanParagraphs(paragraphs);
    var markers := MarkersFrom(explanation, 0);
    var bySentence := FillSentences(hits, |hits|);
    if byParagraph.found then byParagraph.explanations
    else if |markers| > 0 then FillSegments(MarkerSegments(explanation, markers), |markers|)
    else if bySentence.1 then bySentence.0
    else GeneralExplanation(explanation)
  }

  /** Strategy 2 with each letter marked once: every marked letter holds its own wrapped segment. */
  lemma {:induction false} SegmentsOfDistinctLetters(segments: seq<ChoiceSegment>, n: nat, k: nat)
    requires k < n <= |segments|
    requires forall a, b :: 0 <= a < b < |segments| ==> segments[a].letter != segments[b].letter
    requires segments[k].letter in Letters
    ensures Entry(FillSegments(segments, n), segments[k].letter) ==
      if segments[k].content != [] then "<p>" + segments[k].content + "</p>" else ""
  {
    if k < n - 1 {
      SegmentsOfDistinctLetters(segments, n - 1, k);
    } else {
      UntouchedLetter(segments, n - 1, segments[k].letter);
    }
  }

  /** A letter no segment among the first `n` names keeps its empty text. */
  lemma {:induction false} UntouchedLetter(segments: seq<ChoiceSegment>, n: nat, letter: char)
    requires n <= |segments|
    requires letter in Letters
    requires forall k :: 0 <= k < n ==> segments[k].letter != letter
    ensures Entry(FillSegments(segments, n), letter) == ""
  {
    if n > 0 {
      UntouchedLetter(segments, n - 1, letter);
    }
  }

  /** When strategies 1 to 3 all find nothing, all four choices get the whole explanation. */
  lemma GeneralFallback(explanation: string, paragraphs: seq<Paragraph>, hits: seq<SentenceHit>)
    requires !ScanParagraphs(paragraphs).found
    requires MarkersFrom(explanation, 0) == []
    requires !FillSentences(hits, |hits|).1
    ensures forall l :: l in Letters ==> Entry(Explanations(explanation, paragraphs, hits), l) == explanation
  {
  }

  // ---------------------------------------------------------------------
  // The splitter itself
  // ---------------------------------------------------------------------

  /**
   * `parseExplanation`: [] for an empty explanation, otherwise the four
   * entries A-D built from the first strategy that succeeds.
   */
  method ParseExplanation(explanation: string, correctAnswer: string, selectedAnswer: string,
                          options: Option<seq<AnswerOption>>, paragraphs: seq<Paragraph>,
                          hits: seq<SentenceHit>)
    returns (result: seq<ParsedExplanation>)
    ensures explanation == [] ==> result == []
    ensures explanation != [] ==>
      result == BuildResult(Explanations(explanation, paragraphs, hits), correctAnswer, selectedAnswer, options)
  {
    if explanation == [] {
      return [];
    }
    var explanations, found := ParseIndividualChoices(paragraphs);
    if !found {
      var markers := FindMarkers(explanation);
      if |markers| > 0 {
        explanations := ParseChoicePatterns(MarkerSegments(explanation, markers));
      } else {
        explanations, found := ParseCorrectIncorrectPatterns(hits);
        if !found {
          explanations := GeneralExplanation(explanation);
        }
      }
    }
    result := BuildResult(explanations, correctAnswer, selectedAnswer, options);
  }

  /** Strategy 1: paragraphs that start with "Choice X" open that letter; later non-blank ones are appended. */
  method ParseIndividualChoices(paragraphs: seq<Paragraph>) returns (explanations: map<char, string>, found: bool)
    ensures ParagraphScan(explanations, ScanParagraphs(paragraphs).current, found) == ScanParagraphs(paragraphs)
    ensures !found ==> explanations == EmptyExplanations
  {
    explanations := EmptyExplanations;
    var current: Option<char> := None;
    found := false;
    var i := 0;
    while i < |paragraphs|
      invariant 0 <= i <= |paragraphs|
      invariant ScanParagraphs(paragraphs[..i]) == ParagraphScan(explanations, current, found)
      invariant !found ==> current.None? && explanations == EmptyExplanations
    {
      assert paragraphs[..i + 1][..i] == paragraphs[..i];
      var p := paragraphs[i];
      if StartsWithChoice(p.text) {
        current := Some(UpperAscii(p.text[7]));
        explanations := explanations[current.value := p.outerHtml];
        found := true;
      } else if current.Some? && Trim(p.text) != [] {
        var letter := current.value;
        explanations := explanations[letter := Entry(explanations, letter) + "<br/>" + p.outerHtml];
      }
      i := i + 1;
    }
    assert paragraphs[..|paragraphs|] == paragraphs;
  }

  /** Strategy 2: each marker's letter gets the trimmed text up to the next marker, when that is not empty. */
  method ParseChoicePatterns(segments: seq<ChoiceSegment>) returns (explanations: map<char, string>)
    ensures explanations == FillSegments(segments, |segments|)
  {
    explanations := EmptyExplanations;
    var k := 0;
    while k < |segments|
      invariant 0 <= k <= |segments|
      invariant explanations == FillSegments(segments, k)
    {
      var segment := segments[k];
      if segment.content != [] {
        explanations := explanations[segment.letter := "<p>" + segment.content + "</p>"];
      }
      k := k + 1;
    }
  }

  /** Strategy 3: each recognised sentence is appended to its letter's text. */
  method ParseCorrectIncorrectPatterns(hits: seq<SentenceHit>) returns (explanations: map<char, string>, found: bool)
    ensures (explanations, found) == FillSentences(hits, |hits|)
  {
    explanations := EmptyExplanations;
    found := false;
    var k := 0;
    while k < |hits|
      invariant 0 <= k <= |hits|
      invariant FillSentences(hits, k) == (explanations, found)
    {
      var hit := hits[k];
      if hit.sentence != [] {
        var previous := Entry(explanations, hit.letter);
        var addition := "<p>" + hit.sentence + ".</p>";
        explanations := explanations[hit.letter := if previous != [] then previous + "<br/>" + addition else addition];
        found := true;
      }
      k := k + 1;
    }
  }

  /** The scan `[...text.matchAll(/Choice ([A-D])[:\s]/gi)]` performs, as match indices. */
  method FindMarkers(text: string) returns (markers: seq<nat>)
    ensures markers == MarkersFrom(text, 0)
  {
    markers := [];
    var i := 0;
    while i < |text|
      invariant 0 <= i <= |text|
      invariant markers + MarkersFrom(text, i) == MarkersFrom(text, 0)
    {
      if MarkerAt(text, i) {
        MarkerTaken(text, markers, i);
        markers := markers + [i];
        i := i + 9;
      } else {
        i := i + 1;
      }
    }
  }

  /** A match at i joins the list found so far, and the scan resumes past it. */
  lemma MarkerTaken(text: string, markers: seq<nat>, i: nat)
    requires i < |text| && MarkerAt(text, i)
    ensures markers + MarkersFrom(text, i) == (markers + [i]) + MarkersFrom(text, i + 9)
  {
    assert MarkersFrom(text, i) == [i] + MarkersFrom(text, i + 9);
  }
}
