/** utils/summarizer.py around its two foreign calls.  The BART summariser and
    the Google translator are parameters: functions whose outcome is either a value
    or a raised exception's message. */
module Summarizer {
  import opened Text

  /** What a foreign call does: return a value or raise. */
  datatype Outcome<T> = Produced(value: T) | Raised(message: string)

  /** The separator `extract_key_points` splits on: exactly ". ". */
  const Separator: string := ". "

  /** One key point: the stripped segment with "." appended. */
  function Point(segment: string): (p: string)
    ensures |p| > 0 && p[|p| - 1] == '.'
  {
    Strip(segment) + "."
  }

  /** The `if point` filter of `extract_key_points`: the non-empty segments, in order. */
  function NonEmptySegments(segments: seq<string>): (r: seq<string>)
    ensures |r| <= |segments|
    ensures forall x :: x in r <==> x in segments && x != ""
  {
    if segments == [] then []
    else if segments[0] == "" then NonEmptySegments(segments[1..])
    else [segments[0]] + NonEmptySegments(segments[1..])
  }

  /** The filter distributes over concatenation, so it keeps the original order. */
  lemma {:induction false} NonEmptySegmentsAppend(a: seq<string>, b: seq<string>)
    ensures NonEmptySegments(a + b) == NonEmptySegments(a) + NonEmptySegments(b)
  {
    if a == [] {
      assert a + b == b;
    } else {
      assert (a + b)[0] == a[0] && (a + b)[1..] == a[1..] + b;
      NonEmptySegmentsAppend(a[1..], b);
    }
  }

  /** With no empty segment the filter keeps everything. */
  lemma {:induction false} NonEmptySegmentsAll(segments: seq<string>)
    requires forall k :: 0 <= k < |segments| ==> segments[k] != ""
    ensures NonEmptySegments(segments) == segments
  {
    if segments != [] {
      NonEmptySegmentsAll(segments[1..]);
      assert [segments[0]] + segments[1..] == segments;
    }
  }

  /** A list comprehension's map part: `[f(x) for x in xs]`. */
  function MapSeq(f: string -> string, xs: seq<string>): (r: seq<string>)
    ensures |r| == |xs| && forall k :: 0 <= k < |xs| ==> r[k] == f(xs[k])
  {
    seq(|xs|, k requires 0 <= k < |xs| => f(xs[k]))
  }

  /** Mapping distributes over concatenation. */
  lemma MapSeqAppend(f: string -> string, a: seq<string>, b: seq<string>)
    ensures MapSeq(f, a + b) == MapSeq(f, a) + MapSeq(f, b)
  {
    assert forall k :: 0 <= k < |a + b| ==> (a + b)[k] == if k < |a| then a[k] else b[k - |a|];
  }

  /** `[point.strip() + '.' for point in segments if point]` */
  function KeepPoints(segments: seq<string>): (r: seq<string>)
    ensures |r| <= |segments|
    ensures forall k :: 0 <= k < |r| ==> |r[k]| > 0 && r[k][|r[k]| - 1] == '.'
  {
    MapSeq(Point, NonEmptySegments(segments))
  }

  /** Keeping points distributes over concatenation: order is preserved. */
  lemma KeepPointsAppend(a: seq<string>, b: seq<string>)
    ensures KeepPoints(a + b) == KeepPoints(a) + KeepPoints(b)
  {
    NonEmptySegmentsAppend(a, b);
    MapSeqAppend(Point, NonEmptySegments(a), NonEmptySegments(b));
  }

  /** Only segments empty before stripping are dropped; a non-empty one, even a
      blank one, yields exactly one point. */
  lemma KeepPointsSingle(segment: string)
    ensures segment == "" ==> KeepPoints([segment]) == []
    ensures segment != "" ==> KeepPoints([segment]) == [Point(segment)]
  {
    assert [segment][1..] == [];
  }

  /** When no segment is empty, the i-th point comes from the i-th segment. */
  lemma KeepPointsNoneEmpty(segments: seq<string>)
    requires forall k :: 0 <= k < |segments| ==> segments[k] != ""
    ensures |KeepPoints(segments)| == |segments|
    ensures forall k :: 0 <= k < |segments| ==> KeepPoints(segments)[k] == Point(segments[k])
  {
    NonEmptySegmentsAll(segments);
  }

  /** `extract_key_points`: split on ". ", keep the first three segments, drop the
      empty ones, strip the rest and end each with ".". */
  function ExtractKeyPoints(summary: string): (r: seq<string>)
    ensures |r| <= 3
    ensures forall k :: 0 <= k < |r| ==> |r[k]| > 0 && r[k][|r[k]| - 1] == '.'
  {
    var segments := Split(summary, Separator);
    KeepPoints(if |segments| <= 3 then segments else segments[..3])
  }

  /** A summary whose first segments are all non-empty yields one point per segment,
      in order, from segments whose ". "-join is the summary again. */
  lemma ExtractKeyPointsSegments(summary: string)
    requires forall k :: 0 <= k < |Split(summary, Separator)| ==> Split(summary, Separator)[k] != ""
    ensures var segments := Split(summary, Separator);
      && Join(Separator, segments) == summary
      && |ExtractKeyPoints(summary)| == (if |segments| <= 3 then |segments| else 3)
      && forall k :: 0 <= k < |ExtractKeyPoints(summary)| ==> ExtractKeyPoints(summary)[k] == Point(segments[k])
  {
    var segments := Split(summary, Separator);
    var first := if |segments| <= 3 then segments else segments[..3];
    JoinSplit(summary, Separator);
    KeepPointsNoneEmpty(first);
  }

  /** The last two segments of the example below. */
  lemma SplitTwoSegments()
    ensures SplitFrom("C. D", Separator, "") == ["C", "D"]
  {
    SplitShort("D", Separator);
    assert "C. D" == ['C'] + Separator + "D";
    SplitOffChar('C', "D", Separator, "");
    assert "" + ['C'] == "C";
  }

  /** The last three segments of the example below. */
  lemma SplitThreeSegments()
    ensures SplitFrom("B. C. D", Separator, "") == ["B", "C", "D"]
  {
    SplitTwoSegments();
    assert "B. C. D" == ['B'] + Separator + "C. D";
    SplitOffChar('B', "C. D", Separator, "");
    assert "" + ['B'] == "B";
  }

  /** Every occurrence of ". " separates two segments. */
  lemma SplitFourSegments()
    ensures Split("A. B. C. D", Separator) == ["A", "B", "C", "D"]
  {
    SplitThreeSegments();
    assert "A. B. C. D" == ['A'] + Separator + "B. C. D";
    SplitOffChar('A', "B. C. D", Separator, "");
    assert "" + ['A'] == "A";
  }

  /** A summary that never contains ". " is one point, so a final "." is doubled. */
  lemma ExtractKeyPointsWhole(summary: string)
    requires summary != ""
    requires forall i :: 0 <= i <= |summary| ==> !StartsWith(summary[i..], Separator)
    ensures ExtractKeyPoints(summary) == [Strip(summary) + "."]
    ensures Strip(summary) == summary && summary[|summary| - 1] == '.' ==>
              ExtractKeyPoints(summary)[0][|summary| - 1..] == ".."
  {
    SplitNoSep(summary, Separator);
    KeepPointsSingle(summary);
  }

  /** A segment that is blank but not empty survives as the point ".". */
  lemma BlankSegmentPoint(segment: string)
    requires segment != "" && AllSpace(segment)
    ensures KeepPoints([segment]) == ["."]
  {
    KeepPointsSingle(segment);
    assert Point(segment) == Strip(segment) + "." == ".";
  }

  /** Splitting is on the exact two-character separator: a blank middle segment is
      kept (and becomes "." by `BlankSegmentPoint`). */
  lemma SplitBlankSegment()
    ensures Split("a.  . b", Separator) == ["a", " ", "b"]
  {
    SplitShort("b", Separator);
    assert " . b" == [' '] + Separator + "b";
    SplitOffChar(' ', "b", Separator, "");
    assert "a.  . b" == ['a'] + Separator + " . b";
    SplitOffChar('a', " . b", Separator, "");
    assert "" + ['a'] == "a" && "" + [' '] == " ";
  }

  /** An empty summary has no key points. */
  lemma ExtractKeyPointsEmpty()
    ensures ExtractKeyPoints("") == []
  {
    KeepPointsSingle("");
  }

  /** The summariser's length bounds. */
  datatype LengthConfig = LengthConfig(maxLength: nat, minLength: nat)

  /** `length_config.get(length, length_config["medium"])` */
  function LengthConfigFor(length: string): (c: LengthConfig)
    ensures c.minLength < c.maxLength
    ensures length != "short" && length != "long" ==> c == LengthConfig(150, 60)
  {
    match length
    case "short" => LengthConfig(75, 30)
    case "long" => LengthConfig(250, 100)
    case _ => LengthConfig(150, 60)
  }

  lemma LengthConfigTable()
    ensures LengthConfigFor("short") == LengthConfig(75, 30)
    ensures LengthConfigFor("medium") == LengthConfig(150, 60)
    ensures LengthConfigFor("long") == LengthConfig(250, 100)
    ensures LengthConfigFor("Short") == LengthConfigFor("medium")
  {
  }

  /** `max_input_length` */
  const MaxInputWords := 1024

  /** The input cut of `generate_summary`: a text of more than 1024 words becomes its
      first 1024 words joined by single spaces; any other text is left alone. */
  function TruncateInput(text: string): (r: string)
    ensures |Words(text)| <= MaxInputWords ==> r == text
    ensures |Words(text)| > MaxInputWords ==> r == Join(" ", Words(text)[..MaxInputWords])
    ensures |Words(text)| > MaxInputWords ==> Words(r) == Words(text)[..MaxInputWords]
    ensures |Words(r)| <= MaxInputWords
  {
    var words := Words(text);
    if |words| > MaxInputWords then
      WordsOfJoin(words[..MaxInputWords]);
      Join(" ", words[..MaxInputWords])
    else text
  }

  /** The dictionary `generate_summary` returns. */
  datatype SummaryResult =
    | Summary(summary: string, keyPoints: seq<string>)   // "success": True
    | SummaryFailed(error: string)                       // "success": False

  /** `generate_summary`: the summariser is called once, on the truncated text with the
      configured bounds; its text and the key points drawn from it make up the success
      result, and an exception becomes a failure carrying its message. */
  function GenerateSummary(text: string, length: string,
                           summarize: (string, LengthConfig) -> Outcome<string>): (r: SummaryResult)
    ensures r.Summary? <==> summarize(TruncateInput(text), LengthConfigFor(length)).Produced?
    ensures r.Summary? ==>
      && r.summary == summarize(TruncateInput(text), LengthConfigFor(length)).value
      && r.keyPoints == ExtractKeyPoints(r.summary)
      && |r.keyPoints| <= 3
    ensures r.SummaryFailed? ==> r.error == summarize(TruncateInput(text), LengthConfigFor(length)).message
  {
    match summarize(TruncateInput(text), LengthConfigFor(length))
    case Produced(summary) => Summary(summary, ExtractKeyPoints(summary))
    case Raised(message) => SummaryFailed(message)
  }

  /** `translate_text`: English or an empty target returns the text as it is, and so
      does a translator that raises; otherwise the translator's answer is returned. */
  function TranslateText(text: string, target: string,
                         translate: (string, string) -> Outcome<string>): (r: string)
    ensures target == "en" || target == "" ==> r == text
    ensures target != "en" && target != "" && translate(text, target).Raised? ==> r == text
    ensures target != "en" && target != "" && translate(text, target).Produced? ==>
              r == translate(text, target).value
  {
    if target == "en" || target == "" then text
    else match translate(text, target)
      case Produced(translated) => translated
      case Raised(_) => text
  }
}
