/**
 * What one frame of detector output turns into: the label of a class id,
 * the text and geometry of a display slot, the list of hole centres sent to
 * the server and the lines of the diagnostic summary. Everything here is a
 * value; the class in module Sample applies it to its state.
 */
module Detections {
  import opened Wrappers
  import opened Numerals
  import opened Geometry

  /** One entry of the detector's ordered output (`EfficientDet.Result`). */
  datatype Result = Result(classId: int, score: real, rect: Rect)

  /** One hole sent to the server: the centre of a box and its score. */
  datatype HoleInfo = HoleInfo(x: real, y: real, score: real)

  /** The outbound message `{"holes": [...]}`, before serialisation. */
  datatype HoleWrapper = HoleWrapper(holes: seq<HoleInfo>)

  /** A pre-allocated frame widget: whether it is shown, its text, its corner and its extent. */
  datatype Slot = Slot(active: bool, text: string, anchoredPosition: Vec2, sizeDelta: Vec2)

  /** The label of a class id, with no offset; "?" for an id outside the label list. */
  function GetLabelName(labels: seq<string>, id: int): (name: string)
    ensures id < 0 || id >= |labels| ==> name == "?"
    ensures 0 <= id < |labels| ==> name == labels[id]
    ensures name == "?" || name in labels
  {
    if id < 0 || id >= |labels| then "?" else labels[id]
  }

  /** The threshold test shared by the slot update, the summary and the hole list. */
  predicate Qualifies(r: Result, threshold: real)
  {
    r.score >= threshold
  }

  /** The hole reported for a detection: the centre of its box, with its score. */
  function HoleOf(r: Result): (h: HoleInfo)
    ensures h.score == r.score
    ensures h.x - r.rect.x == r.rect.x + r.rect.width - h.x
    ensures h.y - r.rect.y == r.rect.y + r.rect.height - h.y
  {
    HoleInfo(r.rect.x + r.rect.width / 2.0, r.rect.y + r.rect.height / 2.0, r.score)
  }

  /** A score as a percentage, `score * 100`, as both the caption and the summary show it. */
  function Percent(score: real): real
  {
    score * 100.0
  }

  /** A visible slot's caption: the label, " : ", the truncated percentage and "%". */
  function FrameText(labels: seq<string>, r: Result): string
  {
    GetLabelName(labels, r.classId) + " : " + IntToString(TruncToInt(Percent(r.score))) + "%"
  }

  /** Reads the percentage back out of a caption that starts with `name`. */
  function ParseCaption(text: string, name: string): Option<int>
  {
    var n := |name| + 3;
    if |text| > n && text[..n] == name + " : " && text[|text| - 1] == '%' then ParseInt(text[n..|text| - 1])
    else None
  }

  lemma CaptionRoundTrip(name: string, v: int)
    ensures ParseCaption(name + " : " + IntToString(v) + "%", name) == Some(v)
  {
    var p := IntToString(v);
    var t := name + " : " + p + "%";
    assert t[..|name| + 3] == name + " : ";
    assert t[|name| + 3..|t| - 1] == p;
    IntToStringRoundTrip(v);
  }

  /** The caption reads back as the truncated percentage. */
  lemma FrameTextReadsBack(labels: seq<string>, r: Result)
    ensures ParseCaption(FrameText(labels, r), GetLabelName(labels, r.classId)) == Some(TruncToInt(Percent(r.score)))
  {
    var name := GetLabelName(labels, r.classId);
    var v := TruncToInt(Percent(r.score));
    assert FrameText(labels, r) == name + " : " + IntToString(v) + "%";
    CaptionRoundTrip(name, v);
  }

  /** For a score in [0, 1] the caption's percentage lies in 0..100. */
  lemma CaptionPercentInRange(score: real)
    requires 0.0 <= score <= 1.0
    ensures 0 <= TruncToInt(Percent(score)) <= 100
  {
  }

  /**
   * One slot after `SetFrame`: hidden when the score is below the threshold,
   * with text, corner and extent left as they were; otherwise shown with the
   * caption and the box mapped into the container of size `size`.
   */
  function SetFrameSpec(slot: Slot, r: Result, size: Vec2, labels: seq<string>, threshold: real): (s: Slot)
    ensures s.active <==> Qualifies(r, threshold)
    ensures !s.active ==>
              s.text == slot.text && s.anchoredPosition == slot.anchoredPosition && s.sizeDelta == slot.sizeDelta
  {
    if r.score < threshold then slot.(active := false)
    else Slot(true, FrameText(labels, r), AnchoredPosition(r.rect, size), SizeDelta(r.rect, size))
  }

  /** A shown slot carries the detection's caption, and its geometry maps back to the detection's box. */
  lemma VisibleSlotShowsDetection(slot: Slot, r: Result, size: Vec2, labels: seq<string>, threshold: real)
    requires Qualifies(r, threshold)
    requires size.x != 0.0 && size.y != 0.0
    ensures var s := SetFrameSpec(slot, r, size, labels, threshold);
            s.active && s.text == FrameText(labels, r) &&
            DetectorRect(s.anchoredPosition, s.sizeDelta, size) == r.rect
  {
    DisplayRoundTrip(r.rect, size);
  }

  /**
   * The passing results among the first `n`, in their original order, each
   * turned into an entry by `f` from its 0-based index and the result. The
   * hole list, the summary lines and the list of passing indices are all of
   * this form.
   */
  function Picked<T>(results: seq<Result>, threshold: real, n: nat, f: (nat, Result) -> T): seq<T>
    requires n <= |results|
  {
    if n == 0 then []
    else Picked(results, threshold, n - 1, f) + (if Qualifies(results[n - 1], threshold) then [f(n - 1, results[n - 1])] else [])
  }

  /** The indices, among the first `n` results, of those that pass the threshold, in order. */
  function QualifyingIndices(results: seq<Result>, threshold: real, n: nat): seq<nat>
    requires n <= |results|
  {
    Picked(results, threshold, n, (i: nat, r: Result) => i)
  }

  /** The hole list built from the first `n` results. */
  function Holes(results: seq<Result>, threshold: real, n: nat): seq<HoleInfo>
    requires n <= |results|
  {
    Picked(results, threshold, n, HoleAt)
  }

  /** The hole-list entry for the result at index `i`; the index plays no part. */
  function HoleAt(i: nat, r: Result): HoleInfo
  {
    HoleOf(r)
  }

  const SummaryHeader: string := "find the hole data:"

  /** One summary line: the 1-based index, the box centre to two places and the score as a percentage to one. */
  function SummaryLine(index: int, r: Result): string
  {
    SummaryShape(IntToString(index), FormatFixed(HoleOf(r).x, 2), FormatFixed(HoleOf(r).y, 2), FormatFixed(Percent(r.score), 1))
  }

  /** The template of a summary line, `{index}({x}, {y}) | trust {p}%`, filled with already formatted fields. */
  function SummaryShape(index: string, x: string, y: string, trust: string): string
  {
    index + "(" + x + ", " + y + ") | trust " + trust + "%"
  }

  /** The summary lines after the header for the first `n` results. */
  function SummaryBody(results: seq<Result>, threshold: real, n: nat): seq<string>
    requires n <= |results|
  {
    Picked(results, threshold, n, NumberedLine)
  }

  /** The summary line for the result at 0-based index `i`, which the summary numbers `i + 1`. */
  function NumberedLine(i: nat, r: Result): string
  {
    SummaryLine(i + 1, r)
  }

  /** QualifyingIndices lists exactly the passing indices below `n`, each once, in increasing order. */
  lemma {:induction false} QualifyingIndicesExact(results: seq<Result>, threshold: real, n: nat)
    requires n <= |results|
    ensures forall k :: 0 <= k < |QualifyingIndices(results, threshold, n)| ==>
              QualifyingIndices(results, threshold, n)[k] < n &&
              Qualifies(results[QualifyingIndices(results, threshold, n)[k]], threshold)
    ensures forall k, l :: 0 <= k < l < |QualifyingIndices(results, threshold, n)| ==>
              QualifyingIndices(results, threshold, n)[k] < QualifyingIndices(results, threshold, n)[l]
    ensures forall j :: 0 <= j < n && Qualifies(results[j], threshold) ==> j in QualifyingIndices(results, threshold, n)
  {
    if n > 0 {
      QualifyingIndicesExact(results, threshold, n - 1);
      assert QualifyingIndices(results, threshold, n)
          == QualifyingIndices(results, threshold, n - 1) + (if Qualifies(results[n - 1], threshold) then [n - 1] else []);
    }
  }

  /** Every picked entry is `f` of a passing result, in the order of QualifyingIndices. */
  lemma {:induction false} PickedFollowsQualifying<T>(results: seq<Result>, threshold: real, n: nat, f: (nat, Result) -> T)
    requires n <= |results|
    ensures |Picked(results, threshold, n, f)| == |QualifyingIndices(results, threshold, n)|
    ensures forall k :: 0 <= k < |Picked(results, threshold, n, f)| ==>
              QualifyingIndices(results, threshold, n)[k] < |results| &&
              Picked(results, threshold, n, f)[k]
                == f(QualifyingIndices(results, threshold, n)[k], results[QualifyingIndices(results, threshold, n)[k]])
  {
    if n > 0 {
      PickedFollowsQualifying(results, threshold, n - 1, f);
      QualifyingIndicesExact(results, threshold, n);
    }
  }

  /** The hole list is the passing results, in their original order, each reduced to its centre and score. */
  lemma HolesFollowQualifying(results: seq<Result>, threshold: real, n: nat)
    requires n <= |results|
    ensures |Holes(results, threshold, n)| == |QualifyingIndices(results, threshold, n)|
    ensures forall k :: 0 <= k < |Holes(results, threshold, n)| ==>
              QualifyingIndices(results, threshold, n)[k] < |results| &&
              Holes(results, threshold, n)[k] == HoleOf(results[QualifyingIndices(results, threshold, n)[k]])
  {
    PickedFollowsQualifying(results, threshold, n, HoleAt);
  }

  /** The summary has one line per passing result, in original order, numbered by its 1-based index. */
  lemma SummaryFollowsQualifying(results: seq<Result>, threshold: real, n: nat)
    requires n <= |results|
    ensures |SummaryBody(results, threshold, n)| == |QualifyingIndices(results, threshold, n)|
    ensures forall k :: 0 <= k < |SummaryBody(results, threshold, n)| ==>
              QualifyingIndices(results, threshold, n)[k] < |results| &&
              SummaryBody(results, threshold, n)[k]
                == SummaryLine(QualifyingIndices(results, threshold, n)[k] + 1, results[QualifyingIndices(results, threshold, n)[k]])
  {
    PickedFollowsQualifying(results, threshold, n, NumberedLine);
  }

  /** A slot driven by result `i` is shown exactly when result `i` is reported in the summary and the hole list. */
  lemma SlotShownIffReported(results: seq<Result>, i: nat, slot: Slot, size: Vec2, labels: seq<string>, threshold: real)
    requires i < |results|
    ensures SetFrameSpec(slot, results[i], size, labels, threshold).active
            <==> i in QualifyingIndices(results, threshold, |results|)
  {
    QualifyingIndicesExact(results, threshold, |results|);
  }

  /** Splits `s` at the first occurrence of `c` into the text before it and the text after it. */
  function CutAt(s: string, c: char): (parts: Option<(string, string)>)
    ensures parts.Some? ==> c !in parts.value.0 && s == parts.value.0 + [c] + parts.value.1
    ensures parts.None? ==> c !in s
  {
    if s == [] then None
    else if s[0] == c then Some(([], s[1..]))
    else
      match CutAt(s[1..], c)
      case None => None
      case Some((before, after)) => Some(([s[0]] + before, after))
  }

  lemma {:induction false} CutAtFirst(before: string, c: char, after: string)
    requires c !in before
    ensures CutAt(before + [c] + after, c) == Some((before, after))
  {
    var s := before + [c] + after;
    if before == [] {
      assert s == [c] + after;
    } else {
      assert s[0] == before[0] != c;
      assert s[1..] == before[1..] + [c] + after;
      CutAtFirst(before[1..], c, after);
      assert [s[0]] + before[1..] == before;
    }
  }

  /**
   * Takes a summary line apart at its separators "(", ", ", ") | trust " and
   * the closing "%", giving the index, x, y and trust fields as text.
   */
  function SplitSummaryLine(s: string): Option<(string, string, string, string)>
  {
    match CutAt(s, '(')
    case None => None
    case Some((index, rest)) =>
      match SplitCoordinates(rest)
      case None => None
      case Some((x, y, trust)) => Some((index, x, y, trust))
  }

  /** The part after "(": x, then ", ", then what SplitTrust takes apart. */
  function SplitCoordinates(s: string): Option<(string, string, string)>
  {
    match CutAt(s, ',')
    case None => None
    case Some((x, rest)) =>
      if |rest| >= 1 && rest[0] == ' ' then
        match SplitTrust(rest[1..])
        case None => None
        case Some((y, trust)) => Some((x, y, trust))
      else None
  }

  /** The part after ", ": y, then ") | trust ", then the percentage, then "%". */
  function SplitTrust(s: string): Option<(string, string)>
  {
    match CutAt(s, ')')
    case None => None
    case Some((y, tail)) =>
      if |tail| >= 10 && tail[..9] == " | trust " && tail[|tail| - 1] == '%'
      then Some((y, tail[9..|tail| - 1]))
      else None
  }

  /** The numbers a summary line shows: the index, the centre scaled by 100 and the trust percentage scaled by 10. */
  datatype SummaryFields = SummaryFields(index: int, x: int, y: int, trust: int)

  /** Reads the index, the two-place coordinates and the one-place percentage back out of a summary line. */
  function ParseSummaryLine(s: string): Option<SummaryFields>
  {
    match SplitSummaryLine(s)
    case None => None
    case Some((index, x, y, trust)) =>
      match (ParseInt(index), ParseFixed(x, 2), ParseFixed(y, 2), ParseFixed(trust, 1))
      case (Some(i), Some(a), Some(b), Some(t)) => Some(SummaryFields(i, a, b, t))
      case _ => None
  }

  lemma SplitTrustShape(y: string, trust: string)
    requires ')' !in y
    ensures SplitTrust(y + ") | trust " + trust + "%") == Some((y, trust))
  {
    var tail := " | trust " + trust + "%";
    assert y + ") | trust " + trust + "%" == y + [')'] + tail;
    CutAtFirst(y, ')', tail);
    assert tail[..9] == " | trust ";
    assert tail[9..|tail| - 1] == trust;
  }

  lemma SplitCoordinatesShape(x: string, y: string, trust: string)
    requires ',' !in x && ')' !in y
    ensures SplitCoordinates(x + ", " + y + ") | trust " + trust + "%") == Some((x, y, trust))
  {
    var rest := " " + y + ") | trust " + trust + "%";
    assert x + ", " + y + ") | trust " + trust + "%" == x + [','] + rest;
    CutAtFirst(x, ',', rest);
    assert rest[1..] == y + ") | trust " + trust + "%";
    SplitTrustShape(y, trust);
  }

  /** The template's separators are found again as long as no field contains the separator that ends it. */
  lemma SplitSummaryShape(index: string, x: string, y: string, trust: string)
    requires '(' !in index && ',' !in x && ')' !in y
    ensures SplitSummaryLine(SummaryShape(index, x, y, trust)) == Some((index, x, y, trust))
  {
    var rest := x + ", " + y + ") | trust " + trust + "%";
    assert SummaryShape(index, x, y, trust) == index + ['('] + rest;
    CutAtFirst(index, '(', rest);
    SplitCoordinatesShape(x, y, trust);
  }

  /** A filled template parses back to the values its fields parse to. */
  lemma ParseSummaryShape(index: string, x: string, y: string, trust: string, fields: SummaryFields)
    requires '(' !in index && ',' !in x && ')' !in y
    requires ParseInt(index) == Some(fields.index)
    requires ParseFixed(x, 2) == Some(fields.x) && ParseFixed(y, 2) == Some(fields.y)
    requires ParseFixed(trust, 1) == Some(fields.trust)
    ensures ParseSummaryLine(SummaryShape(index, x, y, trust)) == Some(fields)
  {
    SplitSummaryShape(index, x, y, trust);
  }

  /** The template filled with formatted numbers reads back as those numbers, rounded as formatted. */
  lemma FormattedShapeReadsBack(index: int, x: real, y: real, trust: real)
    ensures ParseSummaryLine(SummaryShape(IntToString(index), FormatFixed(x, 2), FormatFixed(y, 2), FormatFixed(trust, 1)))
         == Some(SummaryFields(index, RoundHalfAwayFromZero(Shift(x, 2)), RoundHalfAwayFromZero(Shift(y, 2)),
                               RoundHalfAwayFromZero(Shift(trust, 1))))
  {
    IntToStringExcludes(index, '(');
    FormatFixedExcludes(x, 2, ',');
    FormatFixedExcludes(y, 2, ')');
    IntToStringRoundTrip(index);
    FormatFixedRoundTrip(x, 2);
    FormatFixedRoundTrip(y, 2);
    FormatFixedRoundTrip(trust, 1);
    ParseSummaryShape(IntToString(index), FormatFixed(x, 2), FormatFixed(y, 2), FormatFixed(trust, 1),
                      SummaryFields(index, RoundHalfAwayFromZero(Shift(x, 2)), RoundHalfAwayFromZero(Shift(y, 2)),
                                    RoundHalfAwayFromZero(Shift(trust, 1))));
  }

  /**
   * A summary line reads back as the 1-based index it was given, the box
   * centre rounded to two places and the score as a percentage rounded to one.
   */
  lemma SummaryLineReadsBack(index: int, r: Result)
    ensures ParseSummaryLine(SummaryLine(index, r))
         == Some(SummaryFields(index,
                               RoundHalfAwayFromZero(Shift(HoleOf(r).x, 2)),
                               RoundHalfAwayFromZero(Shift(HoleOf(r).y, 2)),
                               RoundHalfAwayFromZero(Shift(Percent(r.score), 1))))
  {
    FormattedShapeReadsBack(index, HoleOf(r).x, HoleOf(r).y, Percent(r.score));
  }

  /** The text a `StringBuilder` holds after `AppendLine` of each line in turn. */
  function JoinLines(lines: seq<string>): string
  {
    if lines == [] then "" else lines[0] + "\n" + JoinLines(lines[1..])
  }

  /** The position of the first line break in `s`, or `|s|` when there is none. */
  function LineEnd(s: string): (k: nat)
    ensures k <= |s| && '\n' !in s[..k] && (k < |s| ==> s[k] == '\n')
  {
    if s == [] || s[0] == '\n' then 0
    else
      var k := 1 + LineEnd(s[1..]);
      assert s[..k] == [s[0]] + s[1..][..k - 1];
      k
  }

  /** Splits text into the lines that each end at a line break; a last line without one is kept. */
  function SplitLines(s: string): seq<string>
    decreases |s|
  {
    if s == [] then []
    else
      var k := LineEnd(s);
      if k == |s| then [s] else [s[..k]] + SplitLines(s[k + 1..])
  }

  lemma {:induction false} LineEndOfJoined(line: string, rest: string)
    requires '\n' !in line
    ensures LineEnd(line + "\n" + rest) == |line|
  {
    if line != [] {
      assert (line + "\n" + rest)[1..] == line[1..] + "\n" + rest;
      assert '\n' !in line[1..];
      LineEndOfJoined(line[1..], rest);
    }
  }

  /** Lines without line breaks are recovered from the text they were appended to. */
  lemma {:induction false} SplitJoinLines(lines: seq<string>)
    requires forall i :: 0 <= i < |lines| ==> '\n' !in lines[i]
    ensures SplitLines(JoinLines(lines)) == lines
  {
    if lines != [] {
      var s := JoinLines(lines);
      assert s == lines[0] + "\n" + JoinLines(lines[1..]);
      LineEndOfJoined(lines[0], JoinLines(lines[1..]));
      assert s[..|lines[0]|] == lines[0];
      assert s[|lines[0]| + 1..] == JoinLines(lines[1..]);
      SplitJoinLines(lines[1..]);
    }
  }

  lemma ShapeHasNoLineBreak(index: string, x: string, y: string, trust: string)
    requires '\n' !in index && '\n' !in x && '\n' !in y && '\n' !in trust
    ensures '\n' !in SummaryShape(index, x, y, trust)
  {
  }

  lemma SummaryLineHasNoLineBreak(index: int, r: Result)
    ensures '\n' !in SummaryLine(index, r)
  {
    var h := HoleOf(r);
    IntToStringExcludes(index, '\n');
    FormatFixedExcludes(h.x, 2, '\n');
    FormatFixedExcludes(h.y, 2, '\n');
    FormatFixedExcludes(Percent(r.score), 1, '\n');
    ShapeHasNoLineBreak(IntToString(index), FormatFixed(h.x, 2), FormatFixed(h.y, 2), FormatFixed(Percent(r.score), 1));
  }

  lemma SummaryBodyHasNoLineBreak(results: seq<Result>, threshold: real, n: nat)
    requires n <= |results|
    ensures forall i :: 0 <= i < |SummaryBody(results, threshold, n)| ==> '\n' !in SummaryBody(results, threshold, n)[i]
  {
    SummaryFollowsQualifying(results, threshold, n);
    forall i | 0 <= i < |SummaryBody(results, threshold, n)|
      ensures '\n' !in SummaryBody(results, threshold, n)[i]
    {
      var j := QualifyingIndices(results, threshold, n)[i];
      SummaryLineHasNoLineBreak(j + 1, results[j]);
    }
  }

  /** The summary text splits back into the header and the per-detection lines. */
  lemma SummaryTextReadsBack(results: seq<Result>, threshold: real)
    ensures var lines := [SummaryHeader] + SummaryBody(results, threshold, |results|);
            SplitLines(JoinLines(lines)) == lines
  {
    var lines := [SummaryHeader] + SummaryBody(results, threshold, |results|);
    SummaryBodyHasNoLineBreak(results, threshold, |results|);
    assert '\n' !in SummaryHeader;
    assert forall i :: 1 <= i < |lines| ==> lines[i] == SummaryBody(results, threshold, |results|)[i - 1];
    SplitJoinLines(lines);
  }
}
