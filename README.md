# EfficientDet sample: per-frame post-processing

This project models, in Dafny, what the `EfficientDetSample` MonoBehaviour
does with one frame of detector output. The detector returns an ordered array
of results, each with a class id, a score and a unit-normalised box. From it
the sample:

- updates its ten pre-allocated frame slots. Slot `i` is driven by result `i`.
  It is hidden when the score is below the threshold. Otherwise it is shown
  with the caption `label : NN%` and the box mapped into the frame container.
  The mapping uses an aspect-preserving display scale computed from the
  texture size;
- writes a diagnostic summary to the hole-information panel. This is a header
  line and then one line per result that passes the threshold, numbered from 1;
- builds the list of hole centres and scores of the passing results, in their
  original order;
- hands that list to the WebSocket as one `{"holes": [...]}` message, but only
  when the socket exists, is open and the list is not empty.

Modules:

- `Wrappers`: the `Option` type.
- `Numerals`: C#'s `int.ToString()`, the `(int)` cast, and the fixed-point
  format specifier `F<n>` with its rounding. Each formatter has a parser and a
  round-trip lemma.
- `Geometry`: `Vector2`/`Rect` over the reals, the display scale, and the
  mapping of a box into the container together with its inverse.
- `Detections`: results, holes and slots as values. It holds the label lookup,
  the slot update as a function, and one prefix-recursive definition,
  `Picked`, of the entries collected from the passing results; the hole list
  and the summary are both instances of it. The lemmas say which results
  these select and in what order. A parser for each rendered text (caption,
  summary line, panel) reads the rendered values back.
- `Sample`: the class `EfficientDetSample`. It holds the `frames` array, the
  panel text and the record of sent messages, and has the methods `SetFrame`,
  `SendHoleData` and `Invoke`.

`GetLabelName` uses a label exactly as stored in the list, with no trimming and
no offset on the class id.

## Model

| member | source | states |
|---|---|---|
| Detections.GetLabelName | Assets/Samples/EfficientDet/EfficientDetSample.cs:210-218 | "?" for an id below 0 or at or past the end of the labels; otherwise `labels[id]` itself, with no +1 offset; the result is always "?" or one of the labels |
| Geometry.DisplayScale | Assets/Samples/EfficientDet/EfficientDetSample.cs:118-121 | the ratio keeps the texture's aspect (`x == aspect * y`), fills one axis (`x == 1` or `y == 1`), stays within (0, 1] on each axis (x > 0 for a non-empty texture), and is (1, 1) for a square texture |
| Geometry.Aspect | Assets/Samples/EfficientDet/EfficientDetSample.cs:118 | the aspect is `width / height` of the texture as reals; `DisplayScale` keeps it (`ratio.x == Aspect * ratio.y`) |
| Geometry.DisplayScaleUnique | Assets/Samples/EfficientDet/EfficientDetSample.cs:118-121 | those three properties determine the ratio: any ratio that has them equals `DisplayScale` |
| Geometry.AnchoredPosition | Assets/Samples/EfficientDet/EfficientDetSample.cs:206 | `rect.position * size - size * 0.5`, component-wise; `DisplayRoundTrip` inverts it together with `SizeDelta`, and `DisplayWithinContainer` bounds it |
| Geometry.SizeDelta | Assets/Samples/EfficientDet/EfficientDetSample.cs:207 | `rect.size * size`, component-wise; `DisplayRoundTrip` recovers the box size from it |
| Geometry.DisplayRoundTrip | Assets/Samples/EfficientDet/EfficientDetSample.cs:206-207 | on a container with non-zero sides, `anchoredPosition = position * size - size/2` and `sizeDelta = rect.size * size` map back exactly to the detection box |
| Geometry.DisplayWithinContainer | Assets/Samples/EfficientDet/EfficientDetSample.cs:206-207 | a box inside the unit square is drawn inside the container, whose centre is the origin |
| Numerals.NatToString | Assets/Samples/EfficientDet/EfficientDetSample.cs:202 | the decimal text of a whole number is non-empty, made of digits, and has no leading zero |
| Numerals.NatToStringRoundTrip | Assets/Samples/EfficientDet/EfficientDetSample.cs:202 | the digits read back as the number |
| Numerals.IntToString | Assets/Samples/EfficientDet/EfficientDetSample.cs:202 | `int.ToString()`: a minus sign before the digits of a negative value; `IntToStringRoundTrip` reads it back and `IntToStringChars` bounds its characters |
| Numerals.IntToStringRoundTrip | Assets/Samples/EfficientDet/EfficientDetSample.cs:202 | `int.ToString()` with a minus sign for negative values reads back as the same integer |
| Numerals.IntToStringChars | Assets/Samples/EfficientDet/EfficientDetSample.cs:202 | the text holds only digits and the minus sign |
| Numerals.TruncToInt | Assets/Samples/EfficientDet/EfficientDetSample.cs:202 | the `(int)` cast truncates toward zero: it is the integer within 1 of the value on the side of zero |
| Numerals.RoundHalfAwayFromZero | Assets/Samples/EfficientDet/EfficientDetSample.cs:142 | the nearest integer, within one half, with ties resolved away from zero |
| Numerals.FormatFixed | Assets/Samples/EfficientDet/EfficientDetSample.cs:142 | `ToString("F<n>")`: the value rounded half away from zero to n places, with a sign and a '.' before the last n digits; `FormatFixedRoundTrip` reads it back |
| Numerals.UnsignedFixed | Assets/Samples/EfficientDet/EfficientDetSample.cs:142 | the digits of a non-negative scaled value with the '.' before its last n digits; `UnsignedFixedRoundTrip` reads it back |
| Numerals.UnsignedFixedRoundTrip | Assets/Samples/EfficientDet/EfficientDetSample.cs:142 | a non-negative scaled value written with the '.' before its last `decimals` digits starts with a digit and reads back as the same value |
| Numerals.FormatFixedRoundTrip | Assets/Samples/EfficientDet/EfficientDetSample.cs:142 | the fixed-point text reads back as the value rounded to the given places, and that is within half a unit in the last place of the value |
| Numerals.FormatFixedChars | Assets/Samples/EfficientDet/EfficientDetSample.cs:142 | fixed-point text holds only digits, '.' and the minus sign, so none of the summary's separators can occur inside a number |
| Detections.HoleOf | Assets/Samples/EfficientDet/EfficientDetSample.cs:155-164 | a hole is the midpoint of its box on each axis and keeps the detection's score |
| Detections.Qualifies | Assets/Samples/EfficientDet/EfficientDetSample.cs:135 | the `score >= threshold` test of both list loops (lines 135, 153); `SetFrameSpec` shows a slot exactly when it holds |
| Detections.FrameText | Assets/Samples/EfficientDet/EfficientDetSample.cs:202 | the caption: label, " : ", `(int)(score * 100)` and "%"; `FrameTextReadsBack` parses the percentage back out of it |
| Detections.FrameTextReadsBack | Assets/Samples/EfficientDet/EfficientDetSample.cs:202 | the caption starts with the label and " : ", ends with "%", and the number between reads back as the truncated percentage |
| Detections.CaptionPercentInRange | Assets/Samples/EfficientDet/EfficientDetSample.cs:202 | for a score in [0, 1] the caption's percentage lies in 0..100 |
| Detections.SetFrameSpec | Assets/Samples/EfficientDet/EfficientDetSample.cs:188-208 | the slot is shown exactly when the score reaches the threshold; a hidden slot keeps its text, position and size |
| Detections.VisibleSlotShowsDetection | Assets/Samples/EfficientDet/EfficientDetSample.cs:196-207 | a passing result's slot is shown, carries its caption, and its position and size map back to the result's box |
| Detections.Picked | Assets/Samples/EfficientDet/EfficientDetSample.cs:130-166 | the entries made from the passing results among the first n, in order; `QualifyingIndicesExact` and `PickedFollowsQualifying` say which results those are |
| Detections.QualifyingIndices | Assets/Samples/EfficientDet/EfficientDetSample.cs:133-135 | the indices of the passing results, as `Picked` keeps them; described by `QualifyingIndicesExact` |
| Detections.Holes | Assets/Samples/EfficientDet/EfficientDetSample.cs:151-164 | the hole list is `Picked` with each passing result's `HoleOf`; described by `HolesFollowQualifying` |
| Detections.SummaryBody | Assets/Samples/EfficientDet/EfficientDetSample.cs:133-144 | the summary lines are `Picked` with each passing result's `NumberedLine`; described by `SummaryFollowsQualifying` |
| Detections.NumberedLine | Assets/Samples/EfficientDet/EfficientDetSample.cs:142 | the line for the result at 0-based index i carries the number i + 1 |
| Detections.QualifyingIndicesExact | Assets/Samples/EfficientDet/EfficientDetSample.cs:133-135 | the picked indices are exactly those whose score reaches the threshold, each once, in increasing order |
| Detections.PickedFollowsQualifying | Assets/Samples/EfficientDet/EfficientDetSample.cs:130-166 | whatever entry each passing result is turned into, the collected list has one entry per passing result, in the original order, each made from that result and its index |
| Detections.HolesFollowQualifying | Assets/Samples/EfficientDet/EfficientDetSample.cs:149-166 | the hole list has one entry per passing result, in the original order, each that result's centre and score |
| Detections.SummaryFollowsQualifying | Assets/Samples/EfficientDet/EfficientDetSample.cs:130-144 | the summary body has one line per passing result, in the original order, each labelled with the 1-based index `i+1` |
| Detections.SummaryLine | Assets/Samples/EfficientDet/EfficientDetSample.cs:142 | the 1-based index, then the box centre to two places in parentheses, then "trust" and the percentage to one place followed by "%"; `SummaryLineReadsBack` parses every field back |
| Detections.SplitSummaryShape | Assets/Samples/EfficientDet/EfficientDetSample.cs:142 | the separators "(", ", ", the closing parenthesis with the trust label, and "%" are found again when the fields do not contain them, giving back the four fields |
| Detections.FormattedShapeReadsBack | Assets/Samples/EfficientDet/EfficientDetSample.cs:142 | the template filled with an integer and three fixed-point numbers parses back to those numbers as rounded |
| Detections.SummaryLineReadsBack | Assets/Samples/EfficientDet/EfficientDetSample.cs:142 | a summary line parses back to the index it was given, the box centre rounded half away from zero to two places on each axis, and the percentage rounded to one place |
| Detections.JoinLines | Assets/Samples/EfficientDet/EfficientDetSample.cs:130-147 | `AppendLine` of each line in turn then `ToString()`: every line followed by a line break; `SplitJoinLines` splits it back |
| Detections.SplitJoinLines | Assets/Samples/EfficientDet/EfficientDetSample.cs:130-147 | lines without line breaks are recovered exactly from the joined text |
| Detections.SummaryBodyHasNoLineBreak | Assets/Samples/EfficientDet/EfficientDetSample.cs:142 | no summary line contains a line break, since numbers are written with digits, '.' and '-' only |
| Detections.SummaryTextReadsBack | Assets/Samples/EfficientDet/EfficientDetSample.cs:130-147 | the panel text made by `AppendLine` splits back into the header and the per-result lines |
| Detections.SlotShownIffReported | Assets/Samples/EfficientDet/EfficientDetSample.cs:123-153 | slot i is shown exactly when result i is among the results reported in the summary and the hole list: `SetFrame` hides on `score < threshold` (line 191) and the two lists keep `score >= threshold` (lines 135, 153), and on a real score `<` is the negation of `>=` |
| Sample.CollectPassing | Assets/Samples/EfficientDet/EfficientDetSample.cs:130-166 | the shared loop (walk the results in order, append an entry for each one whose score reaches the threshold) yields exactly the list `Picked` defines |
| Sample.BuildSummary | Assets/Samples/EfficientDet/EfficientDetSample.cs:130-144 | the summary loop yields the header and then the lines that `SummaryBody` defines |
| Sample.BuildHoles | Assets/Samples/EfficientDet/EfficientDetSample.cs:149-166 | the hole-list loop yields the list that `Holes` defines |
| Sample.EfficientDetSample.constructor | Assets/Samples/EfficientDet/EfficientDetSample.cs:53-83 | ten fresh slots, each a copy of the prefab; the labels and threshold are stored; the panel keeps the text the scene gave it, since `Start` never writes it; nothing has been sent |
| Sample.EfficientDetSample.SetFrame | Assets/Samples/EfficientDet/EfficientDetSample.cs:188-208 | slot i becomes `SetFrameSpec` of its old value and no other slot changes |
| Sample.EfficientDetSample.SendHoleData | Assets/Samples/EfficientDet/EfficientDetSample.cs:95-104 | a message with the list is recorded exactly when the socket exists, is open and the list is not empty; otherwise nothing is sent or queued |
| Sample.IsOpen | Assets/Samples/EfficientDet/EfficientDetSample.cs:97 | the socket exists (`None` stands for null) and its state is `Open` |
| Sample.ShouldSend | Assets/Samples/EfficientDet/EfficientDetSample.cs:168 | the guard of the send: the socket is open and the hole list is not empty; `SendHoleData` and `Invoke` send exactly when it holds |
| Sample.EfficientDetSample.Invoke | Assets/Samples/EfficientDet/EfficientDetSample.cs:107-175 | slot i < 10 gets `SetFrameSpec` of result i with `panel * DisplayScale`; with fewer than ten results the run stops at the first missing one and nothing else changes; otherwise the panel shows the summary, the returned list is `Holes`, and exactly one message goes out iff the socket is open and the list is not empty |

## Left out

- EfficientDet inference (`Run`, `GetResults`) is a native TensorFlow Lite call. Its output is an input sequence of results.
- Unity UI objects are modelled as plain slot records in an array. This covers `Instantiate`, the reset of `localPosition`, `SetActive`, `RectTransform` and `TextMeshProUGUI`. Each slot starts as a copy of the prefab. The container size is an input to `Invoke`.
- The WebSocket lifecycle is not modelled: `Connect`, `Close`, `DispatchMessageQueue`, the event handlers, and the async completion of `SendText`. The socket's state at the time of the frame is an input to `Invoke`, where `None` stands for a null socket. A send is recorded as the message appended to `outbox`.
- `JsonUtility.ToJson` and `Debug.Log` are foreign calls with no effect on state. The message is the `HoleWrapper` value. The JSON string that `Invoke` builds and logs before calling `SendHoleData` is discarded, so it is not modelled.
- Reading the label asset and splitting it on '\n' are not modelled. The labels are a given sequence of strings.
- `OnDestroy`, the `Update` dispatch and `OnApplicationQuit` are lifecycle glue and are not modelled.
- The label looked up in the summary loop is never used, so `BuildSummary` does not compute it.
- Floating point is not modelled: all arithmetic is exact over the reals. There are no NaN scores, no rounding of `float` products, no infinities, and no out-of-range `(int)` casts. A NaN score would be shown in its slot (`NaN < threshold` is false) but reported in neither the summary nor the hole list (`NaN >= threshold` is false too); the model cannot express this.
- Geometry.DisplayScale: requires a texture height above zero, for the same reason as `Invoke` below.
- Sample.EfficientDetSample.Invoke: requires a texture height above zero. With height 0 the C# division gives an infinite or NaN aspect, which the real-valued model cannot express. Unity textures always have positive sizes.
- Numerals.FormatFixed: rounds the exact real value half away from zero and always writes '.' as the separator. It does not model the binary value of a `float`, culture-specific separators, or a "-0.00" for small negative values.
- Detections.JoinLines: ends every line with "\n". This is `Environment.NewLine` on the device platforms; it is "\r\n" on Windows.
