/**
 * The sample's MonoBehaviour: ten pre-allocated frame slots, the label list,
 * the score threshold, the text of the hole-information panel and the record
 * of messages sent to the server. `Invoke` is the per-frame handler that
 * runs on every camera texture once the detector has produced its results.
 */
module Sample {
  import opened Wrappers
  import opened Geometry
  import opened Detections

  /** The number of frame slots `Start` allocates. */
  const FrameCount: nat := 10

  /** The states a `NativeWebSocket.WebSocket` reports. */
  datatype WebSocketState = Connecting | Open | Closing | Closed

  /** The send guard: a socket exists (`None` stands for null) and it is open. */
  predicate IsOpen(websocket: Option<WebSocketState>)
  {
    websocket == Some(Open)
  }

  /** Whether a frame's hole list goes out: the socket is open and the list is not empty. */
  predicate ShouldSend(websocket: Option<WebSocketState>, holes: seq<HoleInfo>)
  {
    IsOpen(websocket) && |holes| > 0
  }

  /**
   * The loop shape shared by the summary loop and the hole-list loop of
   * `Invoke`: walk the results in order and append the entry `f` makes for
   * each one whose score reaches the threshold.
   */
  method CollectPassing<T>(results: seq<Result>, threshold: real, f: (nat, Result) -> T) returns (entries: seq<T>)
    ensures entries == Picked(results, threshold, |results|, f)
  {
    entries := [];
    for k := 0 to |results|
      invariant entries == Picked(results, threshold, k, f)
    {
      if results[k].score >= threshold {
        entries := entries + [f(k, results[k])];
      }
    }
  }

  /**
   * The summary loop of `Invoke`: the header, then one line for each result
   * that passes the threshold. The label it looks up for each such result is
   * never used, so it is not computed here.
   */
  method BuildSummary(results: seq<Result>, threshold: real) returns (lines: seq<string>)
    ensures lines == [SummaryHeader] + SummaryBody(results, threshold, |results|)
  {
    var body := CollectPassing(results, threshold, NumberedLine);
    lines := [SummaryHeader] + body;
  }

  /** The hole-list loop of `Invoke`: the centre and score of each result that passes the threshold. */
  method BuildHoles(results: seq<Result>, threshold: real) returns (holes: seq<HoleInfo>)
    ensures holes == Holes(results, threshold, |results|)
  {
    holes := CollectPassing(results, threshold, HoleAt);
  }

  class EfficientDetSample {
    const frames: array<Slot>
    const labels: seq<string>
    const scoreThreshold: real
    /** The text of the hole-information panel. */
    var holeInfoText: string
    /** Every message handed to the socket, oldest first. */
    var outbox: seq<HoleWrapper>

    ghost predicate Valid()
      reads this
    {
      frames.Length == FrameCount
    }

    /**
     * `Start`, minus the detector and the socket: every slot is a copy of the
     * prefab. `Start` never writes the panel, so it keeps the text the scene
     * gave it, `panelText`.
     */
    constructor (prefab: Slot, labels: seq<string>, scoreThreshold: real, panelText: string)
      ensures Valid() && fresh(frames)
      ensures forall i :: 0 <= i < FrameCount ==> frames[i] == prefab
      ensures this.labels == labels && this.scoreThreshold == scoreThreshold
      ensures holeInfoText == panelText && outbox == []
    {
      var slots := new Slot[FrameCount];
      for i := 0 to slots.Length
        invariant forall j :: 0 <= j < i ==> slots[j] == prefab
      {
        slots[i] := prefab;
      }
      frames := slots;
      this.labels := labels;
      this.scoreThreshold := scoreThreshold;
      holeInfoText := panelText;
      outbox := [];
    }

    /** Shows or hides slot `i` for `result`, in a container of size `size`; no other slot changes. */
    method SetFrame(i: nat, result: Result, size: Vec2)
      requires Valid() && i < frames.Length
      modifies frames
      ensures Valid()
      ensures frames[i] == SetFrameSpec(old(frames[i]), result, size, labels, scoreThreshold)
      ensures forall j :: 0 <= j < frames.Length && j != i ==> frames[j] == old(frames[j])
    {
      if result.score < scoreThreshold {
        frames[i] := frames[i].(active := false);
        return;
      }
      frames[i] := frames[i].(active := true);
      frames[i] := frames[i].(text := FrameText(labels, result));
      frames[i] := frames[i].(anchoredPosition := AnchoredPosition(result.rect, size),
                              sizeDelta := SizeDelta(result.rect, size));
    }

    /** Hands the hole list to the socket when it is open and the list is not empty; otherwise nothing happens. */
    method SendHoleData(holes: seq<HoleInfo>, websocket: Option<WebSocketState>)
      modifies this`outbox
      ensures outbox == if ShouldSend(websocket, holes) then old(outbox) + [HoleWrapper(holes)] else old(outbox)
    {
      if websocket.Some? && websocket.value == Open && |holes| > 0 {
        outbox := outbox + [HoleWrapper(holes)];
      }
    }

    /**
     * One frame. Slot `i` is driven by result `i`; with fewer results than
     * slots the lookup of the first missing one fails (`completed` is false)
     * after the slots before it were updated, and nothing else happens.
     * Otherwise the summary and the hole list are built from the passing
     * results, the panel shows the summary, and the list is sent when the
     * socket is open and the list is not empty.
     */
    method Invoke(results: seq<Result>, texW: nat, texH: nat, panel: Vec2, websocket: Option<WebSocketState>)
      returns (completed: bool, holes: seq<HoleInfo>, summary: seq<string>, sent: bool)
      requires Valid()
      requires texH > 0
      modifies frames, this`holeInfoText, this`outbox
      ensures Valid()
      ensures completed <==> |results| >= FrameCount
      ensures forall i :: 0 <= i < FrameCount ==>
                frames[i] == if i < |results|
                             then SetFrameSpec(old(frames[i]), results[i], Mul(panel, DisplayScale(texW, texH)),
                                               labels, scoreThreshold)
                             else old(frames[i])
      ensures completed ==> holes == Holes(results, scoreThreshold, |results|)
      ensures completed ==> summary == [SummaryHeader] + SummaryBody(results, scoreThreshold, |results|)
      ensures completed ==> holeInfoText == JoinLines(summary)
      ensures sent <==> completed && ShouldSend(websocket, holes)
      ensures outbox == if sent then old(outbox) + [HoleWrapper(holes)] else old(outbox)
      ensures !completed ==> holes == [] && summary == [] && holeInfoText == old(holeInfoText)
    {
      holes, summary, sent := [], [], false;
      var size := Mul(panel, DisplayScale(texW, texH));

      var i := 0;
      while i < frames.Length
        modifies frames
        invariant 0 <= i <= frames.Length && i <= |results|
        invariant forall j :: 0 <= j < i ==>
                    frames[j] == SetFrameSpec(old(frames[j]), results[j], size, labels, scoreThreshold)
        invariant forall j :: i <= j < frames.Length ==> frames[j] == old(frames[j])
      {
        if i >= |results| {
          completed := false;
          return;
        }
        SetFrame(i, results[i], size);
        i := i + 1;
      }
      completed := true;

      summary := BuildSummary(results, scoreThreshold);
      holeInfoText := JoinLines(summary);
      holes := BuildHoles(results, scoreThreshold);

      if websocket.Some? && websocket.value == Open && |holes| > 0 {
        SendHoleData(holes, websocket);
        sent := true;
      }
    }
  }
}
