/** The body of the camera loop for one frame, lifted out of the loop: the
    detector's output and the clock come in, the frame's marks, status,
    warning and status markdown go out, and the session's cooldown map is
    updated in place. */
module Stream {
  import opened Outcomes
  import opened Labels
  import opened Equipment
  import opened Warnings

  /** What one frame shows the operator. */
  datatype FrameReport = FrameReport(status: map<string, string>, marks: seq<Mark>, warning: Option<string>, statusText: string)

  method ProcessFrame(timer: WarningTimer, detections: seq<Detection>, now: int)
      returns (res: Result<FrameReport, Fault>, ghost fired: seq<string>)
    requires timer.Valid()
    modifies timer
    ensures timer.Valid()
    ensures res.Ok? <==> MissingLabels(detections) <= NegativeLabels
    ensures res.Ok? ==> timer.lastWarning == Next(old(timer.lastWarning), MissingLabels(detections), now)
    ensures res.Ok? ==> TracksPresence(res.value.status, detections)
    ensures res.Ok? ==> res.value.statusText == StatusMarkdown(res.value.status)
    ensures res.Ok? ==> |res.value.marks| == |detections|
    ensures res.Ok? ==> forall i :: 0 <= i < |detections| ==> res.value.marks[i] == MarkOf(detections[i])
    ensures res.Ok? ==> Distinct(fired) && Elements(fired) == Due(old(timer.lastWarning), MissingLabels(detections), now)
    ensures res.Ok? ==> res.value.warning == WarningText(RiskList(fired), ApparelList(fired))
    ensures res.Ok? ==> (res.value.warning.Some? <==> Due(old(timer.lastWarning), MissingLabels(detections), now) != {})
    ensures res.Err? ==> res.error.key in MissingLabels(detections) && res.error.key !in NegativeLabels
    ensures res.Err? ==> forall k :: k in timer.lastWarning ==>
              timer.lastWarning[k] == old(timer.lastWarning)[k]
              || (k in Due(old(timer.lastWarning), MissingLabels(detections), now) && timer.lastWarning[k] == now)
  {
    var status, missing, marks := Scan(detections);
    PresenceMeaning(detections, status);
    MissingOfIff(detections);
    MarksOfAt(detections);
    var outcome;
    outcome, fired := timer.Debounce(missing, now);
    match outcome
    case Err(fault) =>
      res := Err(fault);
    case Ok(alert) =>
      assert forall k :: k in fired ==> k in Elements(fired);
      WarningNamesEveryLabel(fired);
      var warning := WarningText(alert.risks, alert.apparel);
      var text := RenderStatus(status);
      res := Ok(FrameReport(status, marks, warning, text));
  }

  /** The frame of the worked example: a hardhat and a missing mask. */
  function HardhatNoMaskFrame(b: Box): seq<Detection> {
    [Detection(Hardhat, b), Detection(NoMask, b)]
  }

  /** In that frame only the mask is missing... */
  lemma HardhatNoMaskMissing(b: Box)
    ensures MissingLabels(HardhatNoMaskFrame(b)) == {NoMask}
  {
    TrackedClassesPresent();
    CooldownKeysMissing();
    MissingOfPair(Detection(Hardhat, b), Detection(NoMask, b));
  }

  lemma MissingOfPair(d1: Detection, d2: Detection)
    ensures MissingLabels([d1, d2])
         == (if IsMissingLabel(d1.name) then {d1.name} else {}) + (if IsMissingLabel(d2.name) then {d2.name} else {})
  {
    var frame := [d1, d2];
    assert frame[0] == d1 && frame[1] == d2;
  }

  /** ...and only the hardhat is present. */
  lemma HardhatNoMaskStatus(b: Box, status: map<string, string>)
    requires TracksPresence(status, HardhatNoMaskFrame(b))
    ensures status[Hardhat] == Yes && status[Mask] == No && status[SafetyVest] == No
  {
    var frame := HardhatNoMaskFrame(b);
    DistinctClasses();
    assert frame[0].name == Hardhat;
  }

  /** The cooldown across a session showing that frame at 100 s, 105 s and
      125 s: the mask warning fires, is held back, and fires again. A frame
      at 0 s, before any warning, does not fire, since the stamps start at 0. */
  lemma HardhatNoMaskSession()
    ensures Due(InitialWarningTimes, {NoMask}, 0) == {}
    ensures Due(InitialWarningTimes, {NoMask}, 100) == {NoMask}
    ensures Due(Next(InitialWarningTimes, {NoMask}, 100), {NoMask}, 105) == {}
    ensures Due(Next(InitialWarningTimes, {NoMask}, 100), {NoMask}, 125) == {NoMask}
  {
    var after := Next(InitialWarningTimes, {NoMask}, 100);
    assert after[NoMask] == 100;
  }
}
