/** The warning debounce: a session-long map from each missing-equipment
    label to the time its last warning fired, the phrase table, and the
    composed warning text. */
module Warnings {
  import opened Outcomes
  import opened Text
  import opened Labels

  /** Seconds that must strictly pass before a label may warn again. */
  const WarningInterval: int := 20

  /** The cooldown map at the start of a session. */
  const InitialWarningTimes: map<string, int> := map[NoHardhat := 0, NoMask := 0, NoSafetyVest := 0]

  /** What a warning says for one missing item: the risk, and what to wear. */
  datatype Advice = Advice(risk: string, apparel: string)

  /** The phrase table of the warning loop. */
  function AdviceFor(item: string): (a: Option<Advice>)
    ensures a.Some? <==> item in NegativeLabels
    ensures a.Some? ==> "NO-" + a.value.apparel == item
  {
    if item == NoHardhat then Some(Advice("Risk of head injury", Hardhat))
    else if item == NoMask then Some(Advice("Risk of respiratory injury", Mask))
    else if item == NoSafetyVest then Some(Advice("Risk of low visibility", SafetyVest))
    else None
  }

  /** The missing labels whose cooldown has strictly passed at `now`. */
  function Due(last: map<string, int>, missing: set<string>, now: int): set<string> {
    set k | k in missing && k in last && now - last[k] > WarningInterval
  }

  /** The cooldown map after one frame: every due label is stamped with `now`. */
  function Next(last: map<string, int>, missing: set<string>, now: int): (next: map<string, int>)
    ensures next.Keys == last.Keys
    ensures forall k :: k in last ==> last[k] <= next[k]
    ensures forall k :: k in last ==> (next[k] != last[k] <==> k in Due(last, missing, now))
    ensures forall k :: k in Due(last, missing, now) ==> next[k] == now
  {
    map k | k in last :: if k in Due(last, missing, now) then now else last[k]
  }

  ghost predicate Distinct(s: seq<string>) {
    forall i, j :: 0 <= i < j < |s| ==> s[i] != s[j]
  }

  function Elements(s: seq<string>): set<string> {
    set x | x in s
  }

  /** The phrase lists appended for labels fired in the order `fired`. */
  function RiskList(fired: seq<string>): seq<string> {
    if fired == [] then []
    else RiskList(fired[..|fired| - 1]) + match AdviceFor(fired[|fired| - 1]) {
      case Some(a) => [a.risk]
      case None => []
    }
  }

  function ApparelList(fired: seq<string>): seq<string> {
    if fired == [] then []
    else ApparelList(fired[..|fired| - 1]) + match AdviceFor(fired[|fired| - 1]) {
      case Some(a) => [a.apparel]
      case None => []
    }
  }

  /** The two phrase lists have equal length, and each position holds the
      risk and the apparel of one fired label. */
  lemma {:induction false} PhrasesPaired(fired: seq<string>)
    ensures |RiskList(fired)| == |ApparelList(fired)|
    ensures forall i :: 0 <= i < |RiskList(fired)| ==>
              exists j :: 0 <= j < |fired| && AdviceFor(fired[j]) == Some(Advice(RiskList(fired)[i], ApparelList(fired)[i]))
  {
    if fired != [] {
      var init := fired[..|fired| - 1];
      PhrasesPaired(init);
      forall i | 0 <= i < |RiskList(fired)|
        ensures exists j :: 0 <= j < |fired| && AdviceFor(fired[j]) == Some(Advice(RiskList(fired)[i], ApparelList(fired)[i]))
      {
        if i < |RiskList(init)| {
          var j :| 0 <= j < |init| && AdviceFor(init[j]) == Some(Advice(RiskList(init)[i], ApparelList(init)[i]));
          assert fired[j] == init[j];
        } else {
          assert fired[|fired| - 1] == fired[|fired| - 1];
        }
      }
    }
  }

  /** For labels from the cooldown map, position `i` of the phrase lists is
      the advice for the `i`-th fired label. */
  lemma {:induction false} PhrasesFollowFired(fired: seq<string>)
    requires forall k :: k in fired ==> k in NegativeLabels
    ensures |RiskList(fired)| == |fired| && |ApparelList(fired)| == |fired|
    ensures forall i :: 0 <= i < |fired| ==> AdviceFor(fired[i]) == Some(Advice(RiskList(fired)[i], ApparelList(fired)[i]))
  {
    if fired != [] {
      var init := fired[..|fired| - 1];
      assert forall k :: k in init ==> k in fired;
      PhrasesFollowFired(init);
      assert fired[|fired| - 1] in fired;
      forall i | 0 <= i < |fired|
        ensures AdviceFor(fired[i]) == Some(Advice(RiskList(fired)[i], ApparelList(fired)[i]))
      {
        if i < |init| {
          assert fired[i] == init[i];
        }
      }
    }
  }

  /** The warning line: present only when something fired. */
  function WarningText(risks: seq<string>, apparel: seq<string>): Option<string> {
    if |risks| > 0 then
      Some("WARNING: " + Join(" and ", risks) + ". Please wear " + Join(" and ", apparel))
    else None
  }

  /** A warning is composed exactly when some label fired, and it names the
      risk and the apparel of every fired label. */
  lemma WarningNamesEveryLabel(fired: seq<string>)
    requires forall k :: k in fired ==> k in NegativeLabels
    ensures WarningText(RiskList(fired), ApparelList(fired)).Some? <==> fired != []
    ensures forall j :: 0 <= j < |fired| ==>
              && WarningText(RiskList(fired), ApparelList(fired)).Some?
              && Contains(WarningText(RiskList(fired), ApparelList(fired)).value, AdviceFor(fired[j]).value.risk)
              && Contains(WarningText(RiskList(fired), ApparelList(fired)).value, AdviceFor(fired[j]).value.apparel)
  {
    PhrasesFollowFired(fired);
    var risks, apparel := RiskList(fired), ApparelList(fired);
    forall j | 0 <= j < |fired|
      ensures Contains(WarningText(risks, apparel).value, risks[j])
      ensures Contains(WarningText(risks, apparel).value, apparel[j])
    {
      TemplateContainsParts("WARNING: ", " and ", ". Please wear ", risks, apparel, j);
    }
  }

  /** `head + join(risks) + middle + join(apparel)` contains the `j`-th
      entry of both lists. */
  lemma TemplateContainsParts(head: string, sep: string, middle: string, risks: seq<string>, apparel: seq<string>, j: int)
    requires 0 <= j < |risks| && j < |apparel|
    ensures Contains(head + Join(sep, risks) + middle + Join(sep, apparel), risks[j])
    ensures Contains(head + Join(sep, risks) + middle + Join(sep, apparel), apparel[j])
  {
    var text := head + Join(sep, risks) + middle + Join(sep, apparel);
    var r := JoinPartAt(sep, risks, j);
    OccursInContext(head, Join(sep, risks), middle + Join(sep, apparel), risks[j], r);
    assert head + Join(sep, risks) + (middle + Join(sep, apparel)) == text;
    ContainsIff(text, risks[j]);
    var p := JoinPartAt(sep, apparel, j);
    OccursInContext(head + Join(sep, risks) + middle, Join(sep, apparel), "", apparel[j], p);
    assert head + Join(sep, risks) + middle + Join(sep, apparel) + "" == text;
    ContainsIff(text, apparel[j]);
  }

  /** A lone missing mask produces exactly the documented sentence. */
  lemma LoneMaskWarning()
    ensures WarningText(RiskList([NoMask]), ApparelList([NoMask]))
         == Some("WARNING: " + "Risk of respiratory injury" + ". Please wear " + "Mask")
  {
    assert [NoMask][..0] == [];
    assert RiskList([NoMask]) == ["Risk of respiratory injury"];
    assert ApparelList([NoMask]) == [Mask];
    assert Join(" and ", ["Risk of respiratory injury"]) == "Risk of respiratory injury";
    assert Join(" and ", [Mask]) == "Mask";
  }

  /** The phrase lists a warning is built from. */
  datatype Alert = Alert(risks: seq<string>, apparel: seq<string>)

  /** The session's cooldown map, updated in place by each frame. */
  class WarningTimer {
    var lastWarning: map<string, int>

    ghost predicate Valid()
      reads this
    {
      lastWarning.Keys == NegativeLabels
    }

    constructor ()
      ensures Valid() && lastWarning == InitialWarningTimes
    {
      lastWarning := InitialWarningTimes;
    }

    /** The warning loop: visit the frame's missing labels in an unspecified
        order, fire those past their cooldown, stamp them, and collect their
        phrases. A label outside the cooldown map is a key error. */
    method Debounce(missing: set<string>, now: int) returns (res: Result<Alert, Fault>, ghost fired: seq<string>)
      requires Valid()
      modifies this
      ensures Valid()
      ensures res.Ok? <==> missing <= NegativeLabels
      ensures res.Ok? ==> lastWarning == Next(old(lastWarning), missing, now)
      ensures res.Ok? ==> Distinct(fired) && Elements(fired) == Due(old(lastWarning), missing, now)
      ensures res.Ok? ==> res.value == Alert(RiskList(fired), ApparelList(fired))
      ensures res.Err? ==> res.error.key in missing && res.error.key !in NegativeLabels
      ensures res.Err? ==> forall k :: k in lastWarning ==>
                lastWarning[k] == old(lastWarning)[k]
                || (k in Due(old(lastWarning), missing, now) && lastWarning[k] == now)
    {
      ghost var start := lastWarning;
      var remaining := missing;
      var risks: seq<string> := [];
      var apparel: seq<string> := [];
      fired := [];
      while remaining != {}
        invariant remaining <= missing
        invariant missing - remaining <= NegativeLabels
        invariant lastWarning == Next(start, missing - remaining, now)
        invariant Distinct(fired) && Elements(fired) == Due(start, missing - remaining, now)
        invariant risks == RiskList(fired) && apparel == ApparelList(fired)
        decreases remaining
      {
        var item :| item in remaining;
        ghost var done := missing - remaining;
        remaining := remaining - {item};
        assert missing - remaining == done + {item};
        if item !in lastWarning {
          res := Err(KeyError(item));
          return;
        }
        NextStep(start, done, item, now);
        if now - lastWarning[item] > WarningInterval {
          var advice := AdviceFor(item);
          if advice.Some? {
            risks := risks + [advice.value.risk];
            apparel := apparel + [advice.value.apparel];
          }
          lastWarning := lastWarning[item := now];
          FiredStep(fired, item);
          fired := fired + [item];
        }
      }
      res := Ok(Alert(risks, apparel));
    }
  }

  /** Firing one more label, not fired before, extends the record and the phrase lists. */
  lemma FiredStep(fired: seq<string>, item: string)
    requires Distinct(fired) && item !in Elements(fired)
    ensures Distinct(fired + [item]) && Elements(fired + [item]) == Elements(fired) + {item}
    ensures RiskList(fired + [item])
         == RiskList(fired) + if AdviceFor(item).Some? then [AdviceFor(item).value.risk] else []
    ensures ApparelList(fired + [item])
         == ApparelList(fired) + if AdviceFor(item).Some? then [AdviceFor(item).value.apparel] else []
  {
    assert (fired + [item])[..|fired|] == fired;
  }

  /** Visiting one more missing label changes at most its own entry. */
  lemma NextStep(last: map<string, int>, done: set<string>, item: string, now: int)
    requires item !in done && item in last
    ensures Next(last, done, now)[item] == last[item]
    ensures Due(last, done + {item}, now)
         == Due(last, done, now) + (if now - last[item] > WarningInterval then {item} else {})
    ensures Next(last, done + {item}, now)
         == if now - last[item] > WarningInterval then Next(last, done, now)[item := now] else Next(last, done, now)
  {
  }

  /** After firing at `t`, a label stays quiet at `t + 19` and `t + 20` and
      fires again at `t + 21`. */
  lemma RepeatWindow(last: map<string, int>, missing: set<string>, t: int, k: string)
    requires k in Due(last, missing, t)
    ensures k !in Due(Next(last, missing, t), missing, t + 19)
    ensures k !in Due(Next(last, missing, t), missing, t + WarningInterval)
    ensures k in Due(Next(last, missing, t), missing, t + 21)
  {
  }

  /** One frame as the debounce sees it: its missing labels and the clock. */
  datatype Tick = Tick(missing: set<string>, now: int)

  /** The cooldown map after a session's frames. */
  function After(last: map<string, int>, ticks: seq<Tick>): (m: map<string, int>)
    ensures m.Keys == last.Keys
    decreases |ticks|
  {
    if ticks == [] then last
    else
      var t := ticks[|ticks| - 1];
      Next(After(last, ticks[..|ticks| - 1]), t.missing, t.now)
  }

  /** Label `k` warns in frame `i` of the session. */
  ghost predicate FiresAt(last: map<string, int>, ticks: seq<Tick>, i: int, k: string)
    requires 0 <= i < |ticks|
  {
    k in Due(After(last, ticks[..i]), ticks[i].missing, ticks[i].now)
  }

  /** No cooldown entry ever moves back, whatever the clock does. */
  lemma {:induction false} EntriesNeverDecrease(last: map<string, int>, ticks: seq<Tick>, a: int, b: int, k: string)
    requires 0 <= a <= b <= |ticks| && k in last
    ensures After(last, ticks[..a])[k] <= After(last, ticks[..b])[k]
    decreases b - a
  {
    if a < b {
      EntriesNeverDecrease(last, ticks, a, b - 1, k);
      assert ticks[..b][..b - 1] == ticks[..b - 1];
      assert ticks[..b][b - 1] == ticks[b - 1];
    }
  }

  /** Once a label fires in frame `i`, its entry stays at least that frame's time. */
  lemma StampPersists(last: map<string, int>, ticks: seq<Tick>, i: int, j: int, k: string)
    requires 0 <= i < j <= |ticks|
    requires FiresAt(last, ticks, i, k)
    ensures k in last && After(last, ticks[..j])[k] >= ticks[i].now
  {
    assert ticks[..i + 1][..i] == ticks[..i];
    assert ticks[..i + 1][i] == ticks[i];
    assert After(last, ticks[..i + 1])[k] == ticks[i].now;
    EntriesNeverDecrease(last, ticks, i + 1, j, k);
  }

  /** Two warnings for one label are more than `WarningInterval` seconds apart. */
  lemma Spacing(last: map<string, int>, ticks: seq<Tick>, i: int, j: int, k: string)
    requires 0 <= i < j < |ticks|
    requires FiresAt(last, ticks, i, k) && FiresAt(last, ticks, j, k)
    ensures ticks[j].now - ticks[i].now > WarningInterval
  {
    StampPersists(last, ticks, i, j, k);
  }
}
