/** The detection loop of one frame (status map, missing-item set, drawn
    marks) and the status markdown built from the status map. */
module Equipment {
  import opened Text
  import opened Labels

  const Yes: string := "Yes"
  const No: string := "No"

  /** Some detection of this frame carries exactly `name`. */
  ghost predicate Shows(detections: seq<Detection>, name: string) {
    exists i :: 0 <= i < |detections| && detections[i].name == name
  }

  /** The status map reports, for each tracked class, whether this frame
      alone shows it. */
  ghost predicate TracksPresence(status: map<string, string>, detections: seq<Detection>) {
    && status.Keys == PositiveSet
    && Reports(status, detections, Hardhat)
    && Reports(status, detections, Mask)
    && Reports(status, detections, SafetyVest)
  }

  /** The entry for class `c` is "Yes" if the frame shows `c` and "No" if not. */
  ghost predicate Reports(status: map<string, string>, detections: seq<Detection>, c: string) {
    c in status && (status[c] == Yes <==> Shows(detections, c)) && (status[c] == No <==> !Shows(detections, c))
  }

  /** The labels of this frame that signal missing equipment, each once. */
  ghost function MissingLabels(detections: seq<Detection>): set<string> {
    set i | 0 <= i < |detections| && IsMissingLabel(detections[i].name) :: detections[i].name
  }

  // The loop's running values, as folds over the detections seen so far.

  /** Whether a detection so far carried exactly `name`. */
  predicate Seen(detections: seq<Detection>, name: string) {
    detections != [] && (Seen(detections[..|detections| - 1], name) || detections[|detections| - 1].name == name)
  }

  function Flag(present: bool): string {
    if present then Yes else No
  }

  /** The missing-item set so far. */
  function MissingOf(detections: seq<Detection>): set<string> {
    if detections == [] then {}
    else
      var d := detections[|detections| - 1];
      MissingOf(detections[..|detections| - 1]) + if IsMissingLabel(d.name) then {d.name} else {}
  }

  /** The marks drawn so far, in detection order. */
  function MarksOf(detections: seq<Detection>): seq<Mark> {
    if detections == [] then []
    else MarksOf(detections[..|detections| - 1]) + [MarkOf(detections[|detections| - 1])]
  }

  /** The running flag is the existence of a matching detection. */
  lemma {:induction false} SeenIff(detections: seq<Detection>, name: string)
    ensures Seen(detections, name) <==> Shows(detections, name)
  {
    if detections != [] {
      var init := detections[..|detections| - 1];
      SeenIff(init, name);
      if Shows(init, name) {
        var i :| 0 <= i < |init| && init[i].name == name;
        assert detections[i] == init[i];
      }
      if Shows(detections, name) {
        var i :| 0 <= i < |detections| && detections[i].name == name;
        if i < |init| {
          assert init[i] == detections[i];
        }
      }
    }
  }

  /** The running set is exactly the labels containing "NO". */
  lemma {:induction false} MissingOfIff(detections: seq<Detection>)
    ensures MissingOf(detections) == MissingLabels(detections)
  {
    if detections != [] {
      var init := detections[..|detections| - 1];
      MissingOfIff(init);
      assert forall i :: 0 <= i < |init| ==> init[i] == detections[i];
    }
  }

  /** The running marks are one per detection, in order. */
  lemma {:induction false} MarksOfAt(detections: seq<Detection>)
    ensures |MarksOf(detections)| == |detections|
    ensures forall i :: 0 <= i < |detections| ==> MarksOf(detections)[i] == MarkOf(detections[i])
  {
    if detections != [] {
      var init := detections[..|detections| - 1];
      MarksOfAt(init);
      assert forall i :: 0 <= i < |init| ==> init[i] == detections[i];
    }
  }

  /** One pass over the frame's detections: reset the status map, mark each
      class seen, collect the missing labels and the marks to draw. */
  method Scan(detections: seq<Detection>) returns (status: map<string, string>, missing: set<string>, marks: seq<Mark>)
    ensures status.Keys == PositiveSet
    ensures status[Hardhat] == Flag(Seen(detections, Hardhat))
    ensures status[Mask] == Flag(Seen(detections, Mask))
    ensures status[SafetyVest] == Flag(Seen(detections, SafetyVest))
    ensures missing == MissingOf(detections)
    ensures marks == MarksOf(detections)
  {
    status := map[Hardhat := No, Mask := No, SafetyVest := No];
    missing := {};
    marks := [];
    for n := 0 to |detections|
      invariant status.Keys == PositiveSet
      invariant status[Hardhat] == Flag(Seen(detections[..n], Hardhat))
      invariant status[Mask] == Flag(Seen(detections[..n], Mask))
      invariant status[SafetyVest] == Flag(Seen(detections[..n], SafetyVest))
      invariant missing == MissingOf(detections[..n])
      invariant marks == MarksOf(detections[..n])
    {
      var d := detections[n];
      MissingStep(detections, n);
      MarksStep(detections, n);
      marks := marks + [MarkOf(d)];
      ghost var before := status;
      status := MarkPresent(status, d.name);
      FlagStep(detections, n, Hardhat, before[Hardhat], status[Hardhat]);
      FlagStep(detections, n, Mask, before[Mask], status[Mask]);
      FlagStep(detections, n, SafetyVest, before[SafetyVest], status[SafetyVest]);
      if IsMissingLabel(d.name) {
        missing := missing + {d.name};
      }
    }
    assert detections[..|detections|] == detections;
  }

  /** The running flags, once every detection is visited, report presence. */
  lemma PresenceMeaning(detections: seq<Detection>, status: map<string, string>)
    requires status.Keys == PositiveSet
    requires status[Hardhat] == Flag(Seen(detections, Hardhat))
    requires status[Mask] == Flag(Seen(detections, Mask))
    requires status[SafetyVest] == Flag(Seen(detections, SafetyVest))
    ensures TracksPresence(status, detections)
  {
    FlagReports(detections, status, Hardhat);
    FlagReports(detections, status, Mask);
    FlagReports(detections, status, SafetyVest);
  }

  lemma FlagReports(detections: seq<Detection>, status: map<string, string>, c: string)
    requires c in status && status[c] == Flag(Seen(detections, c))
    ensures Reports(status, detections, c)
  {
    SeenIff(detections, c);
  }

  lemma MissingStep(detections: seq<Detection>, n: int)
    requires 0 <= n < |detections|
    ensures MissingOf(detections[..n + 1])
         == MissingOf(detections[..n]) + if IsMissingLabel(detections[n].name) then {detections[n].name} else {}
  {
    assert detections[..n + 1][..n] == detections[..n];
  }

  lemma MarksStep(detections: seq<Detection>, n: int)
    requires 0 <= n < |detections|
    ensures MarksOf(detections[..n + 1]) == MarksOf(detections[..n]) + [MarkOf(detections[n])]
  {
    assert detections[..n + 1][..n] == detections[..n];
  }

  /** One more detection updates the flag of class `c` as the loop does. */
  lemma FlagStep(detections: seq<Detection>, n: int, c: string, before: string, after: string)
    requires 0 <= n < |detections|
    requires before == Flag(Seen(detections[..n], c))
    requires after == if detections[n].name == c then Yes else before
    ensures after == Flag(Seen(detections[..n + 1], c))
  {
    assert detections[..n + 1][..n] == detections[..n];
  }

  /** The `if`/`elif` chain that records one detection in the status map. */
  method MarkPresent(status: map<string, string>, name: string) returns (updated: map<string, string>)
    requires status.Keys == PositiveSet
    ensures updated.Keys == PositiveSet
    ensures updated[Hardhat] == if name == Hardhat then Yes else status[Hardhat]
    ensures updated[Mask] == if name == Mask then Yes else status[Mask]
    ensures updated[SafetyVest] == if name == SafetyVest then Yes else status[SafetyVest]
  {
    DistinctClasses();
    updated := status;
    if name == Hardhat {
      updated := status[Hardhat := Yes];
    } else if name == Mask {
      updated := status[Mask := Yes];
    } else if name == SafetyVest {
      updated := status[SafetyVest := Yes];
    }
  }

  lemma DistinctClasses()
    ensures Hardhat != Mask && Hardhat != SafetyVest && Mask != SafetyVest
  {
    assert |Hardhat| == 7 && |Mask| == 4 && |SafetyVest| == 11;
  }

  /** The detections alone fix the status map: two scans of one frame agree,
      and nothing of an earlier frame can show through. */
  lemma StatusDeterminedByFrame(s1: map<string, string>, s2: map<string, string>, detections: seq<Detection>)
    requires TracksPresence(s1, detections) && TracksPresence(s2, detections)
    ensures s1 == s2
  {
    assert s1[Hardhat] == s2[Hardhat] && s1[Mask] == s2[Mask] && s1[SafetyVest] == s2[SafetyVest];
  }

  /** A box is drawn red exactly when its label is among the frame's missing
      items: colour and warning use one test. */
  lemma RedIffMissing(detections: seq<Detection>, i: int)
    requires 0 <= i < |detections|
    ensures MarkOf(detections[i]).colour == Red <==> detections[i].name in MissingLabels(detections)
  {
  }

  /** One line of the status markdown. */
  function StatusLine(name: string, value: string): string {
    "**" + name + "** : " + value + "  \n"
  }

  /** The lines for `names`, in that order. */
  function Lines(names: seq<string>, status: map<string, string>): string
    requires forall c :: c in names ==> c in status
  {
    if names == [] then ""
    else Lines(names[..|names| - 1], status) + StatusLine(names[|names| - 1], status[names[|names| - 1]])
  }

  /** The status markdown: one line per tracked class, in insertion order. */
  function StatusMarkdown(status: map<string, string>): string
    requires status.Keys == PositiveSet
  {
    Lines(PositiveClasses, status)
  }

  /** The `+=` loop that builds the status markdown. */
  method RenderStatus(status: map<string, string>) returns (text: string)
    requires status.Keys == PositiveSet
    ensures text == StatusMarkdown(status)
  {
    text := "";
    for n := 0 to |PositiveClasses|
      invariant text == Lines(PositiveClasses[..n], status)
    {
      var name := PositiveClasses[n];
      text := text + StatusLine(name, status[name]);
      assert PositiveClasses[..n + 1][..n] == PositiveClasses[..n];
    }
    assert PositiveClasses[..|PositiveClasses|] == PositiveClasses;
  }

  /** The markdown is three lines, Hardhat, Mask, Safety Vest. */
  lemma StatusMarkdownLines(status: map<string, string>)
    requires status.Keys == PositiveSet
    ensures StatusMarkdown(status)
         == StatusLine(Hardhat, status[Hardhat]) + StatusLine(Mask, status[Mask])
            + StatusLine(SafetyVest, status[SafetyVest])
  {
    var two := PositiveClasses[..2];
    assert two == [Hardhat, Mask] && two[..1] == [Hardhat] && [Hardhat][..0] == [];
    assert Lines(PositiveClasses, status) == Lines(two, status) + StatusLine(SafetyVest, status[SafetyVest]);
    assert Lines(two, status) == Lines([Hardhat], status) + StatusLine(Mask, status[Mask]);
    assert Lines([Hardhat], status) == "" + StatusLine(Hardhat, status[Hardhat]);
  }

  /** A status map as the frame body builds it. */
  ghost predicate WellFormed(status: map<string, string>) {
    status.Keys == PositiveSet && forall c :: c in status ==> status[c] in {Yes, No}
  }

  /** A line's value, and the text after the line, can be read back. */
  lemma {:induction false} LineSplit(name: string, v1: string, v2: string, rest1: string, rest2: string)
    requires v1 in {Yes, No} && v2 in {Yes, No}
    requires StatusLine(name, v1) + rest1 == StatusLine(name, v2) + rest2
    ensures v1 == v2 && rest1 == rest2
  {
    var head := "**" + name + "** : ";
    assert StatusLine(name, v1) == head + v1 + "  \n";
    assert StatusLine(name, v2) == head + v2 + "  \n";
    assert (StatusLine(name, v1) + rest1)[|head|] == v1[0];
    assert (StatusLine(name, v2) + rest2)[|head|] == v2[0];
    assert v1 == v2;
    var line := StatusLine(name, v1);
    assert (line + rest1)[|line|..] == rest1;
    assert (line + rest2)[|line|..] == rest2;
  }

  /** Three status lines in a row can be read back value by value. */
  lemma ThreeLinesSplit(x: string, y: string, z: string, a1: string, b1: string, c1: string, a2: string, b2: string, c2: string)
    requires a1 in {Yes, No} && b1 in {Yes, No} && c1 in {Yes, No}
    requires a2 in {Yes, No} && b2 in {Yes, No} && c2 in {Yes, No}
    requires StatusLine(x, a1) + StatusLine(y, b1) + StatusLine(z, c1)
          == StatusLine(x, a2) + StatusLine(y, b2) + StatusLine(z, c2)
    ensures a1 == a2 && b1 == b2 && c1 == c2
  {
    var rest1, rest2 := StatusLine(y, b1) + StatusLine(z, c1), StatusLine(y, b2) + StatusLine(z, c2);
    Associate(StatusLine(x, a1), StatusLine(y, b1), StatusLine(z, c1));
    Associate(StatusLine(x, a2), StatusLine(y, b2), StatusLine(z, c2));
    LineSplit(x, a1, a2, rest1, rest2);
    LineSplit(y, b1, b2, StatusLine(z, c1), StatusLine(z, c2));
    Associate(StatusLine(z, c1), "", "");
    Associate(StatusLine(z, c2), "", "");
    LineSplit(z, c1, c2, "", "");
  }

  lemma Associate(a: string, b: string, c: string)
    ensures a + b + c == a + (b + c)
    ensures a + "" == a
  {
  }

  /** Different status maps give different markdown: the text shows the
      whole status. */
  lemma StatusMarkdownInjective(s1: map<string, string>, s2: map<string, string>)
    requires WellFormed(s1) && WellFormed(s2)
    requires StatusMarkdown(s1) == StatusMarkdown(s2)
    ensures s1 == s2
  {
    StatusMarkdownLines(s1);
    StatusMarkdownLines(s2);
    ThreeLinesSplit(Hardhat, Mask, SafetyVest, s1[Hardhat], s1[Mask], s1[SafetyVest], s2[Hardhat], s2[Mask], s2[SafetyVest]);
  }
}
