/** The detector's label vocabulary as the frame body uses it, and the
    box colour chosen for each detection. */
module Labels {
  import opened Text

  const Hardhat: string := "Hardhat"
  const Mask: string := "Mask"
  const SafetyVest: string := "Safety Vest"

  const NoHardhat: string := "NO-Hardhat"
  const NoMask: string := "NO-Mask"
  const NoSafetyVest: string := "NO-Safety Vest"

  /** The equipment classes tracked in the status map, in its insertion order. */
  const PositiveClasses: seq<string> := [Hardhat, Mask, SafetyVest]
  const PositiveSet: set<string> := {Hardhat, Mask, SafetyVest}

  /** The keys of the cooldown map. */
  const NegativeLabels: set<string> := {NoHardhat, NoMask, NoSafetyVest}

  /** A label signals missing equipment when it contains "NO". */
  predicate IsMissingLabel(name: string) {
    Contains(name, "NO")
  }

  /** An OpenCV colour, in blue-green-red order. */
  datatype Colour = Bgr(b: int, g: int, r: int)

  const Green: Colour := Bgr(0, 255, 0)
  const Red: Colour := Bgr(0, 0, 255)

  /** The colour of a detection's box and caption. */
  function BoxColour(name: string): Colour {
    if !IsMissingLabel(name) then Green else Red
  }

  /** A box is red exactly when "NO" occurs in its label, green otherwise. */
  lemma BoxColourRule(name: string)
    ensures BoxColour(name) == Green || BoxColour(name) == Red
    ensures BoxColour(name) == Red <==> exists i :: OccursAt(name, "NO", i)
  {
    ContainsIff(name, "NO");
  }

  /** Integer pixel corners of a detection box. */
  datatype Box = Box(x1: int, y1: int, x2: int, y2: int)

  datatype Detection = Detection(name: string, box: Box)

  /** What is drawn for one detection: a rectangle of thickness 2 and the
      label 10 pixels above its top-left corner, both in one colour. */
  datatype Mark = Mark(box: Box, caption: string, captionX: int, captionY: int, colour: Colour)

  function MarkOf(d: Detection): Mark {
    Mark(d.box, d.name, d.box.x1, d.box.y1 - 10, BoxColour(d.name))
  }

  /** The three tracked classes never read as missing equipment. */
  lemma TrackedClassesPresent()
    ensures !IsMissingLabel(Hardhat) && !IsMissingLabel(Mask) && !IsMissingLabel(SafetyVest)
  {
    WithoutNIsPresent(Hardhat);
    WithoutNIsPresent(Mask);
    WithoutNIsPresent(SafetyVest);
  }

  /** The three cooldown keys always read as missing equipment. */
  lemma CooldownKeysMissing()
    ensures IsMissingLabel(NoHardhat) && IsMissingLabel(NoMask) && IsMissingLabel(NoSafetyVest)
  {
    assert StartsWith(NoHardhat, "NO");
    assert StartsWith(NoMask, "NO");
    assert StartsWith(NoSafetyVest, "NO");
  }

  /** A name without a capital N never signals missing equipment. */
  lemma {:induction false} WithoutNIsPresent(name: string)
    requires forall i :: 0 <= i < |name| ==> name[i] != 'N'
    ensures !IsMissingLabel(name)
    decreases |name|
  {
    if |name| > 0 {
      WithoutNIsPresent(name[1..]);
      if 2 <= |name| {
        assert name[..2][0] == name[0];
      }
    }
  }
}
