# PPE stream: per-frame equipment check and warning debounce

`streamppe.py` is a Streamlit page that reads camera frames, runs a YOLO
detector on each one and reports personal protective equipment (PPE). This
project models the body of its camera loop (lines 66–144): what one frame's
detections turn into, and how the session-wide warning timer changes from
frame to frame.

- **Labels** (`labels.dfy`) holds the label vocabulary. A label counts as
  "missing equipment" exactly when it contains the substring `"NO"`. It also
  holds the box colour rule: green `(0,255,0)` for other labels and red
  `(0,0,255)` for missing ones. A *mark* is what gets drawn for a detection:
  its box, a caption 10 pixels above the box, and the colour.
- **Equipment** (`equipment.dfy`) holds the detection scan. `Scan` is a loop
  over the detections. It starts every class at `"No"` and sets a class to
  `"Yes"` when that label appears. It collects the set of missing labels and
  the marks to draw. `RenderStatus` is the loop that builds the status
  markdown `**k** : v  \n` in the order Hardhat, Mask, Safety Vest.
- **Warnings** (`warnings.dfy`) holds the rest of the warning logic:
  - `WarningTimer` is a class whose one field is the cooldown map
    (`last_warning_time`). The three negative labels start at 0.
  - `Debounce` walks the set of missing labels in an unspecified order.
  - A label fires when `now - last > 20`, with strict `>`. Firing appends
    the label's risk phrase and apparel phrase and stamps the label with
    `now`.
  - A missing label outside the three keys is a `KeyError`. It is modelled
    as an `Err` result.
  - `WarningText` is the sentence
    `WARNING: <risks joined by " and ">. Please wear <apparel joined by " and ">`.
  - Trace lemmas over a sequence of frames show that two warnings for the
    same label are always more than 20 time units apart.
- **Stream** (`stream.dfy`) holds `ProcessFrame`, one iteration of the loop.
  It runs the scan, the debounce, the warning text and the status text.
  `Stream` also works through the worked example of a frame showing a
  hardhat and `NO-Mask`.
- **Text** and **Outcomes** hold the helpers: substring search, `join`,
  `Option` and `Result`.

Time is an integer `now` passed in by the caller. The source reads it from
`time.time()` instead.

## Model

| member | source | states |
|---|---|---|
| Labels.BoxColourRule | streamppe.py:83 | a box is always green or red, and red exactly when the label contains "NO" somewhere |
| Labels.TrackedClassesPresent | streamppe.py:90-98 | the three tracked classes Hardhat, Mask and Safety Vest never count as missing items |
| Labels.CooldownKeysMissing | streamppe.py:31-35 | the three cooldown keys NO-Hardhat, NO-Mask and NO-Safety Vest all count as missing items |
| Text.ContainsIff | streamppe.py:97 | the recursive `"NO" in label` test holds exactly when the substring occurs at some index |
| Text.JoinPartAt | streamppe.py:123-125 | every part of a `sep.join(parts)` occurs in the joined string, at a returned index |
| Text.JoinContainsParts | streamppe.py:123-125 | a joined string contains each of its parts |
| Equipment.Scan | streamppe.py:66-98 | after the loop over all detections: the status has exactly the three class keys; each class is "Yes" iff its label was seen; the missing set is the fold of "NO" labels; one mark per detection |
| Equipment.SeenIff | streamppe.py:90-95 | the scan's seen-test for a class holds exactly when some detection carries that exact label |
| Equipment.MissingOfIff | streamppe.py:97-98 | the collected missing set is exactly the set of detected labels containing "NO" |
| Equipment.MarksOfAt | streamppe.py:81-88 | there is one mark per detection, in order; mark i has detection i's box, caption, caption position and colour |
| Equipment.PresenceMeaning | streamppe.py:66-95 | the scan's status maps each tracked class to "Yes" iff the frame shows it and to "No" iff not; there are no other keys |
| Equipment.MarkPresent | streamppe.py:90-95 | the if/elif updates only the matching tracked class to "Yes" and leaves every other entry and the key set unchanged |
| Equipment.StatusDeterminedByFrame | streamppe.py:66-95 | the status depends only on the current frame: two statuses that both report the same detections are equal (nothing carries over) |
| Equipment.RedIffMissing | streamppe.py:83-98 | a detection's box is red exactly when its label is among the frame's missing items |
| Equipment.RenderStatus | streamppe.py:142-144 | the loop builds the status markdown over the classes in order Hardhat, Mask, Safety Vest |
| Equipment.StatusMarkdownLines | streamppe.py:142-144 | the markdown is the Hardhat line, then the Mask line, then the Safety Vest line, each `**k** : v  \n` |
| Equipment.StatusMarkdownInjective | streamppe.py:142-146 | two Yes/No statuses with the same markdown are the same status, so the text loses nothing |
| Warnings.AdviceFor | streamppe.py:109-117 | the phrase table covers exactly the three negative labels, and each entry's apparel is the label without its "NO-" prefix |
| Warnings.Next | streamppe.py:107-118 | the cooldown update keeps the key set; it never lowers an entry; an entry changes exactly when that label is due; due labels are stamped with `now` |
| Warnings.PhrasesPaired | streamppe.py:104-117 | the risk and apparel lists have equal length, and position i of both comes from the same fired label |
| Warnings.PhrasesFollowFired | streamppe.py:104-117 | when every fired label is a table key, there is one phrase pair per fired label, in firing order, taken from the table |
| Warnings.WarningNamesEveryLabel | streamppe.py:120-126 | a warning is composed iff some label fired, and it contains every fired label's risk phrase and apparel phrase |
| Warnings.LoneMaskWarning | streamppe.py:112-126 | a lone NO-Mask gives exactly "WARNING: Risk of respiratory injury. Please wear Mask" |
| Warnings.WarningTimer.constructor | streamppe.py:31-35 | the cooldown map starts with the three negative labels at 0 |
| Warnings.WarningTimer.Debounce | streamppe.py:103-118 | succeeds iff every missing label is a cooldown key. On success: the map becomes Next(old); the fired labels are distinct and exactly the due ones; the phrases follow the firing order. On failure: the KeyError names a missing label that is not a key, and each entry is unchanged or was due and stamped with `now` |
| Warnings.RepeatWindow | streamppe.py:107-118 | after a warning stamped at t, the label stays quiet at t+19 and t+20 and fires again at t+21 |
| Warnings.EntriesNeverDecrease | streamppe.py:107-118 | across any run of frames, no cooldown entry ever decreases |
| Warnings.StampPersists | streamppe.py:118 | a label that fired at frame i has a stamp of at least that frame's time at every later frame |
| Warnings.Spacing | streamppe.py:107-118 | two warnings for the same label at frames i < j are more than 20 time units apart, even if the clock is not monotone |
| Stream.ProcessFrame | streamppe.py:66-144 | one loop iteration: status reports the frame's detections; one mark per detection; the cooldown map becomes Next(old) over the frame's missing labels; a warning appears iff some label is due, built from the due labels' phrases; the status text is the markdown of the status; a KeyError is returned iff some missing label is not a cooldown key |
| Stream.HardhatNoMaskMissing | streamppe.py:97-98 | a frame with Hardhat and NO-Mask has exactly {NO-Mask} as its missing items |
| Stream.HardhatNoMaskStatus | streamppe.py:66-95 | that frame's status is Hardhat Yes, Mask No, Safety Vest No |
| Stream.HardhatNoMaskSession | streamppe.py:31-118 | from the initial map: nothing is due at time 0; NO-Mask is due at 100; after firing, it is quiet at 105 and due again at 125 |

## Left out

- The Streamlit UI (page setup, the checkbox and the placeholders) is not modelled. Neither are the camera, the YOLO detector, or OpenCV drawing, resizing and colour conversion. A frame enters the model as the list of `(label, box)` detections, and what gets drawn is returned as marks.
- The detector's class id, `model.names` and the float box coordinates are not modelled. Each detection arrives with its label and its integer box already resolved (lines 79–81).
- The boxes are computed on the 640×480 resized frame (line 72) but drawn on the original frame (line 84). They are therefore misplaced whenever the camera resolution differs. Marks carry the detector's coordinates unscaled, as the source does, and the mismatch is not corrected.
- `time.time()` is replaced by an integer parameter `now`. Fractional seconds are not modelled.
- The text-to-speech code (lines 41–45 and 128–132) is commented out in the source and is not modelled.
- The red warning overlay drawn at (20, 40) (lines 134–137) is not modelled as a mark. The model returns the warning sentence instead.
- A camera read failure (lines 61–64) and the end of the loop when the checkbox is cleared are not modelled. The model covers one iteration, plus sequences of iterations in the trace lemmas.
- The iteration order of the Python set `missing_items` is not pinned down. `Debounce` picks an arbitrary remaining label each step, and its contract holds for every order.
- Warnings.WarningNamesEveryLabel: proves that each fired label's phrases occur in the sentence. It does not prove that each occurs exactly once.
- Initial stamps: with integer time starting at 0, the initial stamps of 0 do not fire at time 0, because `0 - 0 > 20` is false. In the code the stamps are compared against epoch seconds, so the first frame always fires. `Stream.HardhatNoMaskSession` therefore starts its example at 100.
- Interval: the cooldown is a strict `>`. A label is quiet at exactly +20 s (`Warnings.RepeatWindow`), so two warnings are more than 20 s apart, not merely at least 20 s.
