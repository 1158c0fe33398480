# Keys: the controller input model, in Dafny

This project models the core of `Keys.py`, the part of a Python game-controller
automation tool that turns key presses into text frames for a microcontroller
acting as a gamepad. It covers four parts:

- **The vocabularies** (`controls.dfy`, module `Controls`): the fourteen
  `Button` flags (`IntFlag`, `auto()` from 1, so bit `1 << i` for the i-th
  button), the nine `Hat` positions (`IntEnum` 0..8), the two sticks, the
  eight tilts and the axis constants 0, 128 and 255.
  - A button mask is the set of `IntFlag` members it contains.
  - `MaskValue` gives the integer it stands for, and `DecodeMask` reads that
    integer back.
- **`SendFormat`**, the frame record and its encoder.
  - `frames.dfy` (module `Frames`) gives the record as a value, each setter as
    a function from the old record to the new one, and the line `convert2str`
    writes (`Wire`).
  - `ParseFrame` reads such a line back the way the receiving firmware must.
  - `send_format.dfy` (module `SendFormats`) is the class whose methods update
    the record in place, each proved to leave the state the matching `Frames`
    function describes.
  - `text.dfy` (module `Text`) covers the Python text built-ins the encoder
    uses: `format(n, 'x')`, `format(n, '#06x')`, `str(n)`, and splitting and
    joining on one space. Each comes with its reader and a round-trip proof.
- **`Direction`** (`directions.dfy`, module `Directions`), reduced to integer
  geometry.
  - A direction is a stick, the integer pair `x, y`, and the label its
    `__eq__` compares.
  - `GetTilting` classifies a deflection into tilts.
- **`KeyPress`**, the input aggregator.
  - `sessions.dfy` (module `Sessions`) describes it as functions over a
    session value: the frame record, the held keys, the pressed buttons and
    hats, what each stick slot shows and whether it holds a press time, and
    the rows sent so far.
  - `keypress.dfy` (module `KeyPresses`) is the class that does the same in
    place over a `SendFormat` object and a `Serial` sink. Each method is
    proved to produce the session the matching function gives.

Properties proved:

- Each setter keeps or changes exactly the documented fields.
- A frame reads back as its buttons, its hat and the pairs of exactly the
  dirty sticks.
- The mask field is always `0x` and four digits.
- Dirty flags are edge-triggered.
- Releasing a direction centres its stick and snaps the other axis to a pole.
- `input` sends one frame with the expected contents; `inputEnd` does too,
  unless it releases a direction on a stick no `input` has pressed, where the
  source raises before sending.
- `hold`, `holdEnd` and `end` behave as stated below.
- Pressing and releasing one key returns to the start state, apart from the
  press time a tapped direction leaves on its stick.

## Model

| member | source | states |
|---|---|---|
| Controls.IndexInOrder | Keys.py:13-27 | each button sits at its declaration position, so `auto()` gives it the flag `1 << position` |
| Controls.MaskValueBound | Keys.py:13-27 | the integer of any button mask is below 2^14 |
| Controls.DecodeMaskValue | Keys.py:13-27 | the integer of a mask determines the mask: decoding the sum of the members' flags gives the members back |
| Controls.MaskValueSingle | Keys.py:13-27 | a one-button mask's integer is that button's flag |
| Controls.HatValueInjective | Keys.py:30-39 | hat values lie in 0..8 and name their position uniquely |
| Directions.SameDirectionFromPoint | Keys.py:228-232 | two directions built from `(x, y)` tuples are equal exactly when stick, x and y all agree |
| Directions.SameDirectionIgnoresMagnitude | Keys.py:267-274 | `__eq__` looks only at the stick and the label, so two deflections along one angle are equal whatever their coordinates |
| Directions.GetTilting | Keys.py:283-305 | at most two tilts, all on the direction's stick; the low-x tilt is present iff x < 128, high-x iff x > 128, low-y iff y < 127, high-y iff y > 127 |
| Frames.RaiseBits | Keys.py:87-89 | after `setButton` a button is in the mask iff it was before or was given |
| Frames.LowerBits | Keys.py:91-93 | after `unsetButton` a button is in the mask iff it was before and was not given |
| Frames.HatFirstWins | Keys.py:98-104 | a non-empty hat list shows and remembers its first entry, and a following empty list shows the same hat again |
| Frames.SetDirectionFlag | Keys.py:111-124 | one direction stores x and 255 - y on its own stick; the flag is raised exactly when the pair moved or was raised already; the other stick is unchanged |
| Frames.SetAnyDirectionFlags | Keys.py:111-124 | a sequence of directions leaves buttons, hat and remembered hat alone, never lowers a flag, and raises it whenever the pair moved |
| Frames.SetAnyDirectionOther | Keys.py:111-124 | a stick no direction names keeps its pair and its flag |
| Frames.SetAnyDirectionLast | Keys.py:111-124 | the last direction naming a stick decides its pair |
| Frames.FixOtherAxis | Keys.py:145-149 | the result is 128 iff the input is 128, 0 iff the input is below 128, and 255 iff it is above |
| Frames.FixOtherAxisIdempotent | Keys.py:145-149 | snapping twice equals snapping once |
| Frames.UnsetDirectionStick | Keys.py:126-142 | per stick: a vertical release centres y and snaps x, a horizontal one the mirror image, both centre both; the flag is raised iff a tilt of that stick was released; buttons and hat unchanged |
| Frames.ReleaseBothCentres | Keys.py:126-142 | releasing a vertical and a horizontal tilt of one stick leaves both of its axes at 128 |
| Frames.AxesStayInRange | Keys.py:111-149 | with in-range directions the axes stay in [0, 255]; a release keeps them there |
| Frames.WireRoundTrip | Keys.py:160-189 | the line reads back as the button mask, the hat value and the pairs of exactly the dirty sticks |
| Frames.FrameFields | Keys.py:180-183 | the line has two fields plus two per dirty stick, and the second field is the hat in decimal |
| Frames.MaskFieldWidth | Keys.py:168-180 | the first field is always `0x` and exactly four hex digits |
| Frames.SendBitsSplit | Keys.py:168-174 | the mask field's value shifted right by two is the button mask; its two low bits are the left and right dirty flags |
| Frames.SecondFrameBare | Keys.py:185-186 | after a frame is sent, the next frame has only its two fields and no coordinates |
| Text.Hex06RoundTrip | Keys.py:180 | `format(n, '#06x')` reads back as n |
| Text.Hex06Width | Keys.py:180 | below 16^4 the rendering is `0x` and exactly four digits |
| Text.HexIntRoundTrip | Keys.py:172 | `format(v, 'x')` reads back as v, negative values included, and holds no space |
| Text.ParseDigits | Keys.py:177 | `str(n)` reads back as n |
| Text.SplitJoin | Keys.py:180-183 | splitting on single spaces undoes joining space-free fields |
| SendFormats.SendFormat.constructor | Keys.py:66-85 | the record starts with an empty mask, a centred hat, centred axes and clear flags |
| SendFormats.SendFormat.SetButton | Keys.py:87-89 | the new state is `Frames.SetButton` of the old, and a button is set iff it was set or given |
| SendFormats.SendFormat.UnsetButton | Keys.py:91-93 | the new state is `Frames.UnsetButton` of the old, and a button is set iff it was set and not given |
| SendFormats.SendFormat.ResetAllButtons | Keys.py:95-96 | the mask is empty and nothing else changes |
| SendFormats.SendFormat.SetHat | Keys.py:98-104 | an empty list shows the remembered hat; otherwise the first entry is shown and remembered |
| SendFormats.SendFormat.UnsetHat | Keys.py:106-109 | the shown and the remembered hat are both CENTER |
| SendFormats.SendFormat.SetAnyDirection | Keys.py:111-124 | the new state is `Frames.SetAnyDirection` of the old; flags are never lowered; buttons and hat are unchanged |
| SendFormats.SendFormat.UnsetDirection | Keys.py:126-142 | the new state is `Frames.UnsetDirection` of the old |
| SendFormats.SendFormat.ResetAllDirections | Keys.py:151-158 | all four axes centred, both flags raised, remembered hat CENTER, shown hat kept |
| SendFormats.SendFormat.Convert2Str | Keys.py:160-189 | the line is `Frames.Wire` of the old record and reads back as its report; both flags are lowered afterwards |
| Sessions.ButtonsOfMembers | Keys.py:381-384 | a button is among the sorted buttons iff the list holds it |
| Sessions.HatsOfFirst | Keys.py:385-387 | the first sorted hat is the hat of the list's first hat entry |
| Sessions.TiltsMembers | Keys.py:443-451 | a tilt is collected iff some released direction yields it |
| Sessions.DirectionsOfMembers | Keys.py:429-430 | a direction is among the sorted directions iff the list holds it |
| Sessions.StickPressedLast | Keys.py:388-393 | after pressing, a stick slot shows the label of the last direction on that stick |
| Sessions.StickPressedKeeps | Keys.py:388-393 | after pressing, a stick slot keeps its label when no direction on that stick is given |
| Sessions.StickReleasedAny | Keys.py:429-440 | after releasing, a stick slot is emptied iff a direction on it was released, and otherwise keeps its label |
| Sessions.MergeHeldSpec | Keys.py:377-379 | the merged list starts with the keys given, contains every held key, and appends only held keys not yet present |
| Sessions.MergeHeldKinds | Keys.py:377-379 | a button or hat is in the merged list iff it was given or held |
| Sessions.HoldKeysSpec | Keys.py:476-482 | the hold loop completes iff no key is held already or given twice, and then holds them all; otherwise it keeps the keys appended before the first stale one |
| Sessions.RemoveFirstAbsent | Keys.py:489-490 | `remove` fails exactly when the key is not held |
| Sessions.RemoveFirstAt | Keys.py:489-490 | `remove` drops the first matching entry and nothing else |
| Sessions.RemoveKeysUndoesHold | Keys.py:476-490 | removing the keys a successful hold appended gives the held list back |
| Sessions.MergeHeldNames | Keys.py:377-379 | a direction on a stick is in the merged list iff one was given or held |
| Sessions.RemoveKeysFails | Keys.py:489-490 | the removal loop fails iff some key is not held once the keys before it are removed, and the held list then keeps those removals |
| Sessions.InputSendsFrame | Keys.py:371-407 | `input` appends exactly one row, which reads back as the pressed frame, and leaves both flags lowered |
| Sessions.InputButtons | Keys.py:377-403 | the frame carries a button iff it was set before, given or held; the pressed-button set grows the same way |
| Sessions.InputHat | Keys.py:385-404 | the frame shows the first hat given; with none given or held, the hat last remembered |
| Sessions.MergeHeldFirstHat | Keys.py:377-387 | with no hat given, the first held hat is merged in ahead of every other hat |
| Sessions.HeldHatReasserted | Keys.py:377-404 | when the batch has no hat, the frame shows the first held hat, even after an `inputEnd` centred it |
| Sessions.InputEndReleases | Keys.py:412-467 | in the released frame a button is set iff it was set and not released, and the hat is always CENTER; if every released direction's stick has a press time, one row is appended and reads back as that frame, otherwise the frame state is untouched and nothing is sent |
| Sessions.ReleaseTimedKeys | Keys.py:442-448 | `inputEnd` raises exactly when it releases a direction on a stick whose time slot is still `None` |
| Sessions.PressStampsSticks | Keys.py:389-393 | `input` gives a press time to exactly the sticks its given or held directions name, `inputEnd` keeps them, so releasing what an `input` pressed never raises |
| Sessions.PressReleaseCentres | Keys.py:111-149 | pressing a direction and releasing it centres its stick and leaves the other stick, buttons and hat alone |
| Sessions.ReleaseDirection | Keys.py:412-467 | whatever keys are held, releasing the one direction pressed from the initial frame state restores the initial frame state, empties that stick's slot, leaves every other part of the session alone and sends one row |
| Sessions.TapReturnsToStart | Keys.py:371-467 | pressing and releasing one key from a fresh `KeyPress` sends two rows and restores every part of the state except the press time of a tapped direction's stick |
| Sessions.HoldRefused | Keys.py:472-480 | a `hold` naming an already-held key only holds the keys before it and leaves frame, pressed sets, stick slots, press times and rows as they were |
| Sessions.HoldOutcome | Keys.py:472-483 | a `hold` on fresh keys holds all of them and is exactly `input` of those keys over the extended held list |
| Sessions.HoldEndUndoesHold | Keys.py:472-492 | `holdEnd` of exactly the keys a `hold` took succeeds, restores the held list and is exactly `inputEnd` of those keys on the held session; the pair sends two rows |
| Sessions.HoldEndUnheld | Keys.py:485-490 | `holdEnd` raises in `remove` iff some key is not held once the keys before it are removed; it then keeps those removals and sends nothing |
| Sessions.EndSendsEnd | Keys.py:494-495 | `end` appends the single row `end` and changes nothing else |
| Sessions.PyEqCollisions | Keys.py:476-478 | within one kind Python's `==` is key equality; between a button and a hat exactly the four pairs Y/TOP_RIGHT, B/RIGHT, A/BTM and X/CENTER are equal |
| Sessions.HoldHatBehindButton | Keys.py:476-480 | with Y held, holding TOP_RIGHT is refused as written and sends nothing; compared by kind it is held and a frame is sent |
| Sessions.MergeDropsHeldHat | Keys.py:377-379 | as written, a held TOP_RIGHT is not merged into a batch holding Y; compared by kind it is |
| Sessions.RemoveTakesButton | Keys.py:485-492 | as written, with only Y held, `holdEnd([TOP_RIGHT])` removes Y, sends a frame and keeps Y's bit as it was; compared by kind `remove` raises and nothing changes |
| Sessions.HeldDirectionBlocksInput | Keys.py:395-407 | as written, `input` with a direction held sends nothing and leaves the frame state alone; the corrected `input` sends one frame |
| Sessions.HoldDirectionSendsNothing | Keys.py:472-483 | as written, a `hold` naming a direction sends nothing; the corrected `hold` of fresh keys sends one frame |
| KeyPresses.Serial.WriteRow | Sender.py:68-89 | the row is appended to the rows sent |
| KeyPresses.KeyPress.constructor | Keys.py:330-369 | the object starts as `Sessions.Start` over what the sink has received |
| KeyPresses.KeyPress.Input | Keys.py:371-407 | the new session is `Sessions.Input` of the old |
| KeyPresses.KeyPress.Press | Keys.py:381-393 | the batch is sorted into its buttons and hats in order; the pressed sets, stick slots and stick press times are updated |
| KeyPresses.KeyPress.InputEnd | Keys.py:412-467 | the new session is `Sessions.InputEnd` of the old, and `ok` is false exactly where the source raises |
| KeyPresses.KeyPress.Release | Keys.py:422-440 | the batch is sorted into its buttons, hats and directions in order; the pressed sets lose them and the released sticks' slots are emptied |
| KeyPresses.TiltsOf | Keys.py:443-451 | the loop completes iff every released direction's stick has a press time, and then the tilts collected are those of each released direction in order |
| KeyPresses.KeyPress.Hold | Keys.py:472-483 | the new session is `Sessions.Hold` of the old |
| KeyPresses.KeyPress.HoldEnd | Keys.py:485-492 | the new session and the success flag are `Sessions.HoldEnd` of the old, the flag false where `remove` or `inputEnd` raises |
| KeyPresses.KeyPress.End | Keys.py:494-495 | the new session is `Sessions.End` of the old |

## Left out

- The angle path of the `Direction` constructor (`math.radians`, `cos`, `sin`, `ceil`, `floor`) and the clamp of the float magnitude. These are floating point. A direction built from an angle carries its integer x and y as given, and its label is the angle.
- The sixteen class-level `Direction` constants. They are built through the float path.
- `Direction.__str__`, `__repr__`, `name` and `showName`. They are diagnostic text only.
- Logging, the logger set-up and the values of every `time.perf_counter` timestamp. This includes the `buttons_pressed`, `hats_pressed` and `sticks_pressed` dictionaries. The time field of each `sticks` slot is kept only as whether it holds a time or `None`, because `inputEnd` raises `TypeError` on a released direction whose slot is still `None` (Keys.py:446 and 448).
- The magnitude slot of `sticks`.
- The return value of `writeRow` stored in `change_key_state_time`.
- `self.q`, which is never used, and the other `KeyPress` attributes that no modelled method reads.
- The `ifPrint`/`ifprint` and `unset_hat` parameters. Neither is read: `inputEnd` always centres the hat.
- The wrapping of a single non-list argument into a one-element list. Every key method here takes a list.
- The in-place append to the caller's list in `input`, which the caller can observe through aliasing. The model returns the merged list as a value, and `KeyPress.Input` takes its argument by value.
- The `print` of a refused `hold`.
- The `print` of the pressed amount when a `Direction` is built from an `(x, y)` tuple (Keys.py:233): console output only, it changes no state.
- The serial transport: opening the port, the `\r\n` line ending and UTF-8 encoding, exceptions from the port, and the debug printer `show_input`, which `writeRow` never reaches with its default argument. `Serial.WriteRow` models the sink as the sequence of rows written.
- The receiving firmware is not part of this model. `Frames.ParseFrame` is a reader written to match the frame layout, not a model of the firmware.
- `Sessions.Hold`, `Sessions.HoldEnd` and `Sessions.Input`: these and the class methods compare keys by kind (`SameKey`), not by Python's `==` as written. They are the corrected definitions of the findings below; the as-written comparison is modelled separately as `PyEq`.
- Sessions.Input: it is the corrected `input` of the held-direction finding below. As written, `input` raises at Keys.py:396 while a direction is held and sends nothing; `Sessions.InputAsWritten` models that.
- Sessions.Hold: the corrected `hold`, for the same reason. As written, a `hold` naming a direction sends nothing (`Sessions.HoldAsWritten`). A refused direction also raises `TypeError` at Keys.py:478, because `Direction.name` is a method; the state it leaves is the one modelled.
- Sessions.InputSendsFrame: stated of the corrected `input`. As written, no row is sent while a direction is held (`Sessions.HeldDirectionBlocksInput`).
- Sessions.HoldOutcome: stated of the corrected `hold`. As written, a `hold` on fresh keys that include a direction sends no frame (`Sessions.HoldDirectionSendsNothing`).
- Sessions.HoldEndUndoesHold: stated of the corrected `hold`. As written, the `hold` half sends no row when the keys include a direction.
- KeyPresses.KeyPress.Input: follows the corrected `Sessions.Input`.
- KeyPresses.KeyPress.Hold: follows the corrected `Sessions.Hold`.
- The rest of the repository (`Sender.py` apart from `writeRow`, the camera thread, the logging receivers, the GUI bootstrap and the command scripts) is not part of this model.

## Findings

| source | as written | input that shows it | evidently intended | confidence | as-written member | corrected member |
|---|---|---|---|---|---|---|
| Keys.py:476-480 | `btn in self.holdButton` compares a `Hat` with a held `Button` by integer value, because `IntFlag` and `IntEnum` both use `int` equality | `hold([Hat.TOP_RIGHT])` while `Button.Y` is held: 1 == 1, so the hat is reported as already held and nothing is sent | a key counts as held only if a key of the same kind and value is held | not executed | Sessions.HoldHatBehindButton | Sessions.HoldKeysSpec |
| Keys.py:377-379 | `btn not in btns` in the merge of held keys uses the same cross-kind equality | `input([Button.Y])` with `Hat.TOP_RIGHT` held: the held hat is not merged in, so the frame does not show it | every held key of a kind and value not already given is merged in | not executed | Sessions.MergeDropsHeldHat | Sessions.MergeHeldSpec |
| Keys.py:489-490 | `self.holdButton.remove(btn)` removes the first entry `==` to the key, whatever its kind | after `hold([Button.Y])`, `holdEnd([Hat.TOP_RIGHT])`: `Button.Y` is removed instead of `ValueError` being raised, and the `inputEnd` that follows leaves Y's bit set though Y is no longer held | the entry of the same kind and value is removed, and a key that is not held raises | not executed | Sessions.RemoveTakesButton | Sessions.RemoveFirstAbsent |
| Keys.py:395-401 | `set(self.holdButton)` hashes every held key, but `Direction` defines `__eq__` without `__hash__`, so it is unhashable | `hold([Direction(Stick.LEFT, (200, 90))])` on a fresh `KeyPress`: the direction is appended, `input` raises `TypeError` at line 396 and no frame is sent; every later `input` raises until `holdEnd` | a held direction is re-asserted by every `input`, which sends its frame | not executed | Sessions.HoldDirectionSendsNothing | Sessions.HoldOutcome |
