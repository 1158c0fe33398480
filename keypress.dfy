/// `KeyPress` (Keys.py:329-495) as an object over its `SendFormat` and the
/// serial sink. Each key method is proved to leave the session the matching
/// function of `Sessions` describes, so every property proved there holds of
/// the rows this object writes.
module KeyPresses {
  import opened Text
  import opened Controls
  import opened Directions
  import opened SendFormats
  import Frames
  import Sessions

  /** The serial sink: `writeRow` appends one row to what the receiver has been sent. */
  class Serial {
    var rows: seq<string>

    constructor(sent: seq<string>)
      ensures rows == sent
    {
      rows := sent;
    }

    method WriteRow(row: string)
      modifies this
      ensures rows == old(rows) + [row]
    {
      rows := rows + [row];
    }
  }

  /**
   * The loop of Keys.py:381-393 over the part of a session it updates: each
   * key goes to the buttons or hats pressed, or sets its stick's slot.
   */
  method SortPressed(s0: Sessions.Session, all: seq<Sessions.Key>)
    returns (buttonsPressed: seq<Button>, hatsPressed: seq<Hat>, sorted: Sessions.Session)
    ensures buttonsPressed == Sessions.ButtonsOf(all) && hatsPressed == Sessions.HatsOf(all)
    ensures sorted == Sessions.Pressed(s0, all)
  {
    buttonsPressed, hatsPressed, sorted := [], [], s0;
    var j := 0;
    while j < |all|
      invariant 0 <= j <= |all|
      invariant buttonsPressed == Sessions.ButtonsOf(all[..j])
      invariant hatsPressed == Sessions.HatsOf(all[..j])
      invariant sorted == Sessions.Pressed(s0, all[..j])
    {
      Sessions.SortSnoc(all[..j], all[j]);
      Sessions.PressedSnoc(s0, all[..j], all[j]);
      assert all[..j + 1] == all[..j] + [all[j]];
      match all[j] {
        case Btn(b) =>
          buttonsPressed := buttonsPressed + [b];
          sorted := sorted.(buttons := sorted.buttons + {b});
        case HatKey(h) =>
          hatsPressed := hatsPressed + [h];
          sorted := sorted.(hats := sorted.hats + {h});
        case Dir(d) =>
          if d.stick == Stick.LEFT {
            sorted := sorted.(lStick := Some(d.shown), lStamped := true);
          } else {
            sorted := sorted.(rStick := Some(d.shown), rStamped := true);
          }
      }
      j := j + 1;
    }
    assert all[..|all|] == all;
  }

  /**
   * The loop of Keys.py:422-440 over the part of a session it updates: each
   * key leaves the buttons or hats pressed, or empties its stick's slot.
   */
  method SortReleased(s0: Sessions.Session, btns: seq<Sessions.Key>)
    returns (buttonsRelease: seq<Button>, hatsRelease: seq<Hat>, directionsRelease: seq<Direction>, sorted: Sessions.Session)
    ensures buttonsRelease == Sessions.ButtonsOf(btns) && hatsRelease == Sessions.HatsOf(btns)
    ensures directionsRelease == Sessions.DirectionsOf(btns)
    ensures sorted == Sessions.Released(s0, btns)
  {
    buttonsRelease, hatsRelease, directionsRelease, sorted := [], [], [], s0;
    var j := 0;
    while j < |btns|
      invariant 0 <= j <= |btns|
      invariant buttonsRelease == Sessions.ButtonsOf(btns[..j])
      invariant hatsRelease == Sessions.HatsOf(btns[..j])
      invariant directionsRelease == Sessions.DirectionsOf(btns[..j])
      invariant sorted == Sessions.Released(s0, btns[..j])
    {
      Sessions.SortSnoc(btns[..j], btns[j]);
      Sessions.ReleasedSnoc(s0, btns[..j], btns[j]);
      assert btns[..j + 1] == btns[..j] + [btns[j]];
      match btns[j] {
        case Btn(b) =>
          buttonsRelease := buttonsRelease + [b];
          sorted := sorted.(buttons := sorted.buttons - {b});
        case HatKey(h) =>
          hatsRelease := hatsRelease + [h];
          sorted := sorted.(hats := sorted.hats - {h});
        case Dir(d) =>
          directionsRelease := directionsRelease + [d];
          if d.stick == Stick.LEFT {
            sorted := sorted.(lStick := None);
          } else {
            sorted := sorted.(rStick := None);
          }
      }
      j := j + 1;
    }
    assert btns[..|btns|] == btns;
  }

  /**
   * The tilts loop of `inputEnd` (Keys.py:443-451): every released
   * direction's tilts, in order. `timed` is false where a direction's stick
   * has no press time to log (Keys.py:445-448), which raises.
   */
  method TiltsOf(directionsRelease: seq<Direction>, lTime: bool, rTime: bool) returns (tilts: seq<Tilt>, timed: bool)
    ensures timed == Sessions.AllStamped(directionsRelease, lTime, rTime)
    ensures timed ==> tilts == Sessions.Tilts(directionsRelease)
  {
    tilts, timed := [], true;
    var k := 0;
    while k < |directionsRelease|
      invariant 0 <= k <= |directionsRelease|
      invariant tilts == Sessions.Tilts(directionsRelease[..k])
      invariant Sessions.AllStamped(directionsRelease[..k], lTime, rTime)
    {
      var d := directionsRelease[k];
      if !(if d.stick == Stick.LEFT then lTime else rTime) {
        assert d in directionsRelease;
        timed := false;
        return;
      }
      assert directionsRelease[..k + 1] == directionsRelease[..k] + [d];
      Sessions.TimedSnoc(directionsRelease[..k], d, lTime, rTime);
      tilts := tilts + GetTilting(directionsRelease[k]);
      k := k + 1;
    }
    assert directionsRelease[..|directionsRelease|] == directionsRelease;
  }

  class KeyPress {
    const ser: Serial
    const format: SendFormat
    var holdButton: seq<Sessions.Key>
    var buttons: set<Button>
    var hats: set<Hat>
    /** What the `sticks` slots remember of a pressed direction: its label, or nothing once released. */
    var lStick: Option<Label>
    var rStick: Option<Label>
    /** Whether the time field of each `sticks` slot holds a press time rather than `None`. */
    var lStamped: bool
    var rStamped: bool

    ghost function Model(): Sessions.Session
      reads this, format, ser
    {
      Sessions.Session(format.State(), holdButton, buttons, hats, lStick, rStick, lStamped, rStamped, ser.rows)
    }

    constructor(ser: Serial)
      ensures this.ser == ser && fresh(format)
      ensures Model() == Sessions.Start(ser.rows)
    {
      this.ser := ser;
      format := new SendFormat();
      holdButton := [];
      buttons := {};
      hats := {};
      lStick := None;
      rStick := None;
      lStamped := false;
      rStamped := false;
    }

    /** `input` (Keys.py:371-407): merge in the held keys, press everything, send one frame. */
    method Input(btns: seq<Sessions.Key>)
      modifies this, format, ser
      ensures Model() == Sessions.Input(old(Model()), btns)
    {
      var all := btns;
      var i := 0;
      while i < |holdButton|
        invariant 0 <= i <= |holdButton|
        invariant all == Sessions.MergeHeld(btns, holdButton[..i])
      {
        assert holdButton[..i + 1][..i] == holdButton[..i];
        if !Sessions.Member(holdButton[i], all) {
          all := all + [holdButton[i]];
        }
        i := i + 1;
      }
      assert holdButton[..|holdButton|] == holdButton;

      var buttonsPressed, hatsPressed := Press(all);
      format.SetButton(buttonsPressed);
      format.SetHat(hatsPressed);
      format.SetAnyDirection(Sessions.DirectionsOf(all));
      var line := format.Convert2Str();
      ser.WriteRow(line);
    }

    /** The sorting loop of `input` (Keys.py:381-393): split the keys by kind and record each as pressed. */
    method Press(all: seq<Sessions.Key>) returns (buttonsPressed: seq<Button>, hatsPressed: seq<Hat>)
      modifies this
      ensures buttonsPressed == Sessions.ButtonsOf(all) && hatsPressed == Sessions.HatsOf(all)
      ensures buttons == Frames.Raise(old(buttons), buttonsPressed)
      ensures hats == Frames.Raise(old(hats), hatsPressed)
      ensures lStick == Sessions.StickPressed(old(lStick), all, Stick.LEFT)
      ensures rStick == Sessions.StickPressed(old(rStick), all, Stick.RIGHT)
      ensures lStamped == (old(lStamped) || Sessions.NamesStick(all, Stick.LEFT))
      ensures rStamped == (old(rStamped) || Sessions.NamesStick(all, Stick.RIGHT))
      ensures holdButton == old(holdButton)
    {
      var s0 := Sessions.Start([]).(buttons := buttons, hats := hats, lStick := lStick, rStick := rStick,
                                     lStamped := lStamped, rStamped := rStamped);
      var sorted;
      buttonsPressed, hatsPressed, sorted := SortPressed(s0, all);
      buttons, hats, lStick, rStick := sorted.buttons, sorted.hats, sorted.lStick, sorted.rStick;
      lStamped, rStamped := sorted.lStamped, sorted.rStamped;
    }

    /**
     * `inputEnd` (Keys.py:412-467): release the keys, centre the hat, undo the
     * released tilts, send one frame; `ok` is false where the debug line of a
     * released direction raises, leaving the frame unsent.
     */
    method InputEnd(btns: seq<Sessions.Key>) returns (ok: bool)
      modifies this, format, ser
      ensures Model() == Sessions.InputEnd(old(Model()), btns)
      ensures ok == Sessions.ReleaseTimed(old(Model()), btns)
    {
      var buttonsRelease, hatsRelease, directionsRelease := Release(btns);
      var tilts;
      tilts, ok := TiltsOf(directionsRelease, lStamped, rStamped);
      if !ok {
        return;
      }
      format.UnsetButton(buttonsRelease);
      format.UnsetHat();
      format.UnsetDirection(tilts);
      var line := format.Convert2Str();
      ser.WriteRow(line);
    }

    /** The sorting loop of `inputEnd` (Keys.py:422-440): split the keys by kind and record each as released. */
    method Release(btns: seq<Sessions.Key>)
      returns (buttonsRelease: seq<Button>, hatsRelease: seq<Hat>, directionsRelease: seq<Direction>)
      modifies this
      ensures buttonsRelease == Sessions.ButtonsOf(btns) && hatsRelease == Sessions.HatsOf(btns)
      ensures directionsRelease == Sessions.DirectionsOf(btns)
      ensures buttons == Frames.Lower(old(buttons), buttonsRelease)
      ensures hats == Frames.Lower(old(hats), hatsRelease)
      ensures lStick == Sessions.StickReleased(old(lStick), btns, Stick.LEFT)
      ensures rStick == Sessions.StickReleased(old(rStick), btns, Stick.RIGHT)
      ensures holdButton == old(holdButton) && lStamped == old(lStamped) && rStamped == old(rStamped)
    {
      var s0 := Sessions.Start([]).(buttons := buttons, hats := hats, lStick := lStick, rStick := rStick);
      var sorted;
      buttonsRelease, hatsRelease, directionsRelease, sorted := SortReleased(s0, btns);
      buttons, hats, lStick, rStick := sorted.buttons, sorted.hats, sorted.lStick, sorted.rStick;
    }

    /** `hold` (Keys.py:472-483): hold each key in turn; on one already held, return without sending. */
    method Hold(btns: seq<Sessions.Key>)
      modifies this, format, ser
      ensures Model() == Sessions.Hold(old(Model()), btns)
    {
      var i := 0;
      while i < |btns|
        invariant 0 <= i <= |btns|
        invariant Sessions.HoldKeys(holdButton, btns[i..]) == Sessions.HoldKeys(old(holdButton), btns)
        invariant Model() == old(Model()).(holdButton := holdButton)
      {
        if Sessions.Member(btns[i], holdButton) {
          return;
        }
        holdButton := holdButton + [btns[i]];
        assert btns[i..][1..] == btns[i + 1..];
        i := i + 1;
      }
      Input(btns);
    }

    /** `holdEnd` (Keys.py:485-492): `ok` is false where `remove` raises `ValueError` or the `inputEnd` it ends with raises. */
    method HoldEnd(btns: seq<Sessions.Key>) returns (ok: bool)
      modifies this, format, ser
      ensures (Model(), ok) == Sessions.HoldEnd(old(Model()), btns)
    {
      var i := 0;
      while i < |btns|
        invariant 0 <= i <= |btns|
        invariant Sessions.RemoveKeys(holdButton, btns[i..]) == Sessions.RemoveKeys(old(holdButton), btns)
        invariant Model() == old(Model()).(holdButton := holdButton)
      {
        var rest := Sessions.RemoveFirst(holdButton, btns[i]);
        if rest.None? {
          return false;
        }
        holdButton := rest.value;
        assert btns[i..][1..] == btns[i + 1..];
        i := i + 1;
      }
      ok := InputEnd(btns);
    }

    /** `end` (Keys.py:494-495). */
    method End()
      modifies ser
      ensures Model() == Sessions.End(old(Model()))
    {
      ser.WriteRow("end");
    }
  }
}
