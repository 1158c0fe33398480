/// `SendFormat` (Keys.py:65-189) as an object: the ordered dictionary
/// `format`, the two "stick changed" flags and the remembered hat are fields
/// the methods update in place. Each method is proved to leave the state the
/// matching function of `Frames` describes, and the properties proved there
/// are restated here as what the caller may rely on.
module SendFormats {
  import opened Text
  import opened Controls
  import opened Directions
  import Frames

  class SendFormat {
    var format: Frames.Format
    var lStickChanged: bool
    var rStickChanged: bool
    var hatPos: Hat

    /** The whole record as a value. */
    ghost function State(): Frames.FrameState
      reads this
    {
      Frames.FrameState(format, lStickChanged, rStickChanged, hatPos)
    }

    constructor()
      ensures State() == Frames.Initial
    {
      format := Frames.Neutral;
      lStickChanged := false;
      rStickChanged := false;
      hatPos := CENTER;
    }

    /** `setButton` (Keys.py:87-89): or each flag into the mask. */
    method SetButton(btns: seq<Button>)
      modifies this
      ensures State() == Frames.SetButton(old(State()), btns)
      ensures forall b :: b in format.btn <==> b in old(format.btn) || b in btns
    {
      var i := 0;
      while i < |btns|
        invariant 0 <= i <= |btns|
        invariant State() == Frames.SetButton(old(State()), btns[..i])
      {
        assert btns[..i + 1][..i] == btns[..i];
        format := format.(btn := format.btn + {btns[i]});
        i := i + 1;
      }
      assert btns[..|btns|] == btns;
      forall b ensures b in format.btn <==> b in old(format.btn) || b in btns {
        Frames.RaiseBits(old(format.btn), btns, b);
      }
    }

    /** `unsetButton` (Keys.py:91-93): and each flag's complement into the mask. */
    method UnsetButton(btns: seq<Button>)
      modifies this
      ensures State() == Frames.UnsetButton(old(State()), btns)
      ensures forall b :: b in format.btn <==> b in old(format.btn) && b !in btns
    {
      var i := 0;
      while i < |btns|
        invariant 0 <= i <= |btns|
        invariant State() == Frames.UnsetButton(old(State()), btns[..i])
      {
        assert btns[..i + 1][..i] == btns[..i];
        format := format.(btn := format.btn - {btns[i]});
        i := i + 1;
      }
      assert btns[..|btns|] == btns;
      forall b ensures b in format.btn <==> b in old(format.btn) && b !in btns {
        Frames.LowerBits(old(format.btn), btns, b);
      }
    }

    method ResetAllButtons()
      modifies this
      ensures State() == Frames.ResetAllButtons(old(State()))
      ensures format.btn == {}
    {
      format := format.(btn := {});
    }

    /** `setHat` (Keys.py:98-104): the first entry wins; an empty list shows the remembered hat again. */
    method SetHat(hats: seq<Hat>)
      modifies this
      ensures State() == Frames.SetHat(old(State()), hats)
      ensures hats != [] ==> format.hat == hats[0] && hatPos == hats[0]
      ensures hats == [] ==> format.hat == old(hatPos) && hatPos == old(hatPos)
    {
      if hats == [] {
        format := format.(hat := hatPos);
      } else {
        hatPos := hats[0];
        format := format.(hat := hats[0]);
      }
    }

    method UnsetHat()
      modifies this
      ensures State() == Frames.UnsetHat(old(State()))
      ensures format.hat == CENTER && hatPos == CENTER
    {
      hatPos := CENTER;
      format := format.(hat := hatPos);
    }

    /** `setAnyDirection` (Keys.py:111-124): store each direction's x and 255 - y, flagging a moved stick. */
    method SetAnyDirection(dirs: seq<Direction>)
      modifies this
      ensures State() == Frames.SetAnyDirection(old(State()), dirs)
      ensures old(lStickChanged) ==> lStickChanged
      ensures old(rStickChanged) ==> rStickChanged
      ensures format.btn == old(format.btn) && format.hat == old(format.hat) && hatPos == old(hatPos)
    {
      var i := 0;
      while i < |dirs|
        invariant 0 <= i <= |dirs|
        invariant State() == Frames.SetAnyDirection(old(State()), dirs[..i])
      {
        assert dirs[..i + 1][..i] == dirs[..i];
        var d := dirs[i];
        if d.stick == Stick.LEFT {
          if format.lx != d.x || format.ly != 255 - d.y {
            lStickChanged := true;
          }
          format := format.(lx := d.x);
          format := format.(ly := 255 - d.y);
        } else {
          if format.rx != d.x || format.ry != 255 - d.y {
            rStickChanged := true;
          }
          format := format.(rx := d.x);
          format := format.(ry := 255 - d.y);
        }
        i := i + 1;
      }
      assert dirs[..|dirs|] == dirs;
      Frames.SetAnyDirectionFlags(old(State()), dirs, Stick.LEFT);
      Frames.SetAnyDirectionFlags(old(State()), dirs, Stick.RIGHT);
    }

    /** `unsetDirection` (Keys.py:126-142): centre the released axis and snap the other one to a pole. */
    method UnsetDirection(tilts: seq<Tilt>)
      modifies this
      ensures State() == Frames.UnsetDirection(old(State()), tilts)
    {
      if UP in tilts || DOWN in tilts {
        format := format.(ly := Center);
        format := format.(lx := Frames.FixOtherAxis(format.lx));
        lStickChanged := true;
      }
      if Tilt.RIGHT in tilts || Tilt.LEFT in tilts {
        format := format.(lx := Center);
        format := format.(ly := Frames.FixOtherAxis(format.ly));
        lStickChanged := true;
      }
      if R_UP in tilts || R_DOWN in tilts {
        format := format.(ry := Center);
        format := format.(rx := Frames.FixOtherAxis(format.rx));
        rStickChanged := true;
      }
      if R_RIGHT in tilts || R_LEFT in tilts {
        format := format.(rx := Center);
        format := format.(ry := Frames.FixOtherAxis(format.ry));
        rStickChanged := true;
      }
    }

    /** `resetAllDirections` (Keys.py:151-158): centre both sticks and flag both; the hat field is kept. */
    method ResetAllDirections()
      modifies this
      ensures State() == Frames.ResetAllDirections(old(State()))
      ensures format.hat == old(format.hat)
    {
      format := format.(lx := Center, ly := Center, rx := Center, ry := Center);
      lStickChanged := true;
      rStickChanged := true;
      hatPos := CENTER;
    }

    /** `convert2str` (Keys.py:160-189): render the frame, then lower both flags. */
    method Convert2Str() returns (line: string)
      modifies this
      ensures line == Frames.Wire(old(State()))
      ensures State() == Frames.Sent(old(State()))
      ensures Frames.ParseFrame(line) == Some(Frames.ReportOf(old(State())))
    {
      var space := " ";
      // Shifting by two leaves the two low bits clear, so or-ing 2 or 1 in adds it.
      var sendBtn := MaskValue(format.btn) * 4;
      var strL := "";
      var strR := "";
      if lStickChanged {
        sendBtn := sendBtn + 2;
        strL := HexInt(format.lx) + space + HexInt(format.ly);
      }
      if rStickChanged {
        sendBtn := sendBtn + 1;
        strR := HexInt(format.rx) + space + HexInt(format.ry);
      }
      var strHat := Frames.Decimal(HatValue(format.hat));
      var s := State();
      assert sendBtn == Frames.SendBits(s);
      var tailL := if lStickChanged then space + strL else "";
      var tailR := if rStickChanged then space + strR else "";
      assert tailL == Frames.Tail(s.lStickChanged, s.format.lx, s.format.ly);
      assert tailR == Frames.Tail(s.rStickChanged, s.format.rx, s.format.ry);
      line := Hex06(sendBtn) + (space + strHat) + tailL + tailR;
      lStickChanged := false;
      rStickChanged := false;
      Frames.WireRoundTrip(old(State()));
    }
  }
}
