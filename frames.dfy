/// The frame state of `SendFormat` (Keys.py:65-189) as a value, every setter
/// as a function from the old state to the new one, and the one-line wire
/// frame `convert2str` writes. `ParseFrame` reads a frame the way the
/// receiving firmware must, and the round-trip lemma shows that the frame
/// carries exactly the buttons, the hat and the coordinates of dirty sticks.
module Frames {
  import opened Text
  import opened Controls
  import opened Directions

  /** The ordered dictionary `self.format` (Keys.py:74-81); `btn` is the `IntFlag` value as its set of members. */
  datatype Format = Format(btn: set<Button>, hat: Hat, lx: int, ly: int, rx: int, ry: int)

  /** The whole record: `format`, the two "stick changed" flags and the remembered hat. */
  datatype FrameState = FrameState(format: Format, lStickChanged: bool, rStickChanged: bool, hatPos: Hat)

  const Neutral: Format := Format({}, CENTER, Center, Center, Center, Center)

  /** The state `SendFormat.__init__` builds. */
  const Initial: FrameState := FrameState(Neutral, false, false, CENTER)

  predicate AxesInRange(f: Format)
  {
    Min <= f.lx <= Max && Min <= f.ly <= Max && Min <= f.rx <= Max && Min <= f.ry <= Max
  }

  /** The stored pair of one stick, and its "changed" flag. */
  function Axes(f: Format, st: Stick): (int, int)
  {
    if st == Stick.LEFT then (f.lx, f.ly) else (f.rx, f.ry)
  }

  function Changed(s: FrameState, st: Stick): bool
  {
    if st == Stick.LEFT then s.lStickChanged else s.rStickChanged
  }

  // ---------------------------------------------------------------- buttons

  /** `btn |= flag` for each flag in turn: or-ing a flag in makes it a member. */
  function Raise<T>(mask: set<T>, btns: seq<T>): set<T>
    decreases |btns|
  {
    if btns == [] then mask else Raise(mask, btns[..|btns| - 1]) + {btns[|btns| - 1]}
  }

  /** `btn &= ~flag` for each flag in turn: and-ing with the complement drops the member. */
  function Lower<T>(mask: set<T>, btns: seq<T>): set<T>
    decreases |btns|
  {
    if btns == [] then mask else Lower(mask, btns[..|btns| - 1]) - {btns[|btns| - 1]}
  }

  /** `setButton` raises exactly the given buttons and keeps every other one. */
  lemma {:induction false} RaiseBits<T>(mask: set<T>, btns: seq<T>, b: T)
    ensures b in Raise(mask, btns) <==> b in mask || b in btns
    decreases |btns|
  {
    if btns != [] {
      var init := btns[..|btns| - 1];
      RaiseBits(mask, init, b);
      assert btns == init + [btns[|btns| - 1]];
    }
  }

  /** `unsetButton` clears exactly the given buttons and keeps every other one. */
  lemma {:induction false} LowerBits<T>(mask: set<T>, btns: seq<T>, b: T)
    ensures b in Lower(mask, btns) <==> b in mask && b !in btns
    decreases |btns|
  {
    if btns != [] {
      var init := btns[..|btns| - 1];
      LowerBits(mask, init, b);
      assert btns == init + [btns[|btns| - 1]];
    }
  }

  function SetButton(s: FrameState, btns: seq<Button>): FrameState
  {
    s.(format := s.format.(btn := Raise(s.format.btn, btns)))
  }

  function UnsetButton(s: FrameState, btns: seq<Button>): FrameState
  {
    s.(format := s.format.(btn := Lower(s.format.btn, btns)))
  }

  function ResetAllButtons(s: FrameState): FrameState
  {
    s.(format := s.format.(btn := {}))
  }

  // ---------------------------------------------------------------- hat

  /** `setHat`: an empty list re-applies the remembered hat, otherwise the first entry wins. */
  function SetHat(s: FrameState, hats: seq<Hat>): FrameState
  {
    if hats == [] then s.(format := s.format.(hat := s.hatPos))
    else s.(hatPos := hats[0], format := s.format.(hat := hats[0]))
  }

  function UnsetHat(s: FrameState): FrameState
  {
    s.(hatPos := CENTER, format := s.format.(hat := CENTER))
  }

  /** The hat is single-slot: the first entry is shown and remembered, and a later empty batch shows it again. */
  lemma HatFirstWins(s: FrameState, hats: seq<Hat>)
    requires hats != []
    ensures SetHat(s, hats).format.hat == hats[0] && SetHat(s, hats).hatPos == hats[0]
    ensures SetHat(SetHat(s, hats), []) == SetHat(s, hats)
  {
  }

  // ---------------------------------------------------------------- sticks

  /** One step of `setAnyDirection`: store x and 255 - y, raise the flag if the pair moved. */
  function SetDirection(s: FrameState, d: Direction): FrameState
  {
    var x, y := d.x, 255 - d.y;
    match d.stick
    case LEFT =>
      s.(format := s.format.(lx := x, ly := y),
         lStickChanged := s.lStickChanged || s.format.lx != x || s.format.ly != y)
    case RIGHT =>
      s.(format := s.format.(rx := x, ry := y),
         rStickChanged := s.rStickChanged || s.format.rx != x || s.format.ry != y)
  }

  function SetAnyDirection(s: FrameState, dirs: seq<Direction>): FrameState
    decreases |dirs|
  {
    if dirs == [] then s else SetDirection(SetAnyDirection(s, dirs[..|dirs| - 1]), dirs[|dirs| - 1])
  }

  /** One direction stores its pair on its own stick and raises that stick's flag exactly when the pair moved. */
  lemma SetDirectionFlag(s: FrameState, d: Direction)
    ensures Axes(SetDirection(s, d).format, d.stick) == (d.x, 255 - d.y)
    ensures Changed(SetDirection(s, d), d.stick)
      <==> Changed(s, d.stick) || Axes(s.format, d.stick) != (d.x, 255 - d.y)
    ensures forall st :: st != d.stick ==>
      Axes(SetDirection(s, d).format, st) == Axes(s.format, st) && Changed(SetDirection(s, d), st) == Changed(s, st)
  {
  }

  /** Directions only touch the sticks' pairs and flags; a flag is never lowered and is raised whenever the pair moved. */
  lemma {:induction false} SetAnyDirectionFlags(s: FrameState, dirs: seq<Direction>, st: Stick)
    ensures var r := SetAnyDirection(s, dirs);
      && r.format.btn == s.format.btn && r.format.hat == s.format.hat && r.hatPos == s.hatPos
      && (Changed(s, st) ==> Changed(r, st))
      && (Axes(r.format, st) != Axes(s.format, st) ==> Changed(r, st))
    decreases |dirs|
  {
    if dirs != [] {
      SetAnyDirectionFlags(s, dirs[..|dirs| - 1], st);
    }
  }

  /** A stick that no direction names keeps its pair and its flag. */
  lemma {:induction false} SetAnyDirectionOther(s: FrameState, dirs: seq<Direction>, st: Stick)
    requires forall i :: 0 <= i < |dirs| ==> dirs[i].stick != st
    ensures Axes(SetAnyDirection(s, dirs).format, st) == Axes(s.format, st)
    ensures Changed(SetAnyDirection(s, dirs), st) == Changed(s, st)
    decreases |dirs|
  {
    if dirs != [] {
      SetAnyDirectionOther(s, dirs[..|dirs| - 1], st);
    }
  }

  /** The last direction naming a stick decides its pair, with y stored inverted. */
  lemma {:induction false} SetAnyDirectionLast(s: FrameState, dirs: seq<Direction>, i: nat)
    requires i < |dirs|
    requires forall j :: i < j < |dirs| ==> dirs[j].stick != dirs[i].stick
    ensures Axes(SetAnyDirection(s, dirs).format, dirs[i].stick) == (dirs[i].x, 255 - dirs[i].y)
    decreases |dirs|
  {
    if i < |dirs| - 1 {
      SetAnyDirectionLast(s, dirs[..|dirs| - 1], i);
    }
  }

  /** `fixOtherAxis`: an axis off centre snaps to the pole on its side. */
  function FixOtherAxis(v: int): (r: int)
    ensures r == Center <==> v == Center
    ensures r == Min <==> v < Center
    ensures r == Max <==> v > Center
  {
    if v == Center then Center else if v < Center then Min else Max
  }

  lemma FixOtherAxisIdempotent(v: int)
    ensures FixOtherAxis(FixOtherAxis(v)) == FixOtherAxis(v)
  {
  }

  /** `unsetDirection`: a released vertical tilt centres y and snaps x, a horizontal one the mirror image. */
  function UnsetDirection(s: FrameState, tilts: seq<Tilt>): FrameState
  {
    var s1 := if UP in tilts || DOWN in tilts then
      s.(format := s.format.(ly := Center, lx := FixOtherAxis(s.format.lx)), lStickChanged := true)
      else s;
    var s2 := if Tilt.RIGHT in tilts || Tilt.LEFT in tilts then
      s1.(format := s1.format.(lx := Center, ly := FixOtherAxis(s1.format.ly)), lStickChanged := true)
      else s1;
    var s3 := if R_UP in tilts || R_DOWN in tilts then
      s2.(format := s2.format.(ry := Center, rx := FixOtherAxis(s2.format.rx)), rStickChanged := true)
      else s2;
    if R_RIGHT in tilts || R_LEFT in tilts then
      s3.(format := s3.format.(rx := Center, ry := FixOtherAxis(s3.format.ry)), rStickChanged := true)
    else s3
  }

  /** What releasing tilts does to one stick, whatever the other stick's tilts are. */
  lemma UnsetDirectionStick(s: FrameState, tilts: seq<Tilt>, st: Stick)
    ensures var r := UnsetDirection(s, tilts);
      var vertical := UpTilt(st) in tilts || DownTilt(st) in tilts;
      var horizontal := LeftTilt(st) in tilts || RightTilt(st) in tilts;
      var (x, y) := Axes(s.format, st);
      && Axes(r.format, st) ==
           (if horizontal then Center else if vertical then FixOtherAxis(x) else x,
            if vertical then Center else if horizontal then FixOtherAxis(y) else y)
      && Changed(r, st) == (Changed(s, st) || vertical || horizontal)
      && r.format.btn == s.format.btn && r.format.hat == s.format.hat && r.hatPos == s.hatPos
  {
  }

  /** Releasing both tilts of a stick leaves it centred, whatever it held before. */
  lemma ReleaseBothCentres(s: FrameState, tilts: seq<Tilt>, st: Stick)
    requires UpTilt(st) in tilts || DownTilt(st) in tilts
    requires LeftTilt(st) in tilts || RightTilt(st) in tilts
    ensures Axes(UnsetDirection(s, tilts).format, st) == (Center, Center)
  {
    UnsetDirectionStick(s, tilts, st);
  }

  function ResetAllDirections(s: FrameState): FrameState
  {
    s.(format := s.format.(lx := Center, ly := Center, rx := Center, ry := Center),
       lStickChanged := true, rStickChanged := true, hatPos := CENTER)
  }

  predicate DirectionInRange(d: Direction)
  {
    Min <= d.x <= Max && Min <= d.y <= Max
  }

  /** With in-range directions the axes stay within [0, 255]; a release always lands on 0, 128 or 255. */
  lemma {:induction false} AxesStayInRange(s: FrameState, dirs: seq<Direction>, tilts: seq<Tilt>)
    requires AxesInRange(s.format)
    requires forall i :: 0 <= i < |dirs| ==> DirectionInRange(dirs[i])
    ensures AxesInRange(SetAnyDirection(s, dirs).format)
    ensures AxesInRange(UnsetDirection(s, tilts).format)
    decreases |dirs|
  {
    if dirs != [] {
      AxesStayInRange(s, dirs[..|dirs| - 1], tilts);
    }
  }

  // ---------------------------------------------------------------- encoder

  /** `(int(btn) << 2) | 2 if L dirty | 1 if R dirty`: the shift leaves the two low bits free, so the or adds. */
  function SendBits(s: FrameState): nat
  {
    MaskValue(s.format.btn) * 4 + (if s.lStickChanged then 2 else 0) + (if s.rStickChanged then 1 else 0)
  }

  function Decimal(n: nat): string
  {
    Digits(n, 10)
  }

  /** The text `convert2str` returns for state s (Keys.py:160-189). */
  function Wire(s: FrameState): string
  {
    var f := s.format;
    Hex06(SendBits(s)) + (" " + Decimal(HatValue(f.hat)))
      + Tail(s.lStickChanged, f.lx, f.ly) + Tail(s.rStickChanged, f.rx, f.ry)
  }

  /** The text a dirty stick adds: a space and its two coordinates in unpadded hex. */
  function Tail(present: bool, x: int, y: int): string
  {
    if present then " " + (HexInt(x) + " " + HexInt(y)) else ""
  }

  /** The state `convert2str` leaves behind: both flags lowered. */
  function Sent(s: FrameState): FrameState
  {
    s.(lStickChanged := false, rStickChanged := false)
  }

  /** The space-separated fields of a frame: the mask, the hat, then a group per dirty stick. */
  function Fields(s: FrameState): seq<string>
  {
    var f := s.format;
    [Hex06(SendBits(s)), Decimal(HatValue(f.hat))]
      + Group(s.lStickChanged, f.lx, f.ly)
      + Group(s.rStickChanged, f.rx, f.ry)
  }

  function Group(present: bool, x: int, y: int): seq<string>
  {
    if present then [HexInt(x), HexInt(y)] else []
  }

  datatype Pair = Pair(x: int, y: int)

  /** What a receiver learns from one frame: the button mask, the hat and the pair of each dirty stick. */
  datatype Report = Report(buttons: set<Button>, hat: nat, left: Option<Pair>, right: Option<Pair>)

  function ReportOf(s: FrameState): Report
  {
    var f := s.format;
    Report(f.btn, HatValue(f.hat),
      if s.lStickChanged then Some(Pair(f.lx, f.ly)) else None,
      if s.rStickChanged then Some(Pair(f.rx, f.ry)) else None)
  }

  function ReadPair(a: string, b: string): Option<Pair>
  {
    match (ParseHexInt(a), ParseHexInt(b))
    case (Some(x), Some(y)) => Some(Pair(x, y))
    case _ => None
  }

  /** Reads one coordinate group, if the mask says one is present, and returns the fields after it. */
  function ReadGroup(p: seq<string>, present: bool): Option<(Option<Pair>, seq<string>)>
  {
    if !present then Some((None, p))
    else if |p| < 2 then None
    else
      match ReadPair(p[0], p[1])
      case None => None
      case Some(a) => Some((Some(a), p[2..]))
  }

  /** Reads a frame: the mask's low two bits say which coordinate groups follow, left first. */
  function ParseFrame(line: string): Option<Report>
  {
    ParseFields(Split(line))
  }

  function ParseFields(fs: seq<string>): Option<Report>
  {
    if |fs| < 2 then None
    else
      match ParseHex06(fs[0])
      case None => None
      case Some(bits) =>
        match ParseNat(fs[1], 10)
        case None => None
        case Some(hat) =>
          match ReadGroup(fs[2..], bits / 2 % 2 == 1)
          case None => None
          case Some((left, rest)) =>
            match ReadGroup(rest, bits % 2 == 1)
            case None => None
            case Some((right, tail)) =>
              if tail == [] then Some(Report(DecodeMask(bits / 4), hat, left, right)) else None
  }

  lemma ReadGroupRoundTrip(present: bool, x: int, y: int, rest: seq<string>)
    ensures ReadGroup(Group(present, x, y) + rest, present)
      == Some((if present then Some(Pair(x, y)) else None, rest))
  {
    if present {
      HexIntRoundTrip(x);
      HexIntRoundTrip(y);
      var p := Group(present, x, y) + rest;
      assert p[0] == HexInt(x) && p[1] == HexInt(y) && p[2..] == rest;
    } else {
      assert Group(present, x, y) + rest == rest;
    }
  }

  lemma {:induction false} JoinAppend(a: seq<string>, b: seq<string>)
    requires |a| > 0 && |b| > 0
    ensures Join(a + b) == Join(a) + " " + Join(b)
    decreases |a|
  {
    if |a| == 1 {
      assert (a + b)[1..] == b;
    } else {
      assert (a + b)[1..] == a[1..] + b;
      JoinAppend(a[1..], b);
    }
  }

  lemma Assoc(a: string, b: string, c: string)
    ensures a + (b + c) == a + b + c
  {
  }

  lemma JoinTwo(a: string, b: string)
    ensures Join([a, b]) == a + " " + b
  {
    assert [a, b][1..] == [b];
  }

  /** Appending a coordinate group to a joined line adds a space and the group, or nothing. */
  lemma JoinGroup(head: seq<string>, present: bool, x: int, y: int)
    requires |head| > 0
    ensures Join(head + Group(present, x, y))
      == Join(head) + Tail(present, x, y)
  {
    if present {
      var g := Group(present, x, y);
      JoinTwo(HexInt(x), HexInt(y));
      JoinAppend(head, g);
      Assoc(Join(head), " ", Join(g));
    } else {
      assert head + Group(present, x, y) == head;
    }
  }

  lemma WireFields(s: FrameState)
    ensures Wire(s) == Join(Fields(s))
  {
    var f := s.format;
    var head := [Hex06(SendBits(s)), Decimal(HatValue(f.hat))];
    var lp := Group(s.lStickChanged, f.lx, f.ly);
    JoinTwo(head[0], head[1]);
    Assoc(head[0], " ", head[1]);
    JoinGroup(head, s.lStickChanged, f.lx, f.ly);
    JoinGroup(head + lp, s.rStickChanged, f.rx, f.ry);
  }

  predicate AllNoSpace(fs: seq<string>)
  {
    forall i :: 0 <= i < |fs| ==> NoSpace(fs[i])
  }

  lemma AllNoSpaceConcat(a: seq<string>, b: seq<string>)
    requires AllNoSpace(a) && AllNoSpace(b)
    ensures AllNoSpace(a + b)
  {
    forall i | 0 <= i < |a + b| ensures NoSpace((a + b)[i]) {
      if i < |a| { assert (a + b)[i] == a[i]; } else { assert (a + b)[i] == b[i - |a|]; }
    }
  }

  lemma GroupNoSpace(present: bool, x: int, y: int)
    ensures AllNoSpace(Group(present, x, y))
  {
    HexIntRoundTrip(x);
    HexIntRoundTrip(y);
  }

  lemma FieldsNoSpace(s: FrameState)
    ensures AllNoSpace(Fields(s))
  {
    var f := s.format;
    Hex06NoSpace(SendBits(s));
    DigitsNoSpace(HatValue(f.hat), 10);
    var head := [Hex06(SendBits(s)), Decimal(HatValue(f.hat))];
    assert AllNoSpace(head);
    GroupNoSpace(s.lStickChanged, f.lx, f.ly);
    GroupNoSpace(s.rStickChanged, f.rx, f.ry);
    AllNoSpaceConcat(head, Group(s.lStickChanged, f.lx, f.ly));
    AllNoSpaceConcat(head + Group(s.lStickChanged, f.lx, f.ly), Group(s.rStickChanged, f.rx, f.ry));
  }

  /** The frame splits into the mask, the hat and two coordinates per dirty stick. */
  lemma FrameFields(s: FrameState)
    ensures Split(Wire(s)) == Fields(s)
    ensures |Split(Wire(s))| == 2 + (if s.lStickChanged then 2 else 0) + (if s.rStickChanged then 2 else 0)
    ensures Split(Wire(s))[1] == Decimal(HatValue(s.format.hat))
  {
    WireFields(s);
    FieldsNoSpace(s);
    SplitJoin(Fields(s));
  }

  /** The two low bits of the mask field carry the flags and the rest the button mask. */
  lemma SendBitsSplit(s: FrameState)
    ensures SendBits(s) / 4 == MaskValue(s.format.btn)
    ensures (SendBits(s) / 2 % 2 == 1) == s.lStickChanged
    ensures (SendBits(s) % 2 == 1) == s.rStickChanged
  {
    var m := MaskValue(s.format.btn);
    var low := (if s.lStickChanged then 2 else 0) + (if s.rStickChanged then 1 else 0);
    assert SendBits(s) == m * 4 + low;
    assert SendBits(s) / 2 == m * 2 + low / 2;
  }

  /** Any field list of the frame's shape reads back as its head fields and groups say. */
  lemma ParseFieldsShape(a: string, b: string, bits: nat, hat: nat, l: bool, r: bool, lx: int, ly: int, rx: int, ry: int)
    requires ParseHex06(a) == Some(bits) && ParseNat(b, 10) == Some(hat)
    requires (bits / 2 % 2 == 1) == l && (bits % 2 == 1) == r
    ensures ParseFields([a, b] + Group(l, lx, ly) + Group(r, rx, ry))
      == Some(Report(DecodeMask(bits / 4), hat,
           if l then Some(Pair(lx, ly)) else None,
           if r then Some(Pair(rx, ry)) else None))
  {
    var lp := Group(l, lx, ly);
    var rp := Group(r, rx, ry);
    var fs := [a, b] + lp + rp;
    assert fs[0] == a && fs[1] == b && fs[2..] == lp + rp;
    ReadGroupRoundTrip(l, lx, ly, rp);
    ReadGroupRoundTrip(r, rx, ry, []);
    assert rp + [] == rp;
  }

  /** Reading a frame gives back the buttons, the hat and exactly the dirty sticks' pairs. */
  lemma WireRoundTrip(s: FrameState)
    ensures ParseFrame(Wire(s)) == Some(ReportOf(s))
  {
    var f := s.format;
    FrameFields(s);
    Hex06RoundTrip(SendBits(s));
    DecodeMaskValue(f.btn);
    ParseDigits(HatValue(f.hat), 10);
    SendBitsSplit(s);
    ParseFieldsShape(Hex06(SendBits(s)), Decimal(HatValue(f.hat)), SendBits(s), HatValue(f.hat),
      s.lStickChanged, s.rStickChanged, f.lx, f.ly, f.rx, f.ry);
  }

  /** The mask field is always `0x` and exactly four hex digits: fourteen buttons and two flags fit in 16 bits. */
  lemma MaskFieldWidth(s: FrameState)
    ensures |Split(Wire(s))[0]| == 6 && Split(Wire(s))[0][..2] == "0x"
  {
    FrameFields(s);
    MaskValueBound(s.format.btn);
    Hex06Width(SendBits(s));
  }

  /** Dirty flags are edge-triggered: the frame right after a frame has no coordinates. */
  lemma SecondFrameBare(s: FrameState)
    ensures |Split(Wire(Sent(s)))| == 2
    ensures ParseFrame(Wire(Sent(s))) == Some(ReportOf(s).(left := None, right := None))
  {
    FrameFields(Sent(s));
    WireRoundTrip(Sent(s));
  }
}
