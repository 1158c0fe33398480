/// The controller's closed vocabularies (Keys.py:13-61): the fourteen buttons
/// as bit flags, the nine hat positions, the two sticks, the eight tilts, and
/// the axis constants.
module Controls {

  /** Axis constants: every axis byte lies in [Min, Max] and rests at Center. */
  const Min: int := 0
  const Center: int := 128
  const Max: int := 255

  datatype Button =
    | Y | B | A | X | L | R | ZL | ZR
    | MINUS | PLUS | LCLICK | RCLICK | HOME | CAPTURE

  /** The position of each button in the declaration: `auto()` gives it the flag 1 << position. */
  function Index(b: Button): (i: nat)
    ensures i < 14
  {
    match b
    case Y => 0
    case B => 1
    case A => 2
    case X => 3
    case L => 4
    case R => 5
    case ZL => 6
    case ZR => 7
    case MINUS => 8
    case PLUS => 9
    case LCLICK => 10
    case RCLICK => 11
    case HOME => 12
    case CAPTURE => 13
  }

  /** The buttons in declaration order. */
  const AllButtons: seq<Button> :=
    [Y, B, A, X, L, R, ZL, ZR, MINUS, PLUS, LCLICK, RCLICK, HOME, CAPTURE]

  /** Each button sits at its own index in the declaration order. */
  lemma IndexInOrder(b: Button)
    ensures |AllButtons| == 14 && AllButtons[Index(b)] == b
  {
  }

  /** The declaration order lists each index's own button. */
  lemma OrderHasIndex(i: nat)
    requires i < 14
    ensures Index(AllButtons[i]) == i
  {
  }

  function Pow2(k: nat): (r: nat)
    ensures r >= 1
  {
    if k == 0 then 1 else 2 * Pow2(k - 1)
  }

  /** The integer flag of a button. */
  function Flag(b: Button): nat
  {
    Pow2(Index(b))
  }

  /** The integer an `IntFlag` value stands for: the sum of its members' flags. */
  function MaskValue(btn: set<Button>): nat
  {
    MaskBelow(btn, 14)
  }

  /** The part of the sum contributed by the first k buttons. */
  function MaskBelow(btn: set<Button>, k: nat): nat
    requires k <= 14
  {
    if k == 0 then 0
    else MaskBelow(btn, k - 1) + (if AllButtons[k - 1] in btn then Pow2(k - 1) else 0)
  }

  /** Reads the buttons of the first k bits back from an integer, highest bit first. */
  function DecodeBelow(v: nat, k: nat): set<Button>
    requires k <= 14
  {
    if k == 0 then {}
    else if v >= Pow2(k - 1) then DecodeBelow(v - Pow2(k - 1), k - 1) + {AllButtons[k - 1]}
    else DecodeBelow(v, k - 1)
  }

  function DecodeMask(v: nat): set<Button>
  {
    DecodeBelow(v, 14)
  }

  /** The first k flags sum to less than 2^k. */
  lemma {:induction false} MaskBelowBound(btn: set<Button>, k: nat)
    requires k <= 14
    ensures MaskBelow(btn, k) < Pow2(k)
  {
    if k > 0 {
      MaskBelowBound(btn, k - 1);
    }
  }

  /** Every mask fits in fourteen bits. */
  lemma MaskValueBound(btn: set<Button>)
    ensures MaskValue(btn) < 0x4000
  {
    MaskBelowBound(btn, 14);
    assert Pow2(14) == 0x4000;
  }

  /** Reading the first k bits gives back exactly the members among the first k buttons. */
  lemma {:induction false} DecodeMaskBelow(btn: set<Button>, k: nat, b: Button)
    requires k <= 14
    ensures b in DecodeBelow(MaskBelow(btn, k), k) <==> b in btn && Index(b) < k
  {
    if k > 0 {
      MaskBelowBound(btn, k - 1);
      DecodeMaskBelow(btn, k - 1, b);
      var top := AllButtons[k - 1];
      OrderHasIndex(k - 1);
      IndexInOrder(b);
      assert top == b <==> Index(b) == k - 1;
      var m := MaskBelow(btn, k - 1);
      if top in btn {
        assert MaskBelow(btn, k) - Pow2(k - 1) == m;
        assert DecodeBelow(MaskBelow(btn, k), k) == DecodeBelow(m, k - 1) + {top};
      } else {
        assert MaskBelow(btn, k) == m;
        assert DecodeBelow(MaskBelow(btn, k), k) == DecodeBelow(m, k - 1);
      }
    }
  }

  /** The integer value of a mask determines the mask: decoding it gives the members back. */
  lemma DecodeMaskValue(btn: set<Button>)
    ensures DecodeMask(MaskValue(btn)) == btn
  {
    forall b ensures b in DecodeMask(MaskValue(btn)) <==> b in btn {
      DecodeMaskBelow(btn, 14, b);
    }
  }

  /** A single member's mask is its own flag. */
  lemma MaskValueSingle(b: Button)
    ensures MaskValue({b}) == Flag(b)
  {
    SingleBelow(b, 14);
  }

  lemma {:induction false} SingleBelow(b: Button, k: nat)
    requires k <= 14
    ensures MaskBelow({b}, k) == if Index(b) < k then Flag(b) else 0
  {
    if k > 0 {
      SingleBelow(b, k - 1);
      OrderHasIndex(k - 1);
      IndexInOrder(b);
      assert AllButtons[k - 1] in {b} <==> k - 1 == Index(b);
    }
  }

  datatype Hat = TOP | TOP_RIGHT | RIGHT | BTM_RIGHT | BTM | BTM_LEFT | LEFT | TOP_LEFT | CENTER

  /** The `IntEnum` value of a hat position, sent as its decimal text. */
  function HatValue(h: Hat): nat
  {
    match h
    case TOP => 0
    case TOP_RIGHT => 1
    case RIGHT => 2
    case BTM_RIGHT => 3
    case BTM => 4
    case BTM_LEFT => 5
    case LEFT => 6
    case TOP_LEFT => 7
    case CENTER => 8
  }

  /** Hat values are 0..8 and name their position uniquely. */
  lemma HatValueInjective(h: Hat, k: Hat)
    ensures HatValue(h) <= 8
    ensures HatValue(h) == HatValue(k) ==> h == k
  {
  }

  datatype Stick = LEFT | RIGHT

  datatype Tilt = UP | RIGHT | DOWN | LEFT | R_UP | R_RIGHT | R_DOWN | R_LEFT
}
