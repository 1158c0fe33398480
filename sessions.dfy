/// What `KeyPress` (Keys.py:329-495) does, as functions from one session value
/// to the next: the keys it is given, the keys it holds, the pressed buttons,
/// hats and stick labels it remembers, the frame state of its `SendFormat`,
/// and every row written to the serial sink so far.
module Sessions {
  import opened Text
  import opened Controls
  import opened Directions
  import opened Frames

  /** An entry of the lists the key methods take: a `Button`, a `Hat` or a `Direction`. */
  datatype Key = Btn(button: Button) | HatKey(hat: Hat) | Dir(direction: Direction)

  /** Equality of keys as the held-key bookkeeping needs it: the same kind and the same member or direction. */
  predicate SameKey(a: Key, b: Key)
  {
    match (a, b)
    case (Btn(x), Btn(y)) => x == y
    case (HatKey(h), HatKey(k)) => h == k
    case (Dir(d), Dir(e)) => SameDirection(d, e)
    case _ => false
  }

  /** `k in ks`, with keys compared by `SameKey`. */
  predicate Member(k: Key, ks: seq<Key>)
  {
    exists i :: 0 <= i < |ks| && SameKey(ks[i], k)
  }

  lemma SameKeyReflexive(k: Key)
    ensures SameKey(k, k)
  {
  }

  // ---------------------------------------------------------------- sorting a key list by kind

  /** The buttons of a key list, in order (`buttons_pressed` / `buttons_release`). */
  function ButtonsOf(ks: seq<Key>): seq<Button>
    decreases |ks|
  {
    if ks == [] then []
    else
      var init := ButtonsOf(ks[..|ks| - 1]);
      match ks[|ks| - 1]
      case Btn(b) => init + [b]
      case _ => init
  }

  /** The hats of a key list, in order (`hats_pressed` / `hats_release`). */
  function HatsOf(ks: seq<Key>): seq<Hat>
    decreases |ks|
  {
    if ks == [] then []
    else
      var init := HatsOf(ks[..|ks| - 1]);
      match ks[|ks| - 1]
      case HatKey(h) => init + [h]
      case _ => init
  }

  /** The directions of a key list, in order. */
  function DirectionsOf(ks: seq<Key>): seq<Direction>
    decreases |ks|
  {
    if ks == [] then []
    else
      var init := DirectionsOf(ks[..|ks| - 1]);
      match ks[|ks| - 1]
      case Dir(d) => init + [d]
      case _ => init
  }

  lemma {:induction false} ButtonsOfMembers(ks: seq<Key>, b: Button)
    ensures b in ButtonsOf(ks) <==> Btn(b) in ks
    decreases |ks|
  {
    if ks != [] {
      var init := ks[..|ks| - 1];
      ButtonsOfMembers(init, b);
      assert ks == init + [ks[|ks| - 1]];
    }
  }

  lemma {:induction false} HatsOfMembers(ks: seq<Key>, h: Hat)
    ensures h in HatsOf(ks) <==> HatKey(h) in ks
    decreases |ks|
  {
    if ks != [] {
      var init := ks[..|ks| - 1];
      HatsOfMembers(init, h);
      assert ks == init + [ks[|ks| - 1]];
    }
  }

  lemma {:induction false} DirectionsOfMembers(ks: seq<Key>, d: Direction)
    ensures d in DirectionsOf(ks) <==> Dir(d) in ks
    decreases |ks|
  {
    if ks != [] {
      var init := ks[..|ks| - 1];
      DirectionsOfMembers(init, d);
      assert ks == init + [ks[|ks| - 1]];
    }
  }

  /** The first hat of a key list is the hat of its first `HatKey` entry. */
  lemma {:induction false} HatsOfFirst(ks: seq<Key>, i: nat)
    requires i < |ks| && ks[i].HatKey?
    requires forall j :: 0 <= j < i ==> !ks[j].HatKey?
    ensures HatsOf(ks) != [] && HatsOf(ks)[0] == ks[i].hat
    decreases |ks|
  {
    if i < |ks| - 1 {
      HatsOfFirst(ks[..|ks| - 1], i);
    } else {
      HatsOfNone(ks[..|ks| - 1]);
    }
  }

  /** A key list without a hat has no hats. */
  lemma {:induction false} HatsOfNone(ks: seq<Key>)
    requires forall j :: 0 <= j < |ks| ==> !ks[j].HatKey?
    ensures HatsOf(ks) == []
    decreases |ks|
  {
    if ks != [] {
      HatsOfNone(ks[..|ks| - 1]);
    }
  }

  /** The tilts a list of released directions stood for (`tilts` in `inputEnd`). */
  function Tilts(dirs: seq<Direction>): seq<Tilt>
    decreases |dirs|
  {
    if dirs == [] then [] else Tilts(dirs[..|dirs| - 1]) + GetTilting(dirs[|dirs| - 1])
  }

  lemma {:induction false} TiltsMembers(dirs: seq<Direction>, t: Tilt)
    ensures t in Tilts(dirs) <==> exists i :: 0 <= i < |dirs| && t in GetTilting(dirs[i])
    decreases |dirs|
  {
    if dirs != [] {
      var init := dirs[..|dirs| - 1];
      TiltsMembers(init, t);
      if t in GetTilting(dirs[|dirs| - 1]) {
        assert 0 <= |dirs| - 1 < |dirs|;
      }
      if exists i :: 0 <= i < |dirs| && t in GetTilting(dirs[i]) {
        var i :| 0 <= i < |dirs| && t in GetTilting(dirs[i]);
        if i < |dirs| - 1 {
          assert dirs[i] == init[i];
        }
      }
    }
  }

  /** The key is a direction on stick `st`. */
  predicate OnStick(k: Key, st: Stick)
  {
    k.Dir? && k.direction.stick == st
  }

  /** Some entry of the key list is a direction on stick `st`. */
  predicate NamesStick(ks: seq<Key>, st: Stick)
  {
    exists i :: 0 <= i < |ks| && OnStick(ks[i], st)
  }

  /** What a stick's slot of `self.sticks` shows after pressing: the label of the last direction on it. */
  function StickPressed(cur: Option<Label>, ks: seq<Key>, st: Stick): Option<Label>
    decreases |ks|
  {
    if ks == [] then cur
    else
      var k := ks[|ks| - 1];
      if k.Dir? && k.direction.stick == st then Some(k.direction.shown)
      else StickPressed(cur, ks[..|ks| - 1], st)
  }

  /** What a stick's slot shows after releasing: nothing once a direction on it is released. */
  function StickReleased(cur: Option<Label>, ks: seq<Key>, st: Stick): Option<Label>
    decreases |ks|
  {
    if ks == [] then cur
    else
      var k := ks[|ks| - 1];
      if k.Dir? && k.direction.stick == st then None
      else StickReleased(cur, ks[..|ks| - 1], st)
  }

  /** A pressed slot shows the label of the last direction on its stick. */
  lemma {:induction false} StickPressedLast(cur: Option<Label>, ks: seq<Key>, st: Stick)
    ensures forall j :: (0 <= j < |ks| && OnStick(ks[j], st) && (forall i :: j < i < |ks| ==> !OnStick(ks[i], st))
      ==> StickPressed(cur, ks, st) == Some(ks[j].direction.shown))
    decreases |ks|
  {
    if ks != [] {
      var last := |ks| - 1;
      var init := ks[..last];
      StickPressedLast(cur, init, st);
      forall j | 0 <= j < |ks| && OnStick(ks[j], st) && (forall i :: j < i < |ks| ==> !OnStick(ks[i], st))
        ensures StickPressed(cur, ks, st) == Some(ks[j].direction.shown)
      {
        if j < last {
          assert !OnStick(ks[last], st);
          assert init[j] == ks[j];
          forall i | j < i < |init| ensures !OnStick(init[i], st) {
            assert init[i] == ks[i];
          }
        }
      }
    }
  }

  /** A pressed slot keeps its label when no direction on its stick is given. */
  lemma {:induction false} StickPressedKeeps(cur: Option<Label>, ks: seq<Key>, st: Stick)
    ensures !NamesStick(ks, st) ==> StickPressed(cur, ks, st) == cur
    decreases |ks|
  {
    if ks != [] {
      var last := |ks| - 1;
      var init := ks[..last];
      StickPressedKeeps(cur, init, st);
      if !NamesStick(ks, st) {
        assert !OnStick(ks[last], st);
        forall i | 0 <= i < |init| ensures !OnStick(init[i], st) {
          assert init[i] == ks[i];
        }
      }
    }
  }

  /** A released slot is emptied exactly when a direction on its stick is released, and otherwise keeps its label. */
  lemma {:induction false} StickReleasedAny(cur: Option<Label>, ks: seq<Key>, st: Stick)
    ensures !NamesStick(ks, st) ==> StickReleased(cur, ks, st) == cur
    ensures NamesStick(ks, st) ==> StickReleased(cur, ks, st) == None
    decreases |ks|
  {
    if ks != [] {
      var last := |ks| - 1;
      var init := ks[..last];
      StickReleasedAny(cur, init, st);
      if NamesStick(ks, st) && !OnStick(ks[last], st) {
        var i :| 0 <= i < |ks| && OnStick(ks[i], st);
        assert init[i] == ks[i];
      }
      if NamesStick(init, st) {
        var i :| 0 <= i < |init| && OnStick(init[i], st);
        assert ks[i] == init[i];
      }
    }
  }

  /** Sorting one more key by kind extends exactly one of the lists of buttons, hats and directions. */
  lemma SortSnoc(ks: seq<Key>, k: Key)
    ensures ButtonsOf(ks + [k]) == ButtonsOf(ks) + (if k.Btn? then [k.button] else [])
    ensures HatsOf(ks + [k]) == HatsOf(ks) + (if k.HatKey? then [k.hat] else [])
    ensures DirectionsOf(ks + [k]) == DirectionsOf(ks) + (if k.Dir? then [k.direction] else [])
  {
    assert (ks + [k])[..|ks|] == ks;
  }

  /** One more key names a stick, and sets or empties its slot, exactly when it is a direction on that stick. */
  lemma StickSnoc(ks: seq<Key>, k: Key, cur: Option<Label>, st: Stick)
    ensures NamesStick(ks + [k], st) <==> NamesStick(ks, st) || OnStick(k, st)
    ensures StickPressed(cur, ks + [k], st)
      == if k.Dir? && k.direction.stick == st then Some(k.direction.shown) else StickPressed(cur, ks, st)
    ensures StickReleased(cur, ks + [k], st)
      == if k.Dir? && k.direction.stick == st then None else StickReleased(cur, ks, st)
  {
    assert (ks + [k])[..|ks|] == ks;
    if NamesStick(ks + [k], st) && !OnStick(k, st) {
      var i :| 0 <= i < |ks + [k]| && OnStick((ks + [k])[i], st);
      assert i < |ks| && (ks + [k])[i] == ks[i];
    }
    if NamesStick(ks, st) {
      var i :| 0 <= i < |ks| && OnStick(ks[i], st);
      assert (ks + [k])[i] == ks[i];
    }
    if OnStick(k, st) {
      assert (ks + [k])[|ks|] == k;
    }
  }

  // ---------------------------------------------------------------- held keys

  /** `input` first appends every held key the list does not already contain (Keys.py:377-379). */
  function MergeHeld(btns: seq<Key>, held: seq<Key>): seq<Key>
    decreases |held|
  {
    if held == [] then btns
    else
      var merged := MergeHeld(btns, held[..|held| - 1]);
      var k := held[|held| - 1];
      if Member(k, merged) then merged else merged + [k]
  }

  /**
   * The merged list starts with the keys given, contains every held key, and
   * appends only held keys that were not there yet.
   */
  lemma MergeHeldSpec(btns: seq<Key>, held: seq<Key>)
    ensures var r := MergeHeld(btns, held);
      && |btns| <= |r| && r[..|btns|] == btns
      && (forall i :: 0 <= i < |held| ==> Member(held[i], r))
      && (forall i :: |btns| <= i < |r| ==> r[i] in held && !Member(r[i], r[..i]))
  {
    MergeHeldGrows(btns, held);
    MergeHeldCovers(btns, held);
  }

  /** Merging only appends, and only held keys that were not there yet. */
  lemma {:induction false} MergeHeldGrows(btns: seq<Key>, held: seq<Key>)
    ensures var r := MergeHeld(btns, held);
      && |btns| <= |r| && r[..|btns|] == btns
      && (forall i :: |btns| <= i < |r| ==> r[i] in held && !Member(r[i], r[..i]))
    decreases |held|
  {
    if held != [] {
      var init := held[..|held| - 1];
      var m := MergeHeld(btns, init);
      var k := held[|held| - 1];
      MergeHeldGrows(btns, init);
      var r := MergeHeld(btns, held);
      if !Member(k, m) {
        assert r == m + [k];
        assert r[..|btns|] == m[..|btns|];
        forall i | |btns| <= i < |r| ensures r[i] in held && !Member(r[i], r[..i]) {
          if i < |m| {
            assert r[i] == m[i] && r[..i] == m[..i];
            assert m[i] in init;
          } else {
            assert r[..i] == m;
          }
        }
      }
    }
  }

  /** Every held key is in the merged list. */
  lemma {:induction false} MergeHeldCovers(btns: seq<Key>, held: seq<Key>)
    ensures forall i :: 0 <= i < |held| ==> Member(held[i], MergeHeld(btns, held))
    decreases |held|
  {
    if held != [] {
      var init := held[..|held| - 1];
      var m := MergeHeld(btns, init);
      var k := held[|held| - 1];
      MergeHeldCovers(btns, init);
      var r := MergeHeld(btns, held);
      SameKeyReflexive(k);
      if !Member(k, m) {
        assert r == m + [k];
        assert SameKey(r[|m|], k);
      }
      forall i | 0 <= i < |held| ensures Member(held[i], r) {
        if i < |held| - 1 {
          assert held[i] == init[i];
          var j :| 0 <= j < |m| && SameKey(m[j], held[i]);
          assert r[j] == m[j];
        }
      }
    }
  }

  /** A button or hat is in the merged list exactly when it was given or is held. */
  lemma MergeHeldKinds(btns: seq<Key>, held: seq<Key>, k: Key)
    requires !k.Dir?
    ensures k in MergeHeld(btns, held) <==> k in btns || k in held
  {
    var r := MergeHeld(btns, held);
    MergeHeldSpec(btns, held);
    if k in held {
      var i :| 0 <= i < |held| && held[i] == k;
      var j :| 0 <= j < |r| && SameKey(r[j], held[i]);
      assert r[j] == k;
    }
    if k in btns {
      var i :| 0 <= i < |btns| && btns[i] == k;
      assert r[i] == k;
    }
    if k in r {
      var i :| 0 <= i < |r| && r[i] == k;
      if i < |btns| {
        assert btns[i] == k;
      }
    }
  }

  /**
   * The loop of `hold` (Keys.py:476-481): append each key in turn, but stop
   * at the first one already held, keeping what was appended before it.
   * The flag says whether every key was appended.
   */
  function HoldKeys(held: seq<Key>, btns: seq<Key>): (seq<Key>, bool)
    decreases |btns|
  {
    if btns == [] then (held, true)
    else if Member(btns[0], held) then (held, false)
    else HoldKeys(held + [btns[0]], btns[1..])
  }

  /** No key is held already or given twice. */
  predicate Fresh(held: seq<Key>, btns: seq<Key>)
  {
    forall i :: 0 <= i < |btns| ==> !Member(btns[i], held + btns[..i])
  }

  /** `hold` succeeds exactly on fresh keys and then holds them all; otherwise it holds the keys before the first stale one. */
  lemma {:induction false} HoldKeysSpec(held: seq<Key>, btns: seq<Key>)
    ensures HoldKeys(held, btns).1 <==> Fresh(held, btns)
    ensures Fresh(held, btns) ==> HoldKeys(held, btns).0 == held + btns
    ensures !Fresh(held, btns) ==>
      (exists i :: 0 <= i < |btns| && HoldKeys(held, btns).0 == held + btns[..i] && Member(btns[i], held + btns[..i])
        && (forall j :: 0 <= j < i ==> !Member(btns[j], held + btns[..j])))
    decreases |btns|
  {
    if btns != [] {
      var k := btns[0];
      var rest := btns[1..];
      assert held + btns[..0] == held;
      if Member(k, held) {
        assert !Fresh(held, btns);
        assert HoldKeys(held, btns).0 == held + btns[..0];
      } else {
        HoldKeysSpec(held + [k], rest);
        forall i | 0 <= i < |rest| ensures held + [k] + rest[..i] == held + btns[..i + 1] {
          assert btns[..i + 1] == [k] + rest[..i];
        }
        if Fresh(held, btns) {
          forall i | 0 <= i < |rest| ensures !Member(rest[i], held + [k] + rest[..i]) {
            assert rest[i] == btns[i + 1];
          }
          assert held + [k] + rest == held + btns;
        } else {
          var i :| 0 <= i < |btns| && Member(btns[i], held + btns[..i]);
          assert i > 0;
          assert rest[i - 1] == btns[i];
          assert !Fresh(held + [k], rest);
          var j :| 0 <= j < |rest| && HoldKeys(held + [k], rest).0 == held + [k] + rest[..j]
            && Member(rest[j], held + [k] + rest[..j])
            && (forall m :: 0 <= m < j ==> !Member(rest[m], held + [k] + rest[..m]));
          assert rest[j] == btns[j + 1];
          forall m | 0 <= m < j + 1 ensures !Member(btns[m], held + btns[..m]) {
            if m > 0 {
              assert btns[m] == rest[m - 1];
            }
          }
        }
      }
    }
  }

  /** `list.remove`: drop the first entry equal to k, or fail with `ValueError`. */
  function RemoveFirst(ks: seq<Key>, k: Key): Option<seq<Key>>
    decreases |ks|
  {
    if ks == [] then None
    else if SameKey(ks[0], k) then Some(ks[1..])
    else
      match RemoveFirst(ks[1..], k)
      case None => None
      case Some(r) => Some([ks[0]] + r)
  }

  /** `remove` fails exactly on a key that is not held. */
  lemma {:induction false} RemoveFirstAbsent(ks: seq<Key>, k: Key)
    ensures RemoveFirst(ks, k).None? <==> !Member(k, ks)
    decreases |ks|
  {
    if ks != [] {
      RemoveFirstAbsent(ks[1..], k);
      if Member(k, ks) && !SameKey(ks[0], k) {
        var i :| 0 <= i < |ks| && SameKey(ks[i], k);
        assert ks[1..][i - 1] == ks[i];
      }
      if Member(k, ks[1..]) {
        var i :| 0 <= i < |ks[1..]| && SameKey(ks[1..][i], k);
        assert ks[i + 1] == ks[1..][i];
      }
    }
  }

  /** `remove` drops the first matching entry and nothing else. */
  lemma {:induction false} RemoveFirstAt(ks: seq<Key>, k: Key, i: nat)
    requires i < |ks| && SameKey(ks[i], k)
    requires forall j :: 0 <= j < i ==> !SameKey(ks[j], k)
    ensures RemoveFirst(ks, k) == Some(ks[..i] + ks[i + 1..])
    decreases i
  {
    if i == 0 {
      assert ks[..0] + ks[1..] == ks[1..];
    } else {
      var tail := ks[1..];
      forall j | 0 <= j < i - 1 ensures !SameKey(tail[j], k) {
        assert tail[j] == ks[j + 1];
      }
      RemoveFirstAt(tail, k, i - 1);
      assert [ks[0]] + (tail[..i - 1] + tail[i..]) == ks[..i] + ks[i + 1..];
    }
  }

  /** The loop of `holdEnd` (Keys.py:489-490): remove each key in turn, stopping at the first that is not held. */
  function RemoveKeys(held: seq<Key>, btns: seq<Key>): (seq<Key>, bool)
    decreases |btns|
  {
    if btns == [] then (held, true)
    else
      match RemoveFirst(held, btns[0])
      case None => (held, false)
      case Some(h) => RemoveKeys(h, btns[1..])
  }

  /** Removing a key behind a prefix that does not hold it leaves the prefix in place. */
  lemma {:induction false} RemoveFirstBehind(a: seq<Key>, b: seq<Key>, k: Key)
    requires !Member(k, a)
    ensures RemoveFirst(a + b, k) == match RemoveFirst(b, k) case None => None case Some(r) => Some(a + r)
    decreases |a|
  {
    if a == [] {
      assert a + b == b;
      match RemoveFirst(b, k)
      case None =>
      case Some(r) =>
        assert a + r == r;
    } else {
      assert (a + b)[0] == a[0];
      assert !SameKey(a[0], k);
      assert (a + b)[1..] == a[1..] + b;
      assert !Member(k, a[1..]);
      RemoveFirstBehind(a[1..], b, k);
      match RemoveFirst(b, k)
      case None =>
      case Some(r) =>
        assert [a[0]] + (a[1..] + r) == a + r;
    }
  }

  /** Membership only grows when every entry of a shorter list is found in a longer one. */
  lemma MemberWithin(k: Key, a: seq<Key>, b: seq<Key>)
    requires forall i :: 0 <= i < |a| ==> a[i] in b
    ensures Member(k, a) ==> Member(k, b)
  {
    if Member(k, a) {
      var i :| 0 <= i < |a| && SameKey(a[i], k);
      var j :| 0 <= j < |b| && b[j] == a[i];
    }
  }

  /** Releasing the keys a successful `hold` appended gives the held list back. */
  lemma {:induction false} RemoveKeysUndoesHold(held: seq<Key>, btns: seq<Key>)
    requires Fresh(held, btns)
    ensures RemoveKeys(held + btns, btns) == (held, true)
    decreases |btns|
  {
    if btns == [] {
      assert held + btns == held;
    } else {
      var k := btns[0];
      var rest := btns[1..];
      assert held + btns[..0] == held;
      assert !Member(k, held);
      assert btns == [k] + rest;
      assert held + btns == held + ([k] + rest);
      SameKeyReflexive(k);
      RemoveFirstBehind(held, [k] + rest, k);
      assert RemoveFirst([k] + rest, k) == Some(rest);
      forall i | 0 <= i < |rest| ensures !Member(rest[i], held + rest[..i]) {
        assert rest[i] == btns[i + 1];
        assert !Member(btns[i + 1], held + btns[..i + 1]);
        forall j | 0 <= j < |held + rest[..i]| ensures (held + rest[..i])[j] in held + btns[..i + 1] {
          if j < |held| {
            assert (held + rest[..i])[j] == (held + btns[..i + 1])[j];
          } else {
            assert (held + rest[..i])[j] == (held + btns[..i + 1])[j + 1];
          }
        }
        MemberWithin(rest[i], held + rest[..i], held + btns[..i + 1]);
      }
      RemoveKeysUndoesHold(held, rest);
    }
  }

  // ---------------------------------------------------------------- the session

  /**
   * The state of a `KeyPress`: its `SendFormat`, the held keys, the pressed
   * buttons and hats, what each stick slot shows, whether each stick slot has
   * had its press time written, and the rows written so far.
   */
  datatype Session = Session(
    frame: FrameState,
    holdButton: seq<Key>,
    buttons: set<Button>,
    hats: set<Hat>,
    lStick: Option<Label>,
    rStick: Option<Label>,
    lStamped: bool,
    rStamped: bool,
    sent: seq<string>)

  /** `KeyPress.__init__` over a sink that has already received `rows`: every time slot of `sticks` is still `None`. */
  function Start(rows: seq<string>): Session
  {
    Session(Initial, [], {}, {}, None, None, false, false, rows)
  }

  /** Whether the time slot `sticks[i][3]` of a stick holds a press time (Keys.py:351-353, 390-392). */
  function Stamped(s: Session, st: Stick): bool
  {
    if st == Stick.LEFT then s.lStamped else s.rStamped
  }

  /**
   * The sorting loop of `input` (Keys.py:381-393): the buttons and hats are
   * recorded as pressed, and each stick slot shows the label of the last
   * direction on it and gets a press time.
   */
  function Pressed(s: Session, all: seq<Key>): Session
  {
    s.(buttons := Raise(s.buttons, ButtonsOf(all)),
       hats := Raise(s.hats, HatsOf(all)),
       lStick := StickPressed(s.lStick, all, Stick.LEFT),
       rStick := StickPressed(s.rStick, all, Stick.RIGHT),
       lStamped := s.lStamped || NamesStick(all, Stick.LEFT),
       rStamped := s.rStamped || NamesStick(all, Stick.RIGHT))
  }

  /** Sorting one more key by kind records it on top of the keys before it. */
  lemma PressedSnoc(s: Session, ks: seq<Key>, k: Key)
    ensures var p := Pressed(s, ks);
      Pressed(s, ks + [k]) == match k
        case Btn(b) => p.(buttons := p.buttons + {b})
        case HatKey(h) => p.(hats := p.hats + {h})
        case Dir(d) =>
          if d.stick == Stick.LEFT then p.(lStick := Some(d.shown), lStamped := true)
          else p.(rStick := Some(d.shown), rStamped := true)
  {
    SortSnoc(ks, k);
    StickSnoc(ks, k, s.lStick, Stick.LEFT);
    StickSnoc(ks, k, s.rStick, Stick.RIGHT);
    var bs := ButtonsOf(ks);
    var hs := HatsOf(ks);
    match k
    case Btn(b) =>
      assert (bs + [b])[..|bs|] == bs;
    case HatKey(h) =>
      assert (hs + [h])[..|hs|] == hs;
    case Dir(d) =>
  }

  /** The frame state after `input` presses a merged key list: its buttons or-ed in, its first hat shown, its directions stored. */
  function Pressing(f: FrameState, all: seq<Key>): FrameState
  {
    SetAnyDirection(SetHat(SetButton(f, ButtonsOf(all)), HatsOf(all)), DirectionsOf(all))
  }

  /** The frame state `input` renders, with the held keys merged in. */
  function PressFrame(s: Session, btns: seq<Key>): FrameState
  {
    Pressing(s.frame, MergeHeld(btns, s.holdButton))
  }

  /** `input` (Keys.py:371-407), with the press-time bookkeeping of Keys.py:395-401 taken not to fail. */
  function Input(s: Session, btns: seq<Key>): Session
  {
    var f := PressFrame(s, btns);
    Pressed(s, MergeHeld(btns, s.holdButton)).(frame := Sent(f), sent := s.sent + [Wire(f)])
  }

  /** The frame state `inputEnd` renders: buttons cleared, hat centred, released tilts undone. */
  function ReleaseFrame(s: Session, btns: seq<Key>): FrameState
  {
    UnsetDirection(UnsetHat(UnsetButton(s.frame, ButtonsOf(btns))), Tilts(DirectionsOf(btns)))
  }

  /** The sorting loop of `inputEnd` (Keys.py:422-440): the buttons and hats leave the pressed sets, and a released stick's slot is emptied. */
  function Released(s: Session, btns: seq<Key>): Session
  {
    s.(buttons := Lower(s.buttons, ButtonsOf(btns)),
       hats := Lower(s.hats, HatsOf(btns)),
       lStick := StickReleased(s.lStick, btns, Stick.LEFT),
       rStick := StickReleased(s.rStick, btns, Stick.RIGHT))
  }

  /** Sorting one more released key by kind drops it on top of the keys before it. */
  lemma ReleasedSnoc(s: Session, ks: seq<Key>, k: Key)
    ensures var p := Released(s, ks);
      Released(s, ks + [k]) == match k
        case Btn(b) => p.(buttons := p.buttons - {b})
        case HatKey(h) => p.(hats := p.hats - {h})
        case Dir(d) => if d.stick == Stick.LEFT then p.(lStick := None) else p.(rStick := None)
  {
    SortSnoc(ks, k);
    StickSnoc(ks, k, s.lStick, Stick.LEFT);
    StickSnoc(ks, k, s.rStick, Stick.RIGHT);
    var bs := ButtonsOf(ks);
    var hs := HatsOf(ks);
    match k
    case Btn(b) =>
      assert (bs + [b])[..|bs|] == bs;
    case HatKey(h) =>
      assert (hs + [h])[..|hs|] == hs;
    case Dir(d) =>
  }

  /**
   * Every released direction's stick has a press time, so the debug line of
   * Keys.py:445-448 can subtract it; otherwise `t - None` raises `TypeError`.
   */
  predicate ReleaseTimed(s: Session, btns: seq<Key>)
  {
    AllStamped(DirectionsOf(btns), s.lStamped, s.rStamped)
  }

  /** Every direction's stick has a press time, given which sticks have one. */
  predicate AllStamped(dirs: seq<Direction>, lStamped: bool, rStamped: bool)
  {
    forall d :: d in dirs ==> if d.stick == Stick.LEFT then lStamped else rStamped
  }

  /** One more released direction adds its tilts, and needs its stick's press time. */
  lemma TimedSnoc(dirs: seq<Direction>, d: Direction, lStamped: bool, rStamped: bool)
    ensures Tilts(dirs + [d]) == Tilts(dirs) + GetTilting(d)
    ensures AllStamped(dirs + [d], lStamped, rStamped)
      <==> AllStamped(dirs, lStamped, rStamped) && (if d.stick == Stick.LEFT then lStamped else rStamped)
  {
    assert (dirs + [d])[..|dirs|] == dirs;
    assert d in dirs + [d];
  }

  /**
   * `inputEnd` (Keys.py:412-467), with its default `unset_hat`. Where
   * `ReleaseTimed` fails it raises after the sorting loop, so the frame state
   * is untouched and nothing is sent.
   */
  function InputEnd(s: Session, btns: seq<Key>): Session
  {
    var r := Released(s, btns);
    if ReleaseTimed(s, btns) then
      var f := ReleaseFrame(s, btns);
      r.(frame := Sent(f), sent := s.sent + [Wire(f)])
    else r
  }

  /** `hold` (Keys.py:472-483): on a stale key it returns without sending. */
  function Hold(s: Session, btns: seq<Key>): Session
  {
    var (held, ok) := HoldKeys(s.holdButton, btns);
    if ok then Input(s.(holdButton := held), btns) else s.(holdButton := held)
  }

  /**
   * `holdEnd` (Keys.py:485-492): the flag is false where the call raises,
   * either in `remove` (after which nothing is sent) or in the `inputEnd` it
   * ends with.
   */
  function HoldEnd(s: Session, btns: seq<Key>): (Session, bool)
  {
    var (held, ok) := RemoveKeys(s.holdButton, btns);
    if ok then
      var h := s.(holdButton := held);
      (InputEnd(h, btns), ReleaseTimed(h, btns))
    else (s.(holdButton := held), false)
  }

  /** `end` (Keys.py:494-495). */
  function End(s: Session): Session
  {
    s.(sent := s.sent + ["end"])
  }

  // ---------------------------------------------------------------- what the sink receives

  /** `input` writes exactly one frame, which reads back as the pressed state. */
  lemma InputSendsFrame(s: Session, btns: seq<Key>)
    ensures |Input(s, btns).sent| == |s.sent| + 1 && Input(s, btns).sent[..|s.sent|] == s.sent
    ensures ParseFrame(Input(s, btns).sent[|s.sent|]) == Some(ReportOf(PressFrame(s, btns)))
    ensures !Input(s, btns).frame.lStickChanged && !Input(s, btns).frame.rStickChanged
  {
    WireRoundTrip(PressFrame(s, btns));
  }

  /** The frame `input` sends carries every button pressed before, given now or held, and no other. */
  lemma InputButtons(s: Session, btns: seq<Key>, b: Button)
    ensures b in ReportOf(PressFrame(s, btns)).buttons
      <==> b in s.frame.format.btn || Btn(b) in btns || Btn(b) in s.holdButton
    ensures b in Input(s, btns).buttons <==> b in s.buttons || Btn(b) in btns || Btn(b) in s.holdButton
  {
    var all := MergeHeld(btns, s.holdButton);
    var f1 := SetButton(s.frame, ButtonsOf(all));
    var f2 := SetHat(f1, HatsOf(all));
    SetAnyDirectionFlags(f2, DirectionsOf(all), Stick.LEFT);
    RaiseBits(s.frame.format.btn, ButtonsOf(all), b);
    RaiseBits(s.buttons, ButtonsOf(all), b);
    ButtonsOfMembers(all, b);
    MergeHeldKinds(btns, s.holdButton, Btn(b));
  }

  /** The frame `input` sends shows the first hat given; with none given or held, the hat last shown. */
  lemma InputHat(s: Session, btns: seq<Key>)
    ensures forall i :: 0 <= i < |btns| && btns[i].HatKey? && (forall j :: 0 <= j < i ==> !btns[j].HatKey?) ==>
      ReportOf(PressFrame(s, btns)).hat == HatValue(btns[i].hat)
    ensures (forall i :: 0 <= i < |btns| ==> !btns[i].HatKey?) && (forall i :: 0 <= i < |s.holdButton| ==> !s.holdButton[i].HatKey?)
      ==> ReportOf(PressFrame(s, btns)).hat == HatValue(s.frame.hatPos)
  {
    var all := MergeHeld(btns, s.holdButton);
    MergeHeldSpec(btns, s.holdButton);
    var f2 := SetHat(SetButton(s.frame, ButtonsOf(all)), HatsOf(all));
    SetAnyDirectionFlags(f2, DirectionsOf(all), Stick.LEFT);
    forall i | 0 <= i < |btns| && btns[i].HatKey? && (forall j :: 0 <= j < i ==> !btns[j].HatKey?)
      ensures ReportOf(PressFrame(s, btns)).hat == HatValue(btns[i].hat)
    {
      assert all[i] == btns[i];
      forall j | 0 <= j < i ensures !all[j].HatKey? {
        assert all[j] == btns[j];
      }
      HatsOfFirst(all, i);
    }
    if (forall i :: 0 <= i < |btns| ==> !btns[i].HatKey?) && (forall i :: 0 <= i < |s.holdButton| ==> !s.holdButton[i].HatKey?) {
      forall j | 0 <= j < |all| ensures !all[j].HatKey? {
        if j < |btns| {
          assert all[j] == btns[j];
        } else {
          assert all[j] in s.holdButton;
        }
      }
      HatsOfNone(all);
    }
  }

  /**
   * `inputEnd` clears the released buttons and centres the hat. When every
   * released direction's stick has a press time it writes exactly one frame,
   * which reads back as the released state; otherwise it raises before the
   * frame state changes and writes nothing.
   */
  lemma InputEndReleases(s: Session, btns: seq<Key>, b: Button)
    ensures b in ReportOf(ReleaseFrame(s, btns)).buttons <==> b in s.frame.format.btn && Btn(b) !in btns
    ensures ReportOf(ReleaseFrame(s, btns)).hat == HatValue(CENTER)
    ensures b in InputEnd(s, btns).buttons <==> b in s.buttons && Btn(b) !in btns
    ensures ReleaseTimed(s, btns) ==>
      && |InputEnd(s, btns).sent| == |s.sent| + 1 && InputEnd(s, btns).sent[..|s.sent|] == s.sent
      && ParseFrame(InputEnd(s, btns).sent[|s.sent|]) == Some(ReportOf(ReleaseFrame(s, btns)))
      && !InputEnd(s, btns).frame.lStickChanged && !InputEnd(s, btns).frame.rStickChanged
    ensures !ReleaseTimed(s, btns) ==> InputEnd(s, btns).sent == s.sent && InputEnd(s, btns).frame == s.frame
  {
    WireRoundTrip(ReleaseFrame(s, btns));
    LowerBits(s.frame.format.btn, ButtonsOf(btns), b);
    LowerBits(s.buttons, ButtonsOf(btns), b);
    ButtonsOfMembers(btns, b);
    UnsetDirectionStick(UnsetHat(UnsetButton(s.frame, ButtonsOf(btns))), Tilts(DirectionsOf(btns)), Stick.LEFT);
  }

  /** `inputEnd` raises exactly when it releases a direction whose stick has no press time. */
  lemma ReleaseTimedKeys(s: Session, btns: seq<Key>)
    ensures ReleaseTimed(s, btns) <==> forall i :: 0 <= i < |btns| && btns[i].Dir? ==> Stamped(s, btns[i].direction.stick)
  {
    forall d ensures d in DirectionsOf(btns) <==> Dir(d) in btns {
      DirectionsOfMembers(btns, d);
    }
    if !ReleaseTimed(s, btns) {
      var d :| d in DirectionsOf(btns) && !Stamped(s, d.stick);
      var i :| 0 <= i < |btns| && btns[i] == Dir(d);
      assert btns[i].Dir? && !Stamped(s, btns[i].direction.stick);
    }
  }

  /**
   * Only `input` gives a stick a press time: one of its given or held
   * directions names it. `inputEnd` keeps the press times, so releasing the
   * keys an `input` pressed never raises.
   */
  lemma PressStampsSticks(s: Session, btns: seq<Key>, st: Stick)
    ensures Stamped(Input(s, btns), st) <==> Stamped(s, st) || NamesStick(btns, st) || NamesStick(s.holdButton, st)
    ensures Stamped(InputEnd(s, btns), st) == Stamped(s, st)
    ensures ReleaseTimed(Input(s, btns), btns)
  {
    var all := MergeHeld(btns, s.holdButton);
    var p := Input(s, btns);
    assert p.lStamped == (s.lStamped || NamesStick(all, Stick.LEFT));
    assert p.rStamped == (s.rStamped || NamesStick(all, Stick.RIGHT));
    MergeHeldNames(btns, s.holdButton, st);
    forall d | d in DirectionsOf(btns) ensures Stamped(p, d.stick) {
      DirectionsOfMembers(btns, d);
      var i :| 0 <= i < |btns| && btns[i] == Dir(d);
      assert OnStick(btns[i], d.stick);
      MergeHeldNames(btns, s.holdButton, d.stick);
    }
  }

  /** A stick is named by a direction of the merged list exactly when a given or a held direction names it. */
  lemma MergeHeldNames(btns: seq<Key>, held: seq<Key>, st: Stick)
    ensures NamesStick(MergeHeld(btns, held), st) <==> NamesStick(btns, st) || NamesStick(held, st)
  {
    var all := MergeHeld(btns, held);
    MergeHeldSpec(btns, held);
    if NamesStick(btns, st) {
      var i :| 0 <= i < |btns| && OnStick(btns[i], st);
      assert all[i] == btns[i];
    }
    if NamesStick(held, st) {
      var i :| 0 <= i < |held| && OnStick(held[i], st);
      var j :| 0 <= j < |all| && SameKey(all[j], held[i]);
      assert OnStick(all[j], st);
    }
    if NamesStick(all, st) {
      var i :| 0 <= i < |all| && OnStick(all[i], st);
      if i < |btns| {
        assert btns[i] == all[i];
      } else {
        assert all[i] in held;
        var j :| 0 <= j < |held| && held[j] == all[i];
      }
    }
  }

  /** `end` writes the single row "end" and changes nothing else. */
  lemma EndSendsEnd(s: Session)
    ensures End(s).sent == s.sent + ["end"]
    ensures End(s).(sent := s.sent) == s
  {
  }

  /**
   * When the keys given hold no hat, the held keys are merged in behind them
   * with the first held hat ahead of every other hat.
   */
  lemma {:induction false} MergeHeldFirstHat(btns: seq<Key>, held: seq<Key>, i: nat)
    requires forall j :: 0 <= j < |btns| ==> !btns[j].HatKey?
    requires i < |held| && held[i].HatKey?
    requires forall j :: 0 <= j < i ==> !held[j].HatKey?
    ensures exists p :: (0 <= p < |MergeHeld(btns, held)| && MergeHeld(btns, held)[p] == held[i]
      && forall j :: 0 <= j < p ==> !MergeHeld(btns, held)[j].HatKey?)
    decreases |held|
  {
    var last := |held| - 1;
    var init := held[..last];
    var m := MergeHeld(btns, init);
    var k := held[last];
    var r := MergeHeld(btns, held);
    if i < last {
      MergeHeldFirstHat(btns, init, i);
      var p :| 0 <= p < |m| && m[p] == init[i] && forall j :: 0 <= j < p ==> !m[j].HatKey?;
      assert r[..|m|] == m;
      assert r[p] == m[p];
      forall j | 0 <= j < p ensures !r[j].HatKey? {
        assert r[j] == m[j];
      }
    } else {
      MergeHeldGrows(btns, init);
      forall q | 0 <= q < |m| ensures !m[q].HatKey? {
        if q < |btns| {
          assert m[q] == btns[q];
        } else {
          var j :| 0 <= j < |init| && init[j] == m[q];
        }
      }
      assert !Member(k, m);
      assert r == m + [k];
      assert r[|m|] == held[i];
    }
  }

  /** A held hat is shown by every `input` whose keys hold no hat, even after an `inputEnd` centred it: the first held hat wins. */
  lemma HeldHatReasserted(s: Session, btns: seq<Key>, i: nat)
    requires forall j :: 0 <= j < |btns| ==> !btns[j].HatKey?
    requires i < |s.holdButton| && s.holdButton[i].HatKey?
    requires forall j :: 0 <= j < i ==> !s.holdButton[j].HatKey?
    ensures ReportOf(PressFrame(s, btns)).hat == HatValue(s.holdButton[i].hat)
  {
    var all := MergeHeld(btns, s.holdButton);
    MergeHeldFirstHat(btns, s.holdButton, i);
    var p :| 0 <= p < |all| && all[p] == s.holdButton[i] && forall j :: 0 <= j < p ==> !all[j].HatKey?;
    HatsOfFirst(all, p);
    var f2 := SetHat(SetButton(s.frame, ButtonsOf(all)), HatsOf(all));
    SetAnyDirectionFlags(f2, DirectionsOf(all), Stick.LEFT);
  }

  /** A `hold` that names an already-held key only holds the keys before it and leaves the rest of the session as it was. */
  lemma HoldRefused(s: Session, btns: seq<Key>)
    ensures !Fresh(s.holdButton, btns) ==> Hold(s, btns) == s.(holdButton := HoldKeys(s.holdButton, btns).0)
  {
    HoldKeysSpec(s.holdButton, btns);
  }

  /**
   * A `hold` on fresh keys holds all of them and is then an `input` of
   * those keys (which sends one frame, `InputSendsFrame`).
   */
  lemma HoldOutcome(s: Session, btns: seq<Key>)
    ensures Fresh(s.holdButton, btns) ==> HoldKeys(s.holdButton, btns) == (s.holdButton + btns, true)
    ensures Fresh(s.holdButton, btns) ==> Hold(s, btns) == Input(s.(holdButton := HoldKeys(s.holdButton, btns).0), btns)
  {
    HoldKeysSpec(s.holdButton, btns);
  }

  /**
   * Releasing with `holdEnd` exactly the keys a `hold` took succeeds,
   * restores the held list and is then an `inputEnd` of those keys, which
   * sends one more frame.
   */
  lemma HoldEndUndoesHold(s: Session, btns: seq<Key>)
    requires Fresh(s.holdButton, btns)
    ensures HoldEnd(Hold(s, btns), btns).1
    ensures HoldEnd(Hold(s, btns), btns).0 == InputEnd(Hold(s, btns).(holdButton := s.holdButton), btns)
    ensures HoldEnd(Hold(s, btns), btns).0.holdButton == s.holdButton
    ensures |HoldEnd(Hold(s, btns), btns).0.sent| == |s.sent| + 2
  {
    HoldKeysSpec(s.holdButton, btns);
    RemoveKeysUndoesHold(s.holdButton, btns);
    var h := Hold(s, btns);
    PressStampsSticks(s.(holdButton := s.holdButton + btns), btns, Stick.LEFT);
    assert ReleaseTimed(h.(holdButton := s.holdButton), btns) by {
      forall d | d in DirectionsOf(btns) ensures Stamped(h.(holdButton := s.holdButton), d.stick) {
        assert Stamped(h, d.stick);
      }
    }
  }

  /**
   * The removal loop of `holdEnd` fails exactly when some key is not held
   * once the keys before it are removed; the held list then keeps those
   * removals.
   */
  lemma {:induction false} RemoveKeysFails(held: seq<Key>, btns: seq<Key>)
    ensures !RemoveKeys(held, btns).1 <==> exists i :: (0 <= i < |btns|
      && RemoveKeys(held, btns[..i]) == (RemoveKeys(held, btns).0, true)
      && !Member(btns[i], RemoveKeys(held, btns).0))
    decreases |btns|
  {
    if btns != [] {
      var k := btns[0];
      RemoveFirstAbsent(held, k);
      assert btns[..0] == [];
      match RemoveFirst(held, k)
      case None =>
        assert RemoveKeys(held, btns[..0]) == (held, true);
      case Some(h) =>
        var rest := btns[1..];
        RemoveKeysFails(h, rest);
        forall i | 1 <= i <= |btns| ensures RemoveKeys(held, btns[..i]) == RemoveKeys(h, rest[..i - 1]) {
          assert btns[..i][0] == k && btns[..i][1..] == rest[..i - 1];
        }
        if !RemoveKeys(held, btns).1 {
          var j :| 0 <= j < |rest| && RemoveKeys(h, rest[..j]) == (RemoveKeys(h, rest).0, true)
            && !Member(rest[j], RemoveKeys(h, rest).0);
          assert btns[j + 1] == rest[j];
          assert RemoveKeys(held, btns[..j + 1]) == (RemoveKeys(held, btns).0, true);
        }
        if exists i :: (0 <= i < |btns| && RemoveKeys(held, btns[..i]) == (RemoveKeys(held, btns).0, true)
          && !Member(btns[i], RemoveKeys(held, btns).0))
        {
          var i :| 0 <= i < |btns| && RemoveKeys(held, btns[..i]) == (RemoveKeys(held, btns).0, true)
            && !Member(btns[i], RemoveKeys(held, btns).0);
          if i > 0 {
            assert rest[i - 1] == btns[i];
            assert RemoveKeys(h, rest[..i - 1]) == (RemoveKeys(h, rest).0, true);
          }
        }
    }
  }

  /**
   * `holdEnd` raises in `remove` exactly when some key is not held once the
   * keys before it are removed; it keeps those removals and sends nothing.
   */
  lemma HoldEndUnheld(s: Session, btns: seq<Key>)
    ensures !RemoveKeys(s.holdButton, btns).1 <==> exists i :: (0 <= i < |btns|
      && RemoveKeys(s.holdButton, btns[..i]) == (HoldEnd(s, btns).0.holdButton, true)
      && !Member(btns[i], HoldEnd(s, btns).0.holdButton))
    ensures !RemoveKeys(s.holdButton, btns).1 ==>
      !HoldEnd(s, btns).1 && HoldEnd(s, btns).0 == s.(holdButton := RemoveKeys(s.holdButton, btns).0)
  {
    RemoveKeysFails(s.holdButton, btns);
  }

  /** Pressing a direction and releasing it centres its stick and leaves the other stick alone. */
  lemma PressReleaseCentres(f: FrameState, d: Direction, other: Stick)
    requires other != d.stick
    ensures var r := UnsetDirection(SetDirection(f, d), GetTilting(d));
      && Axes(r.format, d.stick) == (Center, Center)
      && Axes(r.format, other) == Axes(f.format, other)
      && r.format.btn == f.format.btn && r.format.hat == f.format.hat && r.hatPos == f.hatPos
  {
    var p := SetDirection(f, d);
    var t := GetTilting(d);
    UnsetDirectionStick(p, t, d.stick);
    UnsetDirectionStick(p, t, other);
    assert TiltStick(UpTilt(other)) == other && TiltStick(DownTilt(other)) == other;
    assert TiltStick(LeftTilt(other)) == other && TiltStick(RightTilt(other)) == other;
  }

  /**
   * Pressing and releasing one key from the initial state sends two rows and
   * returns every part of the state to the start, except that a tapped
   * direction's stick keeps its press time.
   */
  lemma TapReturnsToStart(rows: seq<string>, k: Key)
    ensures var s := InputEnd(Input(Start(rows), [k]), [k]);
      && s.(sent := rows, lStamped := false, rStamped := false) == Start(rows) && |s.sent| == |rows| + 2
      && s.lStamped == OnStick(k, Stick.LEFT) && s.rStamped == OnStick(k, Stick.RIGHT)
  {
    var ks := [k];
    assert MergeHeld(ks, []) == ks;
    assert ks[..0] == [];
    match k
    case Btn(b) => TapButton(rows, b);
    case HatKey(h) => TapHat(rows, h);
    case Dir(d) => TapDirection(rows, d);
  }

  /** How a one-key list is sorted by kind. */
  lemma Single(k: Key, cur: Option<Label>, st: Stick)
    ensures ButtonsOf([k]) == (if k.Btn? then [k.button] else [])
    ensures HatsOf([k]) == (if k.HatKey? then [k.hat] else [])
    ensures DirectionsOf([k]) == (if k.Dir? then [k.direction] else [])
    ensures StickPressed(cur, [k], st) == if k.Dir? && k.direction.stick == st then Some(k.direction.shown) else cur
    ensures StickReleased(cur, [k], st) == if k.Dir? && k.direction.stick == st then None else cur
    ensures NamesStick([k], st) == OnStick(k, st)
  {
    var ks := [k];
    assert OnStick(k, st) ==> OnStick(ks[0], st);
    assert ks[..|ks| - 1] == [];
    assert ButtonsOf(ks[..|ks| - 1]) == [] && HatsOf(ks[..|ks| - 1]) == [] && DirectionsOf(ks[..|ks| - 1]) == [];
    assert StickPressed(cur, ks[..|ks| - 1], st) == cur && StickReleased(cur, ks[..|ks| - 1], st) == cur;
  }

  lemma TapButton(rows: seq<string>, b: Button)
    requires MergeHeld([Btn(b)], []) == [Btn(b)]  // nothing held: the merge adds nothing
    ensures var s := InputEnd(Input(Start(rows), [Btn(b)]), [Btn(b)]);
      && s.(sent := rows, lStamped := false, rStamped := false) == Start(rows) && |s.sent| == |rows| + 2
      && s.lStamped == OnStick(Btn(b), Stick.LEFT) && s.rStamped == OnStick(Btn(b), Stick.RIGHT)
  {
    var ks := [Btn(b)];
    Single(ks[0], None, Stick.LEFT);
    Single(ks[0], None, Stick.RIGHT);
    assert Raise({}, [b]) == {b};
    assert Lower({b}, [b]) == {};
    var s1 := Input(Start(rows), ks);
    assert PressFrame(Start(rows), ks) == Initial.(format := Neutral.(btn := {b}));
    assert s1 == Start(rows).(frame := Initial.(format := Neutral.(btn := {b})), buttons := {b}, sent := s1.sent);
    assert Tilts([]) == [];
    assert ReleaseFrame(s1, ks) == Initial;
  }

  lemma TapHat(rows: seq<string>, h: Hat)
    ensures var s := InputEnd(Input(Start(rows), [HatKey(h)]), [HatKey(h)]);
      && s.(sent := rows, lStamped := false, rStamped := false) == Start(rows) && |s.sent| == |rows| + 2
      && s.lStamped == OnStick(HatKey(h), Stick.LEFT) && s.rStamped == OnStick(HatKey(h), Stick.RIGHT)
  {
    assert MergeHeld([HatKey(h)], []) == [HatKey(h)];
    var ks := [HatKey(h)];
    Single(ks[0], None, Stick.LEFT);
    Single(ks[0], None, Stick.RIGHT);
    var s0 := Start(rows);
    var shown := Initial.(format := Neutral.(hat := h), hatPos := h);
    PressHat(rows, h);
    var s1 := Input(s0, ks);
    assert Lower({h}, [h]) == {};
    assert ReleaseTimed(s1, ks);
    assert Released(s1, ks) == s1.(hats := {});
    var g1 := UnsetButton(Sent(shown), []);
    assert g1 == Sent(shown) by { assert Lower<Button>({}, []) == {}; }
    var g2 := UnsetHat(g1);
    assert g2 == Initial;
    assert Tilts([]) == [];
    assert UnsetDirection(g2, []) == Initial;
    assert ReleaseFrame(s1, ks) == Initial;
    var s2 := InputEnd(s1, ks);
    assert s2 == s0.(sent := s2.sent);
  }

  /** Pressing one hat from the initial state shows it, records it as pressed and sends one row. */
  lemma PressHat(rows: seq<string>, h: Hat)
    ensures var s := Input(Start(rows), [HatKey(h)]);
      s == Start(rows).(frame := Sent(Initial.(format := Neutral.(hat := h), hatPos := h)), hats := {h}, sent := s.sent)
      && |s.sent| == |rows| + 1
  {
    assert MergeHeld([HatKey(h)], []) == [HatKey(h)];
    var ks := [HatKey(h)];
    Single(ks[0], None, Stick.LEFT);
    Single(ks[0], None, Stick.RIGHT);
    var s0 := Start(rows);
    var shown := Initial.(format := Neutral.(hat := h), hatPos := h);
    var f1 := SetButton(Initial, []);
    assert f1 == Initial by { assert Raise<Button>({}, []) == {}; }
    assert SetHat(f1, [h]) == shown;
    assert SetAnyDirection(shown, []) == shown;
    assert PressFrame(s0, ks) == shown;
    assert [h][..0] == [];
    assert Raise({}, [h]) == {h};
  }

  lemma TapDirection(rows: seq<string>, d: Direction)
    ensures var s := InputEnd(Input(Start(rows), [Dir(d)]), [Dir(d)]);
      && s.(sent := rows, lStamped := false, rStamped := false) == Start(rows) && |s.sent| == |rows| + 2
      && s.lStamped == OnStick(Dir(d), Stick.LEFT) && s.rStamped == OnStick(Dir(d), Stick.RIGHT)
  {
    assert MergeHeld([Dir(d)], []) == [Dir(d)];
    var s1 := Input(Start(rows), [Dir(d)]);
    PressDirection(rows, d);
    ReleaseDirection(s1, d);
    var s2 := InputEnd(s1, [Dir(d)]);
    assert s2.(sent := rows, lStamped := false, rStamped := false) == Start(rows);
  }

  /** Releasing the one direction that was pressed from the initial frame state restores it, empties the slot and sends one row. */
  lemma ReleaseDirection(p: Session, d: Direction)
    requires p.frame == Sent(SetDirection(Initial, d))
    requires Stamped(p, d.stick)
    ensures var r := InputEnd(p, [Dir(d)]);
      && r.(sent := p.sent) == p.(frame := Initial, lStick := if d.stick == Stick.LEFT then None else p.lStick,
                                  rStick := if d.stick == Stick.RIGHT then None else p.rStick)
      && |r.sent| == |p.sent| + 1
  {
    var ks := [Dir(d)];
    Single(ks[0], p.lStick, Stick.LEFT);
    Single(ks[0], p.rStick, Stick.RIGHT);
    assert ReleaseTimed(p, ks);
    TapDirectionFrame(d);
    assert ReleaseFrame(p, ks) == UnsetDirection(Sent(SetDirection(Initial, d)), GetTilting(d)) by {
      assert Lower(p.frame.format.btn, []) == p.frame.format.btn;
      assert Tilts([d]) == GetTilting(d) by {
        assert [d][..|[d]| - 1] == [];
      }
    }
    assert Lower(p.buttons, []) == p.buttons && Lower(p.hats, []) == p.hats;
  }

  /** Pressing one direction from the initial state stores it, gives its stick a press time and sends one row. */
  lemma PressDirection(rows: seq<string>, d: Direction)
    requires MergeHeld([Dir(d)], []) == [Dir(d)]  // nothing held: the merge adds nothing
    ensures var s := Input(Start(rows), [Dir(d)]);
      && s.frame == Sent(SetDirection(Initial, d)) && |s.sent| == |rows| + 1
      && s.holdButton == [] && s.buttons == {} && s.hats == {}
      && s.lStick == (if d.stick == Stick.LEFT then Some(d.shown) else None)
      && s.rStick == (if d.stick == Stick.RIGHT then Some(d.shown) else None)
      && s.lStamped == (d.stick == Stick.LEFT) && s.rStamped == (d.stick == Stick.RIGHT)
  {
    var ks := [Dir(d)];
    Single(ks[0], None, Stick.LEFT);
    Single(ks[0], None, Stick.RIGHT);
    assert PressFrame(Start(rows), ks) == SetDirection(Initial, d) by {
      assert Raise<Button>({}, []) == {};
      assert SetAnyDirection(Initial, [d]) == SetDirection(Initial, d);
    }
    assert Raise<Button>({}, []) == {} && Raise<Hat>({}, []) == {};
  }

  /** A direction pressed from the initial frame state and released again leaves the initial frame state. */
  lemma TapDirectionFrame(d: Direction)
    ensures Sent(UnsetDirection(Sent(SetDirection(Initial, d)), GetTilting(d))) == Initial
  {
    var other := if d.stick == Stick.LEFT then Stick.RIGHT else Stick.LEFT;
    assert Sent(SetDirection(Initial, d)) == SetDirection(Sent(Initial), d).(lStickChanged := false, rStickChanged := false);
    var p := Sent(SetDirection(Initial, d));
    var t := GetTilting(d);
    UnsetDirectionStick(p, t, d.stick);
    UnsetDirectionStick(p, t, other);
    assert TiltStick(UpTilt(other)) == other && TiltStick(DownTilt(other)) == other;
    assert TiltStick(LeftTilt(other)) == other && TiltStick(RightTilt(other)) == other;
  }

  // ---------------------------------------------------------------- the comparison as written

  /**
   * Python's `==` between two keys as the source evaluates it in `in` and
   * `list.remove`: `Button` is an `IntFlag` and `Hat` an `IntEnum`, so a
   * button and a hat compare by their integer values; a direction equals
   * only a direction.
   */
  predicate PyEq(a: Key, b: Key)
  {
    match (a, b)
    case (Btn(x), Btn(y)) => x == y
    case (HatKey(h), HatKey(k)) => h == k
    case (Btn(x), HatKey(h)) => Flag(x) == HatValue(h)
    case (HatKey(h), Btn(x)) => Flag(x) == HatValue(h)
    case (Dir(d), Dir(e)) => SameDirection(d, e)
    case _ => false
  }

  /** Within one kind Python's `==` is `SameKey`; across buttons and hats exactly four pairs collide. */
  lemma PyEqCollisions(a: Key, b: Key)
    ensures a.Btn? == b.Btn? && a.HatKey? == b.HatKey? ==> (PyEq(a, b) <==> SameKey(a, b))
    ensures a.Btn? && b.HatKey? ==> (PyEq(a, b) <==>
      (a.button, b.hat) in {(Y, TOP_RIGHT), (Controls.B, Hat.RIGHT), (Controls.A, BTM), (Controls.X, CENTER)})
  {
    if a.Btn? && b.HatKey? {
      match a.button
      case Y =>
      case B =>
      case A =>
      case X =>
      case L => assert Flag(L) == 16;
      case R => assert Flag(R) == 32;
      case ZL => assert Flag(ZL) == 64;
      case ZR => assert Flag(ZR) == 128;
      case MINUS => assert Flag(MINUS) == 256;
      case PLUS => assert Flag(PLUS) == 512;
      case LCLICK => assert Flag(LCLICK) == 1024;
      case RCLICK => assert Flag(RCLICK) == 2048;
      case HOME => assert Flag(HOME) == 4096;
      case CAPTURE => assert Flag(CAPTURE) == 8192;
    }
  }

  predicate PyMember(k: Key, ks: seq<Key>)
  {
    exists i :: 0 <= i < |ks| && PyEq(ks[i], k)
  }

  /** The merge of `input` (Keys.py:377-379) with Python's `==`. */
  function MergeHeldAsWritten(btns: seq<Key>, held: seq<Key>): seq<Key>
    decreases |held|
  {
    if held == [] then btns
    else
      var merged := MergeHeldAsWritten(btns, held[..|held| - 1]);
      var k := held[|held| - 1];
      if PyMember(k, merged) then merged else merged + [k]
  }

  /** The loop of `hold` (Keys.py:476-481) with Python's `==`. */
  function HoldKeysAsWritten(held: seq<Key>, btns: seq<Key>): (seq<Key>, bool)
    decreases |btns|
  {
    if btns == [] then (held, true)
    else if PyMember(btns[0], held) then (held, false)
    else HoldKeysAsWritten(held + [btns[0]], btns[1..])
  }

  /** `list.remove` (Keys.py:490) with Python's `==`. */
  function RemoveFirstAsWritten(ks: seq<Key>, k: Key): Option<seq<Key>>
    decreases |ks|
  {
    if ks == [] then None
    else if PyEq(ks[0], k) then Some(ks[1..])
    else
      match RemoveFirstAsWritten(ks[1..], k)
      case None => None
      case Some(r) => Some([ks[0]] + r)
  }

  /** The loop of `holdEnd` (Keys.py:489-490) with Python's `==`. */
  function RemoveKeysAsWritten(held: seq<Key>, btns: seq<Key>): (seq<Key>, bool)
    decreases |btns|
  {
    if btns == [] then (held, true)
    else
      match RemoveFirstAsWritten(held, btns[0])
      case None => (held, false)
      case Some(h) => RemoveKeysAsWritten(h, btns[1..])
  }

  /** Some held key is a direction. */
  predicate HoldsDirection(held: seq<Key>)
  {
    exists i :: 0 <= i < |held| && held[i].Dir?
  }

  /**
   * `input` (Keys.py:371-407) as written. The merge uses Python's `==`, and
   * `set(self.holdButton)` at Keys.py:396 raises `TypeError` while a
   * direction is held, since `Direction` defines `__eq__` without `__hash__`.
   * That happens after the sorting loop and before the frame state changes.
   */
  function InputAsWritten(s: Session, btns: seq<Key>): Session
  {
    var all := MergeHeldAsWritten(btns, s.holdButton);
    if HoldsDirection(s.holdButton) then Pressed(s, all)
    else
      var f := Pressing(s.frame, all);
      Pressed(s, all).(frame := Sent(f), sent := s.sent + [Wire(f)])
  }

  /** `hold` as written. */
  function HoldAsWritten(s: Session, btns: seq<Key>): Session
  {
    var (held, ok) := HoldKeysAsWritten(s.holdButton, btns);
    if ok then InputAsWritten(s.(holdButton := held), btns) else s.(holdButton := held)
  }

  /** `holdEnd` as written. */
  function HoldEndAsWritten(s: Session, btns: seq<Key>): (Session, bool)
  {
    var (held, ok) := RemoveKeysAsWritten(s.holdButton, btns);
    if ok then
      var h := s.(holdButton := held);
      (InputEnd(h, btns), ReleaseTimed(h, btns))
    else (s.(holdButton := held), false)
  }

  /** A hold loop that completes, as written, has appended every key. */
  lemma {:induction false} HoldKeysAsWrittenAppends(held: seq<Key>, btns: seq<Key>)
    ensures HoldKeysAsWritten(held, btns).1 ==> HoldKeysAsWritten(held, btns).0 == held + btns
    decreases |btns|
  {
    if btns != [] && !PyMember(btns[0], held) {
      HoldKeysAsWrittenAppends(held + [btns[0]], btns[1..]);
      assert held + [btns[0]] + btns[1..] == held + btns;
    }
  }

  /**
   * As written, `input` with a direction held raises before its frame is
   * built, so the frame state is untouched and nothing is sent; the
   * corrected `input` sends one frame.
   */
  lemma HeldDirectionBlocksInput(s: Session, btns: seq<Key>, i: nat)
    requires i < |s.holdButton| && s.holdButton[i].Dir?
    ensures InputAsWritten(s, btns).sent == s.sent && InputAsWritten(s, btns).frame == s.frame
    ensures |Input(s, btns).sent| == |s.sent| + 1
  {
    assert HoldsDirection(s.holdButton);
  }

  /**
   * As written, a `hold` naming a direction sends nothing: the hold loop
   * either stops at a stale key or appends the direction, and then the
   * `input` it calls raises. By kind, a `hold` of fresh keys sends one frame.
   */
  lemma HoldDirectionSendsNothing(s: Session, btns: seq<Key>, i: nat)
    requires i < |btns| && btns[i].Dir?
    ensures HoldAsWritten(s, btns).sent == s.sent && HoldAsWritten(s, btns).frame == s.frame
    ensures Fresh(s.holdButton, btns) ==> |Hold(s, btns).sent| == |s.sent| + 1
  {
    HoldKeysAsWrittenAppends(s.holdButton, btns);
    HoldKeysSpec(s.holdButton, btns);
    var (held, ok) := HoldKeysAsWritten(s.holdButton, btns);
    if ok {
      assert held[|s.holdButton| + i] == btns[i];
      assert HoldsDirection(held);
    }
  }

  /**
   * With `Y` held, holding the hat `TOP_RIGHT` is refused as written (the
   * flag 1 equals the hat value 1) and nothing is sent; with keys compared by
   * kind the hat is held and its frame is sent.
   */
  lemma HoldHatBehindButton(s: Session)
    requires s.holdButton == [Btn(Y)]
    ensures HoldAsWritten(s, [HatKey(TOP_RIGHT)]) == s
    ensures Hold(s, [HatKey(TOP_RIGHT)]).holdButton == [Btn(Y), HatKey(TOP_RIGHT)]
    ensures |Hold(s, [HatKey(TOP_RIGHT)]).sent| == |s.sent| + 1
  {
    assert PyEq(s.holdButton[0], HatKey(TOP_RIGHT));
    assert PyMember(HatKey(TOP_RIGHT), s.holdButton);
    assert !Member(HatKey(TOP_RIGHT), s.holdButton);
    assert [HatKey(TOP_RIGHT)][1..] == [];
  }

  /** As written, the merge of `input` drops a held hat behind a colliding button; by kind it is kept. */
  lemma MergeDropsHeldHat()
    ensures MergeHeldAsWritten([Btn(Y)], [HatKey(TOP_RIGHT)]) == [Btn(Y)]
    ensures MergeHeld([Btn(Y)], [HatKey(TOP_RIGHT)]) == [Btn(Y), HatKey(TOP_RIGHT)]
  {
    var held := [HatKey(TOP_RIGHT)];
    assert held[..|held| - 1] == [];
    assert PyEq([Btn(Y)][0], HatKey(TOP_RIGHT));
    assert PyMember(HatKey(TOP_RIGHT), [Btn(Y)]);
    assert !Member(HatKey(TOP_RIGHT), [Btn(Y)]);
  }

  /** `Btn(Y)` and `HatKey(TOP_RIGHT)` compare equal as ints, so the as-written removal takes the button. */
  lemma TopRightMatchesY()
    ensures RemoveFirstAsWritten([Btn(Y)], HatKey(TOP_RIGHT)) == Some([])
    ensures RemoveFirst([Btn(Y)], HatKey(TOP_RIGHT)) == None
    ensures RemoveKeysAsWritten([Btn(Y)], [HatKey(TOP_RIGHT)]) == ([], true)
  {
    var held := [Btn(Y)];
    assert PyEq(held[0], HatKey(TOP_RIGHT));
    assert held[1..] == [];
    assert !SameKey(held[0], HatKey(TOP_RIGHT));
    assert RemoveFirst(held[1..], HatKey(TOP_RIGHT)) == None;
    assert [HatKey(TOP_RIGHT)][1..] == [];
  }

  /**
   * With only `Y` held, as `hold([Button.Y])` leaves it, `holdEnd` of the
   * hat `TOP_RIGHT` removes `Y` as written (1 == 1) and goes on to
   * `inputEnd`, which keeps Y's bit as it was though Y is no longer held. By
   * kind, `remove` raises `ValueError` and nothing changes.
   */
  lemma RemoveTakesButton(s: Session)
    requires s.holdButton == [Btn(Y)]
    ensures RemoveFirstAsWritten(s.holdButton, HatKey(TOP_RIGHT)) == Some([])
    ensures RemoveFirst(s.holdButton, HatKey(TOP_RIGHT)) == None
    ensures var (t, ok) := HoldEndAsWritten(s, [HatKey(TOP_RIGHT)]);
      ok && t.holdButton == [] && |t.sent| == |s.sent| + 1 && (Y in t.frame.format.btn <==> Y in s.frame.format.btn)
    ensures HoldEnd(s, [HatKey(TOP_RIGHT)]) == (s, false)
  {
    var ks := [HatKey(TOP_RIGHT)];
    TopRightMatchesY();
    Single(ks[0], None, Stick.LEFT);
    var h := s.(holdButton := []);
    assert ReleaseTimed(h, ks);
    InputEndReleases(h, ks, Y);
  }
}
