/** Keyboard nudging of a handle (ControlButton_KeyDown in ImageCropper.Events.cs). */
module Keys {
  import opened Geometry

  datatype VirtualKey = ArrowLeft | ArrowRight | ArrowUp | ArrowDown | OtherKey(code: int)

  /** For each arrow key, whether the window reports its state as exactly Down. */
  datatype HeldArrows = HeldArrows(up: bool, down: bool, left: bool, right: bool)

  predicate IsArrow(key: VirtualKey) { !key.OtherKey? }

  /** The net vertical and horizontal nudge of the held arrows: -1, 0 or +1. */
  function HeldVertical(held: HeldArrows): real {
    (if held.down then 1.0 else 0.0) - (if held.up then 1.0 else 0.0)
  }

  function HeldHorizontal(held: HeldArrows): real {
    (if held.right then 1.0 else 0.0) - (if held.left then 1.0 else 0.0)
  }

  /** The nudge of an arrow press: a unit step along the pressed arrow's axis, plus one
      step on the other axis for each held perpendicular arrow. */
  function Nudge(key: VirtualKey, held: HeldArrows): Point
    requires IsArrow(key)
  {
    match key
    case ArrowLeft => Point(-1.0, HeldVertical(held))
    case ArrowRight => Point(1.0, HeldVertical(held))
    case ArrowUp => Point(HeldHorizontal(held), -1.0)
    case ArrowDown => Point(HeldHorizontal(held), 1.0)
  }

  /** The delta of a key press (the increments of ControlButton_KeyDown): the nudge for
      an arrow, no change for any other key. */
  method ArrowKeyDelta(key: VirtualKey, held: HeldArrows) returns (changed: bool, diff: Point)
    ensures changed <==> IsArrow(key)
    ensures changed ==> diff == Nudge(key, held)
    ensures !changed ==> diff == Point(0.0, 0.0)
  {
    changed := false;
    diff := Point(0.0, 0.0);
    if key == ArrowLeft {
      diff := diff.(x := diff.x - 1.0);
      if held.up { diff := diff.(y := diff.y - 1.0); }
      if held.down { diff := diff.(y := diff.y + 1.0); }
      changed := true;
    } else if key == ArrowRight {
      diff := diff.(x := diff.x + 1.0);
      if held.up { diff := diff.(y := diff.y - 1.0); }
      if held.down { diff := diff.(y := diff.y + 1.0); }
      changed := true;
    } else if key == ArrowUp {
      diff := diff.(y := diff.y - 1.0);
      if held.left { diff := diff.(x := diff.x - 1.0); }
      if held.right { diff := diff.(x := diff.x + 1.0); }
      changed := true;
    } else if key == ArrowDown {
      diff := diff.(y := diff.y + 1.0);
      if held.left { diff := diff.(x := diff.x - 1.0); }
      if held.right { diff := diff.(x := diff.x + 1.0); }
      changed := true;
    }
  }

  /** Every nudge is a non-zero step of at most one unit per axis, so it is never the
      zero delta a drag ignores; on the pressed arrow's axis it is exactly one unit in
      the arrow's direction. */
  lemma NudgeIsUnitStep(key: VirtualKey, held: HeldArrows)
    requires IsArrow(key)
    ensures var d := Nudge(key, held);
      d != Point(0.0, 0.0) && -1.0 <= d.x <= 1.0 && -1.0 <= d.y <= 1.0 &&
      (key == ArrowLeft ==> d.x == -1.0) && (key == ArrowRight ==> d.x == 1.0) &&
      (key == ArrowUp ==> d.y == -1.0) && (key == ArrowDown ==> d.y == 1.0)
  {
  }

  /** Opposite arrows nudge in opposite directions along their axis and alike on the
      other one. */
  lemma OppositeNudges(held: HeldArrows)
    ensures Nudge(ArrowLeft, held).x == -Nudge(ArrowRight, held).x
    ensures Nudge(ArrowLeft, held).y == Nudge(ArrowRight, held).y
    ensures Nudge(ArrowUp, held).y == -Nudge(ArrowDown, held).y
    ensures Nudge(ArrowUp, held).x == Nudge(ArrowDown, held).x
  {
  }

  /** Holding both perpendicular arrows cancels out. */
  lemma BothHeldCancel(key: VirtualKey, held: HeldArrows)
    requires IsArrow(key) && held.up && held.down && held.left && held.right
    ensures var d := Nudge(key, held);
      (key == ArrowLeft || key == ArrowRight ==> d.y == 0.0) &&
      (key == ArrowUp || key == ArrowDown ==> d.x == 0.0)
  {
  }
}
