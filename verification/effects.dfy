/** The TRANSFORM effect strips of `transform_strip`, `rotate_strip` and
    `translate_strip`: each adds one effect strip over its target, one channel
    higher, spanning the target's frames, and leaves the target alone. */
module Effects {
  import opened Wrappers
  import opened Host
  import opened Timing

  /** The strip `new_effect(name, 'TRANSFORM', channel + 1, start, end, seq1=target)`
      creates, before its fields are set. The scripts pass the target's
      `frame_start` as the start, but the host derives the range of an effect
      with one input from that input, so the effect spans the target's
      visible frames. */
  function EffectOf(target: Strip, name: string): (e: Strip)
    ensures e.name == name && e.kind == Transform && e.input == Some(target.name)
    ensures e.channel == target.channel + 1
    ensures forall f :: Covers(e, f) <==> Covers(target, f)
    ensures e.rotation == 0.0 && e.offsetX == 0 && e.offsetY == 0
  {
    Strip(name, Transform, target.channel + 1, target.start, target.end, target.start, "", 1.0, 0.0, 0, 0, Some(target.name), [])
  }

  /** The effect `transform_strip` leaves behind. */
  function Transformed(target: Strip, dx: real, dy: real, deg: real): (e: Strip)
    ensures e.name == "Transform_" + target.name && e.kind == Transform && e.input == Some(target.name)
    ensures e.offsetX == Trunc(dx) && e.offsetY == Trunc(dy) && e.rotation == deg
    ensures forall f :: Covers(e, f) <==> Covers(target, f)
  {
    EffectOf(target, "Transform_" + target.name).(offsetX := Trunc(dx), offsetY := Trunc(dy), rotation := deg)
  }

  /** The effect `rotate_strip` leaves behind. */
  function Rotated(target: Strip, name: string, deg: real): (e: Strip)
    ensures e.name == "Rotate_" + name && e.kind == Transform && e.input == Some(target.name)
    ensures e.offsetX == 0 && e.offsetY == 0 && e.rotation == deg
    ensures forall f :: Covers(e, f) <==> Covers(target, f)
  {
    EffectOf(target, "Rotate_" + name).(rotation := deg)
  }

  /** The effect `translate_strip` leaves behind. */
  function Translated(target: Strip, name: string, dx: real, dy: real): (e: Strip)
    ensures e.name == "Translate_" + name && e.kind == Transform && e.input == Some(target.name)
    ensures e.offsetX == Trunc(dx) && e.offsetY == Trunc(dy) && e.rotation == 0.0
    ensures forall f :: Covers(e, f) <==> Covers(target, f)
  {
    EffectOf(target, "Translate_" + name).(offsetX := Trunc(dx), offsetY := Trunc(dy))
  }

  /** One transform is a rotation and a translation held in a single strip:
      apart from the name, the three effects agree field by field. */
  lemma TransformCombines(target: Strip, dx: real, dy: real, deg: real)
    ensures Transformed(target, dx, dy, deg).(name := "") ==
      Rotated(target, target.name, deg).(name := "", offsetX := Translated(target, target.name, dx, dy).offsetX,
                                         offsetY := Translated(target, target.name, dx, dy).offsetY)
  {
  }

  /** `transform_strip(strip, (dx, dy), rotation)` on strip `i`. */
  method TransformStrip(t: Timeline, i: nat, dx: real, dy: real, deg: real) returns (k: nat)
    requires t.Valid() && i < |t.strips|
    modifies t
    ensures t.Valid() && k == |old(t.strips)|
    ensures t.strips == Append(old(t.strips), Transformed(old(t.strips)[i], dx, dy, deg))
  {
    ghost var s0 := t.strips;
    var target := t.strips[i];
    var e := EffectOf(target, "Transform_" + target.name);
    k := t.Add(e);
    t.SetOffset(k, Trunc(dx), Trunc(dy));
    AppendThenSetOffset(s0, e, Trunc(dx), Trunc(dy));
    e := e.(offsetX := Trunc(dx), offsetY := Trunc(dy));
    t.SetRotation(k, deg);
    AppendThenSetRotation(s0, e, deg);
  }

  /** `rotate_strip(name, angle)`: a ValueError when no strip has that name. */
  method RotateStrip(t: Timeline, name: string, deg: real) returns (r: Result<nat>)
    requires t.Valid()
    modifies t
    ensures t.Valid()
    ensures Find(old(t.strips), name).None? ==> r == Err(ValueError) && t.strips == old(t.strips)
    ensures Find(old(t.strips), name).Some? ==> (r == Ok(|old(t.strips)|) &&
      t.strips == Append(old(t.strips), Rotated(old(t.strips)[Find(old(t.strips), name).value], name, deg)))
  {
    var i := t.Get(name);
    if i.None? {
      return Err(ValueError);
    }
    ghost var s0 := t.strips;
    var e := EffectOf(t.strips[i.value], "Rotate_" + name);
    var k := t.Add(e);
    t.SetRotation(k, deg);
    AppendThenSetRotation(s0, e, deg);
    return Ok(k);
  }

  /** `translate_strip(name, dx, dy)`: a ValueError when no strip has that name. */
  method TranslateStrip(t: Timeline, name: string, dx: real, dy: real) returns (r: Result<nat>)
    requires t.Valid()
    modifies t
    ensures t.Valid()
    ensures Find(old(t.strips), name).None? ==> r == Err(ValueError) && t.strips == old(t.strips)
    ensures Find(old(t.strips), name).Some? ==> (r == Ok(|old(t.strips)|) &&
      t.strips == Append(old(t.strips), Translated(old(t.strips)[Find(old(t.strips), name).value], name, dx, dy)))
  {
    var i := t.Get(name);
    if i.None? {
      return Err(ValueError);
    }
    ghost var s0 := t.strips;
    var e := EffectOf(t.strips[i.value], "Translate_" + name);
    var k := t.Add(e);
    t.SetOffset(k, Trunc(dx), Trunc(dy));
    AppendThenSetOffset(s0, e, Trunc(dx), Trunc(dy));
    return Ok(k);
  }
}
