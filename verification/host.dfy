/** An in-memory stand-in for the host's video sequence editor: the collection
    `scene.sequence_editor.sequences_all` and the primitives the scripts call on
    it (`get`, `split`, `delete`, renaming, `new_movie`/`new_sound`/`new_image`/
    `new_effect`, field assignment). The pure functions below say what each
    primitive does to the sequence of strips; class `Timeline` holds that
    sequence and changes it in place through methods proved against them. */
module Host {
  import opened Wrappers
  import opened Text

  /** The strip `type` strings the scripts create or test for. */
  datatype Kind = Movie | Sound | Image | Transform | Meta

  /** One strip. `start` and `end` are `frame_final_start` and the exclusive
      `frame_final_end`; `contentStart` is `frame_start`, the frame where the
      media's first frame sits, which a split copies to both parts so that
      it stays put when a strip is trimmed. `rotation`, `offsetX`, `offsetY` and `input` (`seq1`,
      held by name) belong to TRANSFORM effects; `members` to META strips. */
  datatype Strip = Strip(
    name: string,
    kind: Kind,
    channel: int,
    start: int,
    end: int,
    contentStart: int,
    filepath: string,
    volume: real,
    rotation: real,
    offsetX: int,
    offsetY: int,
    input: Option<string>,
    members: seq<string>)

  /** A strip as the host creates it, before any field is assigned. */
  function Created(name: string, kind: Kind, channel: int, start: int, end: int, filepath: string): Strip {
    Strip(name, kind, channel, start, end, start, filepath, 1.0, 0.0, 0, 0, None, [])
  }

  /** `p` is a copy of `orig` apart from its name and its range. */
  predicate FragmentOf(p: Strip, orig: Strip) {
    p.(name := orig.name, start := orig.start, end := orig.end) == orig
  }

  /** Frame `f` lies within strip `x`. */
  predicate Covers(x: Strip, f: int) {
    x.start <= f < x.end
  }

  function Names(s: seq<Strip>): set<string> {
    set j | 0 <= j < |s| :: s[j].name
  }

  /** The host keeps strip names unique across the whole collection. */
  predicate UniqueNames(s: seq<Strip>) {
    forall j, k :: 0 <= j < k < |s| ==> s[j].name != s[k].name
  }

  /** `sequences_all.get(name)`: the index of the first strip called `name`. */
  function Find(s: seq<Strip>, name: string): (r: Option<nat>)
    ensures r.Some? ==> r.value < |s| && s[r.value].name == name
    ensures r.Some? ==> forall j :: 0 <= j < r.value ==> s[j].name != name
    ensures r.None? ==> forall j :: 0 <= j < |s| ==> s[j].name != name
  {
    if s == [] then None
    else if s[0].name == name then Some(0)
    else match Find(s[1..], name)
      case None => None
      case Some(k) => Some(k + 1)
  }

  lemma FindIs(s: seq<Strip>, name: string, k: nat)
    requires k < |s| && s[k].name == name
    requires forall j :: 0 <= j < k ==> s[j].name != name
    ensures Find(s, name) == Some(k)
  {
  }

  lemma FindUnique(s: seq<Strip>, k: nat)
    requires UniqueNames(s) && k < |s|
    ensures Find(s, s[k].name) == Some(k)
  {
    FindIs(s, s[k].name, k);
  }

  lemma FindAbsent(s: seq<Strip>, name: string)
    requires name !in Names(s)
    ensures Find(s, name) == None
  {
  }

  /** `sequences_all.get(name)` finds a strip exactly when one carries the name. */
  lemma FindIffNamed(s: seq<Strip>, name: string)
    ensures Find(s, name).Some? <==> name in Names(s)
  {
    if Find(s, name).Some? {
      assert s[Find(s, name).value].name == name;
    }
  }

  /** The length of the longest strip name. */
  function MaxNameLength(s: seq<Strip>): (m: nat)
    ensures forall j :: 0 <= j < |s| ==> |s[j].name| <= m
  {
    if s == [] then 0
    else
      var m := MaxNameLength(s[1..]);
      if |s[0].name| > m then |s[0].name| else m
  }

  /** The name of the k-th duplicate of `base`: "clip" gives "clip.001". */
  function Suffixed(base: string, k: nat): string {
    base + ".00" + Digits(k)
  }

  /** A suffix no strip can be using: its name is longer than every name. */
  function Bound(s: seq<Strip>): nat {
    Pow10(MaxNameLength(s))
  }

  lemma {:induction false} BoundIsFree(s: seq<Strip>, base: string)
    ensures Suffixed(base, Bound(s)) !in Names(s)
  {
    DigitsOfPow10(MaxNameLength(s));
    forall j | 0 <= j < |s|
      ensures s[j].name != Suffixed(base, Bound(s))
    {
      assert |Suffixed(base, Bound(s))| > MaxNameLength(s);
    }
  }

  /** The smallest suffix number from `k` on whose name is unused. */
  function FirstFree(s: seq<Strip>, base: string, k: nat): (r: nat)
    requires k <= Bound(s)
    ensures k <= r && Suffixed(base, r) !in Names(s)
    ensures forall j :: k <= j < r ==> Suffixed(base, j) in Names(s)
    decreases Bound(s) - k
  {
    if Suffixed(base, k) !in Names(s) then k
    else
      BoundIsFree(s, base);
      FirstFree(s, base, k + 1)
  }

  /** The name the host gives a new duplicate of `base`. */
  function FreshName(s: seq<Strip>, base: string): (r: string)
    ensures StartsWith(r, base + ".00") && |r| > |base + ".00"|
    ensures r !in Names(s)
  {
    var r := Suffixed(base, FirstFree(s, base, 1));
    assert r[..|base + ".00"|] == base + ".00";
    r
  }

  /** The name the host actually assigns when asked for `n`. */
  function UniqueName(s: seq<Strip>, n: string): (r: string)
    ensures r !in Names(s)
    ensures n !in Names(s) ==> r == n
  {
    if n !in Names(s) then n else FreshName(s, n)
  }

  /** The host's soft split of strip `i` at frame `f`: when `f` lies strictly
      inside, the strip keeps its name and becomes [start, f), and a copy
      holding [f, end) under a fresh ".00k" name is appended; otherwise
      nothing happens. */
  function SplitAt(s: seq<Strip>, i: nat, f: int): (r: seq<Strip>)
    requires i < |s|
    ensures |s| <= |r| <= |s| + 1
    ensures UniqueNames(s) ==> UniqueNames(r)
  {
    if s[i].start < f < s[i].end then
      var r := s[i := s[i].(end := f)] + [s[i].(name := FreshName(s, s[i].name), start := f)];
      assert forall j :: 0 <= j < |s| ==> r[j].name == s[j].name;
      assert forall j :: 0 <= j < |s| ==> r[|s|].name != s[j].name;
      r
    else s
  }

  /** Deleting strip `i`. */
  function RemoveAt(s: seq<Strip>, i: nat): (r: seq<Strip>)
    requires i < |s|
    ensures |r| == |s| - 1
    ensures UniqueNames(s) ==> UniqueNames(r)
    ensures Names(r) <= Names(s)
  {
    var r := s[..i] + s[i + 1..];
    assert forall j :: 0 <= j < |r| ==> r[j] == s[if j < i then j else j + 1];
    r
  }

  /** Assigning `name` to strip `i`; the host makes the name unique among the
      other strips. */
  function RenameAt(s: seq<Strip>, i: nat, n: string): (r: seq<Strip>)
    requires i < |s|
    ensures |r| == |s|
    ensures UniqueNames(s) ==> UniqueNames(r)
  {
    var others := RemoveAt(s, i);
    var r := s[i := s[i].(name := UniqueName(others, n))];
    assert forall j :: 0 <= j < |s| && j != i ==> s[j].name in Names(others) by {
      forall j | 0 <= j < |s| && j != i ensures s[j].name in Names(others) {
        assert others[if j < i then j else j - 1] == s[j];
      }
    }
    r
  }

  /** Adding a strip (`new_movie`, `new_sound`, `new_image`, `new_effect`,
      `sound_strip_add`): it goes last, under a unique version of its name. */
  function Append(s: seq<Strip>, x: Strip): (r: seq<Strip>)
    ensures |r| == |s| + 1
    ensures UniqueNames(s) ==> UniqueNames(r)
  {
    s + [x.(name := UniqueName(s, x.name))]
  }

  lemma RemoveAtNames(s: seq<Strip>, k: nat)
    requires k < |s|
    ensures UniqueNames(s) ==> Names(RemoveAt(s, k)) == Names(s) - {s[k].name}
  {
    var r := RemoveAt(s, k);
    assert forall j :: 0 <= j < |s| && j != k ==> r[if j < k then j else j - 1] == s[j];
  }

  /** Deleting the strip called `n` if there is one
      (`s = seqs.get(n); if s: delete(s)`). */
  function DeleteOne(s: seq<Strip>, n: string): (r: seq<Strip>)
    ensures UniqueNames(s) ==> UniqueNames(r) && Names(r) == Names(s) - {n}
    ensures n !in Names(s) ==> r == s
    ensures n in Names(s) ==> |r| == |s| - 1
  {
    match Find(s, n)
    case None => s
    case Some(k) =>
      RemoveAtNames(s, k);
      RemoveAt(s, k)
  }

  /** Deleting strip `k` shifts the later strips down by one and changes no
      strip; with unique names, the strips left are exactly those with
      another name. */
  lemma RemoveAtKeeps(s: seq<Strip>, k: nat)
    requires k < |s|
    ensures forall j :: 0 <= j < |RemoveAt(s, k)| ==> RemoveAt(s, k)[j] == s[if j < k then j else j + 1]
    ensures UniqueNames(s) ==> forall x :: x in RemoveAt(s, k) <==> x in s && x.name != s[k].name
  {
    var r := RemoveAt(s, k);
    assert r == s[..k] + s[k + 1..];
    if UniqueNames(s) {
      forall x | x in s && x.name != s[k].name ensures x in r {
        var m :| 0 <= m < |s| && s[m] == x;
        assert r[if m < k then m else m - 1] == x;
      }
    }
  }

  /** Deleting by name removes the first strip with that name and keeps every
      other strip, with its fields and in its order; with unique names, the
      strips left are exactly those with another name. */
  lemma DeleteOneKeeps(s: seq<Strip>, n: string)
    ensures Find(s, n).Some? ==> |DeleteOne(s, n)| == |s| - 1
    ensures Find(s, n).Some? ==>
      forall j :: 0 <= j < |DeleteOne(s, n)| ==> DeleteOne(s, n)[j] == s[if j < Find(s, n).value then j else j + 1]
    ensures UniqueNames(s) ==> forall x :: x in DeleteOne(s, n) <==> x in s && x.name != n
  {
    match Find(s, n)
    case None =>
    case Some(k) => RemoveAtKeeps(s, k);
  }

  /** Setting the end of a strip just added is adding it with that end. */
  lemma AppendThenSetEnd(s: seq<Strip>, x: Strip, e: int)
    ensures Append(s, x)[|s| := Append(s, x)[|s|].(end := e)] == Append(s, x.(end := e))
  {
  }

  /** Setting the rotation of a strip just added is adding it with that rotation. */
  lemma AppendThenSetRotation(s: seq<Strip>, x: Strip, deg: real)
    ensures Append(s, x)[|s| := Append(s, x)[|s|].(rotation := deg)] == Append(s, x.(rotation := deg))
  {
  }

  /** Setting the offset of a strip just added is adding it with that offset. */
  lemma AppendThenSetOffset(s: seq<Strip>, x: Strip, dx: int, dy: int)
    ensures Append(s, x)[|s| := Append(s, x)[|s|].(offsetX := dx, offsetY := dy)] == Append(s, x.(offsetX := dx, offsetY := dy))
  {
  }

  /** Renaming the last strip. */
  lemma RenameLast(u: seq<Strip>, x: Strip, n: string)
    ensures RenameAt(u + [x], |u|, n) == u + [x.(name := UniqueName(u, n))]
  {
    assert RemoveAt(u + [x], |u|) == u;
  }

  /** The host's strip collection, updated in place. */
  class Timeline {
    var strips: seq<Strip>

    ghost predicate Valid()
      reads this
    {
      UniqueNames(strips)
    }

    constructor ()
      ensures Valid() && strips == []
    {
      strips := [];
    }

    /** `sequences_all.get(name)`. */
    method Get(name: string) returns (r: Option<nat>)
      ensures r == Find(strips, name)
    {
      var i := 0;
      while i < |strips|
        invariant 0 <= i <= |strips|
        invariant forall j :: 0 <= j < i ==> strips[j].name != name
      {
        if strips[i].name == name {
          FindIs(strips, name, i);
          return Some(i);
        }
        i := i + 1;
      }
      return None;
    }

    /** `bpy.ops.sequencer.split` with only strip `i` selected. */
    method Split(i: nat, f: int)
      requires Valid() && i < |strips|
      modifies this
      ensures Valid() && strips == SplitAt(old(strips), i, f)
    {
      strips := SplitAt(strips, i, f);
    }

    /** `bpy.ops.sequencer.delete` with only strip `i` selected. */
    method Delete(i: nat)
      requires Valid() && i < |strips|
      modifies this
      ensures Valid() && strips == RemoveAt(old(strips), i)
    {
      strips := RemoveAt(strips, i);
    }

    /** `strip.name = n`. */
    method Rename(i: nat, n: string)
      requires Valid() && i < |strips|
      modifies this
      ensures Valid() && strips == RenameAt(old(strips), i, n)
    {
      strips := RenameAt(strips, i, n);
    }

    /** A host call that creates strip `x`; returns the index of the new strip. */
    method Add(x: Strip) returns (k: nat)
      requires Valid()
      modifies this
      ensures Valid() && strips == Append(old(strips), x)
      ensures k == |old(strips)|
    {
      k := |strips|;
      strips := Append(strips, x);
    }

    /** `strip.frame_final_end = e`. */
    method SetEnd(i: nat, e: int)
      requires Valid() && i < |strips|
      modifies this
      ensures Valid() && strips == old(strips)[i := old(strips)[i].(end := e)]
    {
      strips := strips[i := strips[i].(end := e)];
      assert forall j :: 0 <= j < |strips| ==> strips[j].name == old(strips)[j].name;
    }

    /** `strip.volume = v`. */
    method SetVolume(i: nat, v: real)
      requires Valid() && i < |strips|
      modifies this
      ensures Valid() && strips == old(strips)[i := old(strips)[i].(volume := v)]
    {
      strips := strips[i := strips[i].(volume := v)];
      assert forall j :: 0 <= j < |strips| ==> strips[j].name == old(strips)[j].name;
    }

    /** `trans.rotation_start = deg`. */
    method SetRotation(i: nat, deg: real)
      requires Valid() && i < |strips|
      modifies this
      ensures Valid() && strips == old(strips)[i := old(strips)[i].(rotation := deg)]
    {
      strips := strips[i := strips[i].(rotation := deg)];
      assert forall j :: 0 <= j < |strips| ==> strips[j].name == old(strips)[j].name;
    }

    /** `trans.translate_start_x = x` and `trans.translate_start_y = y`. */
    method SetOffset(i: nat, x: int, y: int)
      requires Valid() && i < |strips|
      modifies this
      ensures Valid() && strips == old(strips)[i := old(strips)[i].(offsetX := x, offsetY := y)]
    {
      strips := strips[i := strips[i].(offsetX := x, offsetY := y)];
      assert forall j :: 0 <= j < |strips| ==> strips[j].name == old(strips)[j].name;
    }

    /** `select_all(action='SELECT')` followed by `delete()`. */
    method Clear()
      modifies this
      ensures Valid() && strips == []
    {
      strips := [];
    }
  }
}
