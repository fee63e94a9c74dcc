/** Cut (`cut_video_strip` / `cut_audio_strip`): keep only [start_frame,
    end_frame) of a strip. The strip is split at the end frame, then at the
    start frame; the fragments are then identified by the name prefix
    "<name>.00" and a frame test, the unwanted ones are deleted by name, and
    the middle one is renamed "<name>_cut". The five copies of this code are
    modelled once; `anySecondPart` selects the variant whose fragment after
    the end frame is taken with no frame test. */
module Cutting {
  import opened Wrappers
  import opened Text
  import opened Host

  /** The frame test that accompanies the name-prefix test in each search. */
  datatype FrameTest =
    | StartsAfter(f: int)   // frame_final_start > f
    | StartsFrom(f: int)    // frame_final_start >= f
    | EndsBy(f: int)        // frame_final_end <= f
    | AnyFrame              // no frame test

  predicate Passes(x: Strip, test: FrameTest) {
    match test
    case StartsAfter(f) => x.start > f
    case StartsFrom(f) => x.start >= f
    case EndsBy(f) => x.end <= f
    case AnyFrame => true
  }

  predicate IsFragment(x: Strip, p: string, test: FrameTest) {
    StartsWith(x.name, p) && Passes(x, test)
  }

  /** `next((s for s in seqs if s.name.startswith(p) and test(s)), None)`. */
  function FirstFragment(s: seq<Strip>, p: string, test: FrameTest): (r: Option<nat>)
    ensures r.Some? ==> r.value < |s| && IsFragment(s[r.value], p, test)
    ensures r.Some? ==> forall j :: 0 <= j < r.value ==> !IsFragment(s[j], p, test)
    ensures r.None? ==> forall j :: 0 <= j < |s| ==> !IsFragment(s[j], p, test)
  {
    if s == [] then None
    else if IsFragment(s[0], p, test) then Some(0)
    else match FirstFragment(s[1..], p, test)
      case None => None
      case Some(k) => Some(k + 1)
  }

  lemma FirstFragmentIs(s: seq<Strip>, p: string, test: FrameTest, k: nat)
    requires k < |s| && IsFragment(s[k], p, test)
    requires forall j :: 0 <= j < k ==> !IsFragment(s[j], p, test)
    ensures FirstFragment(s, p, test) == Some(k)
  {
  }

  /** The name of the strip a search found, if it found one. */
  function NameAt(s: seq<Strip>, r: Option<nat>): (n: Option<string>)
    requires r.Some? ==> r.value < |s|
  {
    match r
    case None => None
    case Some(k) => Some(s[k].name)
  }

  /** The `to_delete` list: the first two names when present, the third
      only when it is not listed already. */
  function ToDelete(beforeStart: Option<string>, afterEnd: Option<string>, afterMiddle: Option<string>): (r: seq<string>)
    ensures forall x :: x in r <==> beforeStart == Some(x) || afterEnd == Some(x) || afterMiddle == Some(x)
  {
    var first := (if beforeStart.Some? then [beforeStart.value] else [])
      + (if afterEnd.Some? then [afterEnd.value] else []);
    if afterMiddle.Some? && afterMiddle.value !in first then first + [afterMiddle.value] else first
  }

  /** The list when the strip and its right fragment are both found. */
  lemma ToDeleteStripAndRight(name: string, n1: string, anySecondPart: bool)
    requires n1 != name
    ensures ToDelete(Some(name), if anySecondPart then Some(n1) else None, Some(n1)) == [name, n1]
  {
  }

  lemma ToDeleteStripOnly(name: string)
    ensures ToDelete(Some(name), None, None) == [name]
  {
  }

  predicate NoDuplicates(names: seq<string>) {
    forall j, k :: 0 <= j < k < |names| ==> names[j] != names[k]
  }

  /** No name is listed twice, as long as the first two differ. */
  lemma ToDeleteDistinct(beforeStart: Option<string>, afterEnd: Option<string>, afterMiddle: Option<string>)
    requires beforeStart.Some? && afterEnd.Some? ==> beforeStart.value != afterEnd.value
    ensures NoDuplicates(ToDelete(beforeStart, afterEnd, afterMiddle))
  {
  }

  /** A cut never lists a name twice for deletion: the strip's own name
      cannot also be a "<name>.00" fragment's. */
  lemma PlanNoDuplicates(s: seq<Strip>, i: nat, name: string, a: int, b: int, anySecondPart: bool)
    requires i < |s|
    ensures NoDuplicates(PlanCut(s, i, name, a, b, anySecondPart).toDelete)
  {
    var s1 := SplitAt(s, i, b);
    var s2 := SplitAt(s1, i, a);
    var afterEnd := FirstFragment(s1, name + ".00", if anySecondPart then AnyFrame else StartsAfter(b));
    var beforeStart := NameAt(s2, Find(s2, name));
    if afterEnd.Some? && beforeStart.Some? {
      assert StartsWith(s1[afterEnd.value].name, name + ".00");
      assert beforeStart.value == name;
    }
    ToDeleteDistinct(beforeStart, NameAt(s1, afterEnd), NameAt(s2, FirstFragment(s2, name + ".00", StartsFrom(b))));
  }

  /** `for name in to_delete: ...` deleting each name still present. */
  function DeleteNamed(s: seq<Strip>, names: seq<string>): (r: seq<Strip>)
    ensures UniqueNames(s) ==> UniqueNames(r) && Names(r) == Names(s) - (set x | x in names)
  {
    if names == [] then s
    else DeleteNamed(DeleteOne(s, names[0]), names[1..])
  }

  /** With unique names, the deletions keep exactly the strips whose name is
      not listed, each unchanged. */
  lemma {:induction false} DeleteNamedKeeps(s: seq<Strip>, names: seq<string>)
    requires UniqueNames(s)
    ensures forall x :: x in DeleteNamed(s, names) <==> x in s && x.name !in names
    decreases |names|
  {
    if names != [] {
      var d, rest := DeleteOne(s, names[0]), names[1..];
      DeleteOneKeeps(s, names[0]);
      DeleteNamedKeeps(d, rest);
      forall x
        ensures x in DeleteNamed(s, names) <==> x in s && x.name !in names
      {
        assert x.name in names <==> x.name == names[0] || x.name in rest;
      }
    }
  }

  /** What a cut has found after its two splits: the strips, the names to
      delete and the name of the middle fragment. */
  datatype Plan = Plan(strips: seq<Strip>, toDelete: seq<string>, middle: Option<string>)

  /** The two splits and the four searches, for strip `i` called `name`. */
  function PlanCut(s: seq<Strip>, i: nat, name: string, a: int, b: int, anySecondPart: bool): Plan
    requires i < |s|
  {
    var p := name + ".00";
    var s1 := SplitAt(s, i, b);
    var afterEnd := FirstFragment(s1, p, if anySecondPart then AnyFrame else StartsAfter(b));
    var s2 := SplitAt(s1, i, a);
    var beforeStart := Find(s2, name);
    var middle := FirstFragment(s2, p, EndsBy(b));
    var afterMiddle := FirstFragment(s2, p, StartsFrom(b));
    Plan(s2, ToDelete(NameAt(s2, beforeStart), NameAt(s1, afterEnd), NameAt(s2, afterMiddle)), NameAt(s2, middle))
  }

  /** The state a cut leaves and what it returns or raises. */
  datatype Outcome = Outcome(strips: seq<Strip>, result: Result<string>)

  /** The deletions, then the rename of the middle fragment, which Python
      still holds by reference: raising when there is none, and failing when
      the deletions removed it. */
  function Finish(plan: Plan, name: string): Outcome {
    var s3 := DeleteNamed(plan.strips, plan.toDelete);
    match plan.middle
    case None => Outcome(s3, Err(RuntimeError))
    case Some(m) =>
      match Find(s3, m)
      case None => Outcome(s3, Err(ReferenceError))
      case Some(k) => Outcome(RenameAt(s3, k, name + "_cut"), Ok(name + "_cut"))
  }

  /** The whole cut of the strip called `name` to [a, b). */
  function CutSpec(s: seq<Strip>, name: string, a: int, b: int, anySecondPart: bool): Outcome {
    match Find(s, name)
    case None => Outcome(s, Err(ValueError))
    case Some(i) => Finish(PlanCut(s, i, name, a, b, anySecondPart), name)
  }

  /** A search over the collection, as the generator expression runs it. */
  method NextFragment(t: Timeline, p: string, test: FrameTest) returns (r: Option<nat>)
    ensures r == FirstFragment(t.strips, p, test)
  {
    var j := 0;
    while j < |t.strips|
      invariant 0 <= j <= |t.strips|
      invariant forall k :: 0 <= k < j ==> !IsFragment(t.strips[k], p, test)
    {
      if StartsWith(t.strips[j].name, p) && Passes(t.strips[j], test) {
        FirstFragmentIs(t.strips, p, test, j);
        return Some(j);
      }
      j := j + 1;
    }
    return None;
  }

  /** The two splits and the four searches, on the timeline. */
  method PlanOnTimeline(t: Timeline, i: nat, name: string, a: int, b: int, anySecondPart: bool)
    returns (toDelete: seq<string>, middleName: Option<string>)
    requires t.Valid() && i < |t.strips|
    modifies t
    ensures t.Valid()
    ensures Plan(t.strips, toDelete, middleName) == PlanCut(old(t.strips), i, name, a, b, anySecondPart)
  {
    var p := name + ".00";
    t.Split(i, b);
    var afterEnd := NextFragment(t, p, if anySecondPart then AnyFrame else StartsAfter(b));
    var afterEndName := NameAt(t.strips, afterEnd);
    t.Split(i, a);
    var beforeStart := t.Get(name);
    var middle := NextFragment(t, p, EndsBy(b));
    var afterMiddle := NextFragment(t, p, StartsFrom(b));
    toDelete := ToDelete(NameAt(t.strips, beforeStart), afterEndName, NameAt(t.strips, afterMiddle));
    middleName := NameAt(t.strips, middle);
  }

  /** `for name in to_delete: ...`, on the timeline. */
  method DeleteAll(t: Timeline, toDelete: seq<string>)
    requires t.Valid()
    modifies t
    ensures t.Valid() && t.strips == DeleteNamed(old(t.strips), toDelete)
  {
    ghost var target := DeleteNamed(t.strips, toDelete);
    var k := 0;
    while k < |toDelete|
      invariant 0 <= k <= |toDelete|
      invariant t.Valid()
      invariant DeleteNamed(t.strips, toDelete[k..]) == target
    {
      DeleteNamedFirst(t.strips, toDelete, k);
      var s := t.Get(toDelete[k]);
      if s.Some? {
        t.Delete(s.value);
      }
      k := k + 1;
    }
    assert toDelete[k..] == [];
  }

  lemma DeleteNamedFirst(s: seq<Strip>, names: seq<string>, k: nat)
    requires k < |names|
    ensures DeleteNamed(s, names[k..]) == DeleteNamed(DeleteOne(s, names[k]), names[k + 1..])
  {
    assert names[k..][1..] == names[k + 1..];
  }

  /** `cut_video_strip` / `cut_audio_strip` over frame numbers. */
  method CutStrip(t: Timeline, name: string, a: int, b: int, anySecondPart: bool) returns (r: Result<string>)
    requires t.Valid()
    modifies t
    ensures t.Valid()
    ensures t.strips == CutSpec(old(t.strips), name, a, b, anySecondPart).strips
    ensures r == CutSpec(old(t.strips), name, a, b, anySecondPart).result
  {
    var found := t.Get(name);
    if found.None? {
      return Err(ValueError);
    }
    var toDelete, middleName := PlanOnTimeline(t, found.value, name, a, b, anySecondPart);
    DeleteAll(t, toDelete);
    if middleName.None? {
      return Err(RuntimeError);
    }
    var m := t.Get(middleName.value);
    if m.None? {
      return Err(ReferenceError);
    }
    t.Rename(m.value, name + "_cut");
    return Ok(name + "_cut");
  }

  /** No strip already carries a name of the form "<name>.00...". */
  predicate FreshBase(s: seq<Strip>, name: string) {
    forall j :: 0 <= j < |s| ==> !StartsWith(s[j].name, name + ".00")
  }

  /** The strips after both splits of a cut whose frames lie strictly inside
      strip `i`: the strip keeps [start, a), then come [b, end) and [a, b)
      under the two fresh names. */
  function InteriorSplits(s: seq<Strip>, i: nat, a: int, b: int): seq<Strip>
    requires i < |s|
  {
    var x1 := s[i].(name := FreshName(s, s[i].name), start := b);
    var s1 := s[i := s[i].(end := b)] + [x1];
    var x2 := s[i].(name := FreshName(s1, s[i].name), start := a, end := b);
    s[i := s[i].(end := a)] + [x1, x2]
  }

  lemma InteriorSplitsAre(s: seq<Strip>, i: nat, a: int, b: int)
    requires i < |s| && s[i].start < a < b < s[i].end
    ensures SplitAt(SplitAt(s, i, b), i, a) == InteriorSplits(s, i, a, b)
  {
    var s1 := SplitAt(s, i, b);
    assert s1[i] == s[i].(end := b);
    assert s1[i := s1[i].(end := a)] == s[i := s[i].(end := a)] + [s1[|s|]];
  }

  /** What the four searches find after an interior double split: the strip
      itself before the start, no `after_end` under the strict test (the
      right fragment starts exactly at the end frame), the right fragment as
      `after_middle` (and as `second_part` in the variant), and the new
      [a, b) fragment as the middle. */
  lemma InteriorSearches(s: seq<Strip>, i: nat, name: string, a: int, b: int)
    requires UniqueNames(s) && i < |s| && s[i].name == name && FreshBase(s, name)
    requires s[i].start < a < b < s[i].end
    ensures var s1 := SplitAt(s, i, b);
      var s2 := InteriorSplits(s, i, a, b);
      && FirstFragment(s1, name + ".00", StartsAfter(b)) == None
      && FirstFragment(s1, name + ".00", AnyFrame) == Some(|s|)
      && Find(s2, name) == Some(i)
      && FirstFragment(s2, name + ".00", EndsBy(b)) == Some(|s| + 1)
      && FirstFragment(s2, name + ".00", StartsFrom(b)) == Some(|s|)
  {
    InteriorSearchesFirst(s, i, name, b);
    InteriorSearchesSecond(s, i, name, a, b);
  }

  /** The searches after the split at the end frame. */
  lemma InteriorSearchesFirst(s: seq<Strip>, i: nat, name: string, b: int)
    requires i < |s| && s[i].name == name && FreshBase(s, name)
    requires s[i].start < b < s[i].end
    ensures var s1 := SplitAt(s, i, b);
      && FirstFragment(s1, name + ".00", StartsAfter(b)) == None
      && FirstFragment(s1, name + ".00", AnyFrame) == Some(|s|)
  {
    var s1 := SplitAt(s, i, b);
    assert forall j :: 0 <= j < |s| ==> s1[j].name == s[j].name;
    FirstFragmentIs(s1, name + ".00", AnyFrame, |s|);
  }

  /** The searches after the split at the start frame. */
  lemma InteriorSearchesSecond(s: seq<Strip>, i: nat, name: string, a: int, b: int)
    requires UniqueNames(s) && i < |s| && s[i].name == name && FreshBase(s, name)
    requires s[i].start < a < b < s[i].end
    ensures var s2 := InteriorSplits(s, i, a, b);
      && Find(s2, name) == Some(i)
      && FirstFragment(s2, name + ".00", EndsBy(b)) == Some(|s| + 1)
      && FirstFragment(s2, name + ".00", StartsFrom(b)) == Some(|s|)
  {
    var s2 := InteriorSplits(s, i, a, b);
    InteriorSplitsShape(s, i, a, b);
    FirstFragmentIs(s2, name + ".00", EndsBy(b), |s| + 1);
    FirstFragmentIs(s2, name + ".00", StartsFrom(b), |s|);
    FindIs(s2, name, i);
  }

  /** The strips after an interior double split, field by field. */
  lemma InteriorSplitsShape(s: seq<Strip>, i: nat, a: int, b: int)
    requires UniqueNames(s) && i < |s|
    requires s[i].start < a < b < s[i].end
    ensures var s2 := InteriorSplits(s, i, a, b);
      && |s2| == |s| + 2
      && (forall j :: 0 <= j < |s| ==> s2[j].name == s[j].name)
      && StartsWith(s2[|s|].name, s[i].name + ".00") && s2[|s|].start == b && s2[|s|].end == s[i].end
      && StartsWith(s2[|s| + 1].name, s[i].name + ".00") && s2[|s| + 1].start == a && s2[|s| + 1].end == b
  {
  }

  lemma RemoveAtAppend(u: seq<Strip>, v: seq<Strip>, i: nat)
    requires i < |u|
    ensures RemoveAt(u + v, i) == RemoveAt(u, i) + v
  {
  }

  lemma RemoveAtUpdate(s: seq<Strip>, i: nat, x: Strip)
    requires i < |s|
    ensures RemoveAt(s[i := x], i) == RemoveAt(s, i)
  {
  }

  lemma RemoveAtNext(u: seq<Strip>, x: Strip, y: Strip)
    ensures RemoveAt(u + [x, y], |u|) == u + [y]
  {
  }

  lemma DeleteTwo(s: seq<Strip>, n1: string, n2: string)
    ensures DeleteNamed(s, [n1, n2]) == DeleteOne(DeleteOne(s, n1), n2)
  {
    assert [n1, n2][1..] == [n2];
    assert [n2][1..] == [];
    var d := DeleteOne(s, n1);
    assert DeleteNamed(s, [n1, n2]) == DeleteNamed(d, [n2]);
    assert DeleteNamed(d, [n2]) == DeleteNamed(DeleteOne(d, n2), []);
  }

  /** The deletions of an interior cut remove the strip and the right
      fragment and keep the middle one, which the rename then reaches. */
  lemma InteriorFinish(s: seq<Strip>, i: nat, name: string, a: int, b: int)
    requires UniqueNames(s) && i < |s| && s[i].name == name
    requires name + "_cut" !in Names(s)
    requires s[i].start < a < b < s[i].end
    ensures var s2 := InteriorSplits(s, i, a, b);
      Finish(Plan(s2, [name, s2[|s|].name], Some(s2[|s| + 1].name)), name) ==
      Outcome(RemoveAt(s, i) + [s[i].(name := name + "_cut", start := a, end := b)], Ok(name + "_cut"))
  {
    var s2 := InteriorSplits(s, i, a, b);
    var x1 := s2[|s|];
    var x2 := s2[|s| + 1];
    var u := RemoveAt(s, i);
    InteriorSplitsAre(s, i, a, b);
    assert UniqueNames(s2);
    FindUnique(s2, i);
    var d1 := RemoveAt(s2, i);
    assert s2 == s[i := s[i].(end := a)] + [x1, x2];
    RemoveAtAppend(s[i := s[i].(end := a)], [x1, x2], i);
    RemoveAtUpdate(s, i, s[i].(end := a));
    assert d1 == u + [x1, x2];
    assert DeleteOne(s2, name) == d1;
    FindUnique(d1, |u|);
    RemoveAtNext(u, x1, x2);
    var d2 := u + [x2];
    assert DeleteOne(d1, x1.name) == d2;
    DeleteTwo(s2, name, x1.name);
    FindUnique(d2, |u|);
    RenameLast(u, x2, name + "_cut");
    assert UniqueName(u, name + "_cut") == name + "_cut";
  }

  /** A cut whose frames lie strictly inside the strip leaves exactly one
      fragment in its place, named "<name>_cut" and spanning [a, b), keeps
      every other strip, and returns that name; in both variants. */
  lemma {:induction false} CutInterior(s: seq<Strip>, i: nat, name: string, a: int, b: int, anySecondPart: bool)
    requires UniqueNames(s) && i < |s| && s[i].name == name && FreshBase(s, name)
    requires name + "_cut" !in Names(s)
    requires s[i].start < a < b < s[i].end
    ensures CutSpec(s, name, a, b, anySecondPart) ==
      Outcome(RemoveAt(s, i) + [s[i].(name := name + "_cut", start := a, end := b)], Ok(name + "_cut"))
  {
    FindUnique(s, i);
    InteriorPlan(s, i, name, a, b, anySecondPart);
    InteriorFinish(s, i, name, a, b);
  }

  /** The plan of an interior cut: delete the strip and the right fragment,
      keep the new [a, b) fragment. */
  lemma InteriorPlan(s: seq<Strip>, i: nat, name: string, a: int, b: int, anySecondPart: bool)
    requires UniqueNames(s) && i < |s| && s[i].name == name && FreshBase(s, name)
    requires s[i].start < a < b < s[i].end
    ensures var s2 := InteriorSplits(s, i, a, b);
      PlanCut(s, i, name, a, b, anySecondPart) == Plan(s2, [name, s2[|s|].name], Some(s2[|s| + 1].name))
  {
    InteriorSearches(s, i, name, a, b);
    InteriorSplitsAre(s, i, a, b);
    var s1 := SplitAt(s, i, b);
    var s2 := InteriorSplits(s, i, a, b);
    assert s1[|s|] == s2[|s|];
    var n1 := s2[|s|].name;
    assert StartsWith(n1, name + ".00");
    assert n1 != name;
    ToDeleteStripAndRight(name, n1, anySecondPart);
  }

  lemma RemoveAtLast(u: seq<Strip>, x: Strip)
    ensures RemoveAt(u + [x], |u|) == u
  {
  }

  /** What the searches find when the start frame is at or before the
      strip's first frame: the split there does nothing, so no ".00"
      fragment ends by the end frame. */
  lemma AtStripStartSearches(s: seq<Strip>, i: nat, name: string, a: int, b: int)
    requires UniqueNames(s) && i < |s| && s[i].name == name && FreshBase(s, name)
    requires a <= s[i].start < b < s[i].end
    ensures var s1 := SplitAt(s, i, b);
      && SplitAt(s1, i, a) == s1
      && FirstFragment(s1, name + ".00", StartsAfter(b)) == None
      && FirstFragment(s1, name + ".00", AnyFrame) == Some(|s|)
      && Find(s1, name) == Some(i)
      && FirstFragment(s1, name + ".00", EndsBy(b)) == None
      && FirstFragment(s1, name + ".00", StartsFrom(b)) == Some(|s|)
  {
    InteriorSearchesFirst(s, i, name, b);
    AtStripStartSecond(s, i, name, a, b);
  }

  /** The searches after the split at the start frame, which did nothing. */
  lemma AtStripStartSecond(s: seq<Strip>, i: nat, name: string, a: int, b: int)
    requires UniqueNames(s) && i < |s| && s[i].name == name && FreshBase(s, name)
    requires a <= s[i].start < b < s[i].end
    ensures var s1 := SplitAt(s, i, b);
      && SplitAt(s1, i, a) == s1
      && Find(s1, name) == Some(i)
      && FirstFragment(s1, name + ".00", EndsBy(b)) == None
      && FirstFragment(s1, name + ".00", StartsFrom(b)) == Some(|s|)
  {
    var s1 := SplitAt(s, i, b);
    assert forall j :: 0 <= j < |s| ==> s1[j].name == s[j].name;
    FirstFragmentIs(s1, name + ".00", StartsFrom(b), |s|);
    FindUnique(s1, i);
  }

  lemma AtStripStartPlan(s: seq<Strip>, i: nat, name: string, a: int, b: int, anySecondPart: bool)
    requires UniqueNames(s) && i < |s| && s[i].name == name && FreshBase(s, name)
    requires a <= s[i].start < b < s[i].end
    ensures var s1 := SplitAt(s, i, b);
      PlanCut(s, i, name, a, b, anySecondPart) == Plan(s1, [name, s1[|s|].name], None)
  {
    var s1 := SplitAt(s, i, b);
    var n1 := s1[|s|].name;
    AtStripStartSearches(s, i, name, a, b);
    assert StartsWith(n1, name + ".00") && n1 != name;
    ToDeleteStripAndRight(name, n1, anySecondPart);
  }

  /** A start frame at or before the strip's first frame: the strip (which
      holds the wanted [start, b)) and the right fragment are both deleted,
      and only then is RuntimeError raised: the strip is gone. */
  lemma {:induction false} CutAtStripStart(s: seq<Strip>, i: nat, name: string, a: int, b: int, anySecondPart: bool)
    requires UniqueNames(s) && i < |s| && s[i].name == name && FreshBase(s, name)
    requires a <= s[i].start < b < s[i].end
    ensures CutSpec(s, name, a, b, anySecondPart) == Outcome(RemoveAt(s, i), Err(RuntimeError))
  {
    FindUnique(s, i);
    AtStripStartPlan(s, i, name, a, b, anySecondPart);
    var s1 := SplitAt(s, i, b);
    var x1 := s1[|s|];
    var u := RemoveAt(s, i);
    assert s1 == s[i := s[i].(end := b)] + [x1];
    FindUnique(s1, i);
    RemoveAtAppend(s[i := s[i].(end := b)], [x1], i);
    RemoveAtUpdate(s, i, s[i].(end := b));
    var d1 := u + [x1];
    assert DeleteOne(s1, name) == d1;
    FindUnique(d1, |u|);
    RemoveAtLast(u, x1);
    assert DeleteOne(d1, x1.name) == u;
    DeleteTwo(s1, name, x1.name);
  }

  /** An end frame at or past the strip's last frame is handled: the strip
      is cut down to [a, end) and renamed. */
  lemma {:induction false} CutPastEnd(s: seq<Strip>, i: nat, name: string, a: int, b: int, anySecondPart: bool)
    requires UniqueNames(s) && i < |s| && s[i].name == name && FreshBase(s, name)
    requires name + "_cut" !in Names(s)
    requires s[i].start < a < s[i].end <= b
    ensures CutSpec(s, name, a, b, anySecondPart) ==
      Outcome(RemoveAt(s, i) + [s[i].(name := name + "_cut", start := a)], Ok(name + "_cut"))
  {
    FindUnique(s, i);
    PastEndPlan(s, i, name, a, b, anySecondPart);
    PastEndFinish(s, i, name, a);
  }

  /** With the end frame past the strip only the split at the start frame
      happens, and the strip is the only name to delete. */
  lemma PastEndPlan(s: seq<Strip>, i: nat, name: string, a: int, b: int, anySecondPart: bool)
    requires UniqueNames(s) && i < |s| && s[i].name == name && FreshBase(s, name)
    requires s[i].start < a < s[i].end <= b
    ensures var s2 := SplitAt(s, i, a);
      PlanCut(s, i, name, a, b, anySecondPart) == Plan(s2, [name], Some(s2[|s|].name))
  {
    assert SplitAt(s, i, b) == s;
    PastEndSecond(s, i, name, a, b);
    ToDeleteStripOnly(name);
  }

  /** The searches after the only effective split, at the start frame. */
  lemma PastEndSecond(s: seq<Strip>, i: nat, name: string, a: int, b: int)
    requires UniqueNames(s) && i < |s| && s[i].name == name && FreshBase(s, name)
    requires s[i].start < a < s[i].end <= b
    ensures var s2 := SplitAt(s, i, a);
      && Find(s2, name) == Some(i)
      && FirstFragment(s2, name + ".00", EndsBy(b)) == Some(|s|)
      && FirstFragment(s2, name + ".00", StartsFrom(b)) == None
  {
    var s2 := SplitAt(s, i, a);
    assert forall j :: 0 <= j < |s| ==> s2[j].name == s[j].name;
    FirstFragmentIs(s2, name + ".00", EndsBy(b), |s|);
    FindUnique(s2, i);
  }

  lemma PastEndFinish(s: seq<Strip>, i: nat, name: string, a: int)
    requires UniqueNames(s) && i < |s| && s[i].name == name
    requires name + "_cut" !in Names(s)
    requires s[i].start < a < s[i].end
    ensures var s2 := SplitAt(s, i, a);
      Finish(Plan(s2, [name], Some(s2[|s|].name)), name) ==
      Outcome(RemoveAt(s, i) + [s[i].(name := name + "_cut", start := a)], Ok(name + "_cut"))
  {
    var s2 := SplitAt(s, i, a);
    var x := s2[|s|];
    var u := RemoveAt(s, i);
    assert s2 == s[i := s[i].(end := a)] + [x];
    FindUnique(s2, i);
    RemoveAtAppend(s[i := s[i].(end := a)], [x], i);
    RemoveAtUpdate(s, i, s[i].(end := a));
    var d1 := u + [x];
    assert DeleteOne(s2, name) == d1;
    assert DeleteNamed(s2, [name]) == d1 by {
      assert [name][1..] == [];
    }
    FindUnique(d1, |u|);
    RenameLast(u, x, name + "_cut");
    assert UniqueName(u, name + "_cut") == name + "_cut";
  }

  /** The cut as documented: keep the part of strip `name` that lies in
      [a, b), whatever side of the strip's ends the frames fall, and change
      nothing when that part is empty. */
  function CutFixed(s: seq<Strip>, name: string, a: int, b: int): (o: Outcome)
    ensures Find(s, name).None? ==> o == Outcome(s, Err(ValueError))
    ensures o.result.Err? ==> o.strips == s
    ensures o.result.Ok? ==> o.result.value == name + "_cut"
    ensures Find(s, name).Some? ==>
      (o.result.Ok? <==> exists f :: a <= f < b && Covers(s[Find(s, name).value], f))
    ensures o.result.Ok? ==> Find(s, name).Some?
    ensures Find(s, name).Some? && o.result.Ok? ==>
      var i := Find(s, name).value;
      && |o.strips| == |s|
      && o.strips[..|s| - 1] == RemoveAt(s, i)
      && FragmentOf(o.strips[|s| - 1], s[i])
      && forall f :: Covers(o.strips[|s| - 1], f) <==> a <= f < b && Covers(s[i], f)
    ensures UniqueNames(s) ==> UniqueNames(o.strips)
  {
    match Find(s, name)
    case None => Outcome(s, Err(ValueError))
    case Some(i) =>
      var lo := if a < s[i].start then s[i].start else a;
      var hi := if b < s[i].end then b else s[i].end;
      if hi <= lo then
        assert forall f :: !(a <= f < b && Covers(s[i], f));
        Outcome(s, Err(RuntimeError))
      else
        var u := RemoveAt(s, i);
        var r := u + [s[i].(name := UniqueName(u, name + "_cut"), start := lo, end := hi)];
        assert a <= lo < b && Covers(s[i], lo);
        assert exists f :: a <= f < b && Covers(s[Find(s, name).value], f);
        assert r[..|s| - 1] == u;
        assert |r| == |s| && r[|s| - 1].start == lo && r[|s| - 1].end == hi;
        var x := r[|s| - 1];
        assert forall f :: Covers(x, f) <==> a <= f < b && Covers(s[i], f) by {
          forall f ensures Covers(x, f) <==> a <= f < b && Covers(s[i], f) {
            assert Covers(x, f) <==> lo <= f < hi;
          }
        }
        assert UniqueNames(s) ==> UniqueNames(r) by {
          assert forall j :: 0 <= j < |u| ==> r[j] == u[j] && u[j].name in Names(u);
        }
        Outcome(r, Ok(name + "_cut"))
  }

  /** Where the source's cut works, the corrected cut agrees with it. */
  lemma CutFixedAgrees(s: seq<Strip>, i: nat, name: string, a: int, b: int, anySecondPart: bool)
    requires UniqueNames(s) && i < |s| && s[i].name == name && FreshBase(s, name)
    requires name + "_cut" !in Names(s)
    requires s[i].start < a < b < s[i].end
    ensures CutFixed(s, name, a, b) == CutSpec(s, name, a, b, anySecondPart)
  {
    CutInterior(s, i, name, a, b, anySecondPart);
    FindUnique(s, i);
  }

  /** And where it destroys the strip, the corrected cut keeps [start, b). */
  lemma CutFixedAtStripStart(s: seq<Strip>, i: nat, name: string, a: int, b: int)
    requires UniqueNames(s) && i < |s| && s[i].name == name
    requires name + "_cut" !in Names(s)
    requires a <= s[i].start < b < s[i].end
    ensures CutFixed(s, name, a, b) ==
      Outcome(RemoveAt(s, i) + [s[i].(name := name + "_cut", end := b)], Ok(name + "_cut"))
  {
    FindUnique(s, i);
  }

  /** A strip "clip" over [0, 100) beside an earlier fragment "clip.001"
      over [100, 300), as a batch split of the same strip leaves it. */
  function SplitThenCutTimeline(x: Strip): seq<Strip> {
    [x, x.(name := "clip.001", start := 100, end := 300)]
  }

  predicate IsClip(x: Strip) {
    x.name == "clip" && x.start == 0 && x.end == 100
  }

  /** The names the example below involves, and how they compare. */
  lemma ClipNames()
    ensures "clip" + ".00" == "clip.00" && "clip" + "_cut" == "clip_cut"
    ensures Suffixed("clip", 1) == "clip.001" && Suffixed("clip", 2) == "clip.002" && Suffixed("clip", 3) == "clip.003"
    ensures "clip.001" != "clip.002" && "clip.001" != "clip.003" && "clip.002" != "clip.003"
    ensures "clip_cut" != "clip.001" && "clip_cut" != "clip.002"
    ensures StartsWith("clip.001", "clip.00") && StartsWith("clip.002", "clip.00") && StartsWith("clip.003", "clip.00")
    ensures !StartsWith("clip", "clip.00")
  {
    assert "clip.001"[7] != "clip.002"[7] && "clip.001"[7] != "clip.003"[7] && "clip.002"[7] != "clip.003"[7];
    assert "clip_cut"[4] != "clip.001"[4];
  }

  /** The timeline after the split at frame 50. */
  function EarlierSplit1(x: Strip): seq<Strip> {
    [x.(end := 50), SplitThenCutTimeline(x)[1], x.(name := "clip.002", start := 50)]
  }

  /** The timeline after the split at frame 20. */
  function EarlierSplit2(x: Strip): seq<Strip> {
    EarlierSplit1(x)[0 := x.(end := 20)] + [x.(name := "clip.003", start := 20, end := 50)]
  }

  /** The split at frame 50 names its right part "clip.002". */
  lemma EarlierFragmentFirstSplit(x: Strip)
    requires IsClip(x)
    ensures SplitAt(SplitThenCutTimeline(x), 0, 50) == EarlierSplit1(x)
  {
    var s := SplitThenCutTimeline(x);
    ClipNames();
    assert s[1].name == "clip.001" && "clip.001" in Names(s) && "clip.002" !in Names(s);
    assert FirstFree(s, "clip", 2) == 2;
  }

  /** The split at frame 20 then names its right part "clip.003". */
  lemma EarlierFragmentSecondSplit(x: Strip)
    requires IsClip(x)
    ensures SplitAt(EarlierSplit1(x), 0, 20) == EarlierSplit2(x)
  {
    var s1 := EarlierSplit1(x);
    ClipNames();
    assert s1[1].name == "clip.001" && s1[2].name == "clip.002";
    assert "clip.001" in Names(s1) && "clip.002" in Names(s1) && "clip.003" !in Names(s1);
    assert FirstFree(s1, "clip", 3) == 3;
    assert FirstFree(s1, "clip", 2) == 3;
  }

  /** After the first split, the search for the part after the end frame
      finds the older "clip.001" before the split's own "clip.002". */
  lemma EarlierAfterEnd(x: Strip)
    requires IsClip(x)
    ensures FirstFragment(EarlierSplit1(x), "clip.00", StartsAfter(50)) == Some(1)
  {
    ClipNames();
    assert EarlierSplit1(x)[1].name == "clip.001";
    FirstFragmentIs(EarlierSplit1(x), "clip.00", StartsAfter(50), 1);
  }

  /** After both splits, the middle search finds "clip.003". */
  lemma EarlierMiddle(x: Strip)
    requires IsClip(x)
    ensures FirstFragment(EarlierSplit2(x), "clip.00", EndsBy(50)) == Some(3)
  {
    var s2 := EarlierSplit2(x);
    ClipNames();
    assert s2[1].end == 300 && s2[2].end == 100 && s2[3].name == "clip.003";
    FirstFragmentIs(s2, "clip.00", EndsBy(50), 3);
  }

  /** After both splits, the search for the part after the middle finds
      "clip.001" again. */
  lemma EarlierAfterMiddle(x: Strip)
    requires IsClip(x)
    ensures FirstFragment(EarlierSplit2(x), "clip.00", StartsFrom(50)) == Some(1)
  {
    var s2 := EarlierSplit2(x);
    ClipNames();
    assert s2[1].name == "clip.001";
    FirstFragmentIs(s2, "clip.00", StartsFrom(50), 1);
  }

  /** The plan: delete "clip" and "clip.001", keep "clip.003". */
  lemma EarlierFragmentPlan(x: Strip)
    requires IsClip(x)
    ensures PlanCut(SplitThenCutTimeline(x), 0, "clip", 20, 50, false) ==
      Plan(EarlierSplit2(x), ["clip", "clip.001"], Some("clip.003"))
  {
    EarlierFragmentFirstSplit(x);
    EarlierFragmentSecondSplit(x);
    ClipNames();
    EarlierAfterEnd(x);
    EarlierMiddle(x);
    EarlierAfterMiddle(x);
    FindIs(EarlierSplit2(x), "clip", 0);
    assert ToDelete(Some("clip"), Some("clip.001"), Some("clip.001")) == ["clip", "clip.001"];
  }

  /** The deletions of "clip" and "clip.001" leave the two later fragments. */
  lemma EarlierFragmentDeletes(x: Strip)
    requires IsClip(x)
    ensures DeleteNamed(EarlierSplit2(x), ["clip", "clip.001"]) ==
      [x.(name := "clip.002", start := 50), x.(name := "clip.003", start := 20, end := 50)]
  {
    var s2 := EarlierSplit2(x);
    var d1 := [s2[1], s2[2], s2[3]];
    FindIs(s2, "clip", 0);
    assert DeleteOne(s2, "clip") == d1;
    FindIs(d1, "clip.001", 0);
    assert DeleteOne(d1, "clip.001") == [s2[2], s2[3]];
    DeleteTwo(s2, "clip", "clip.001");
    assert [s2[2], s2[3]] == [x.(name := "clip.002", start := 50), x.(name := "clip.003", start := 20, end := 50)];
  }

  /** Renaming "clip.003" to "clip_cut" beside "clip.002". */
  lemma EarlierRename(x: Strip)
    requires IsClip(x)
    ensures var d2 := [x.(name := "clip.002", start := 50), x.(name := "clip.003", start := 20, end := 50)];
      Find(d2, "clip.003") == Some(1) && "clip" + "_cut" == "clip_cut" &&
      RenameAt(d2, 1, "clip_cut") == [d2[0], x.(name := "clip_cut", start := 20, end := 50)]
  {
    var d2 := [x.(name := "clip.002", start := 50), x.(name := "clip.003", start := 20, end := 50)];
    ClipNames();
    FindIs(d2, "clip.003", 1);
    assert RemoveAt(d2, 1) == [d2[0]];
    assert "clip_cut" !in Names([d2[0]]);
  }

  /** The deletions, then the rename of "clip.003". */
  lemma EarlierFragmentFinish(x: Strip)
    requires IsClip(x)
    ensures Finish(Plan(EarlierSplit2(x), ["clip", "clip.001"], Some("clip.003")), "clip") ==
      Outcome([x.(name := "clip.002", start := 50), x.(name := "clip_cut", start := 20, end := 50)], Ok("clip_cut"))
  {
    EarlierFragmentDeletes(x);
    EarlierRename(x);
  }

  /** Cutting "clip" to [20, 50) on that timeline: the search for the part
      after the end frame finds the older "clip.001", which lies wholly
      outside the cut, and deletes it; the split's own right part
      "clip.002" over [50, 100) survives beside "clip_cut". */
  lemma CutDeletesEarlierFragment(x: Strip)
    requires IsClip(x)
    ensures CutSpec(SplitThenCutTimeline(x), "clip", 20, 50, false) ==
      Outcome([x.(name := "clip.002", start := 50), x.(name := "clip_cut", start := 20, end := 50)], Ok("clip_cut"))
  {
    FindIs(SplitThenCutTimeline(x), "clip", 0);
    EarlierFragmentPlan(x);
    EarlierFragmentFinish(x);
  }

  /** The corrected cut on the same timeline keeps "clip.001" and leaves
      exactly [20, 50) of "clip". */
  lemma CutFixedKeepsEarlierFragment(x: Strip)
    requires IsClip(x)
    ensures CutFixed(SplitThenCutTimeline(x), "clip", 20, 50) ==
      Outcome([SplitThenCutTimeline(x)[1], x.(name := "clip_cut", start := 20, end := 50)], Ok("clip_cut"))
  {
    var s := SplitThenCutTimeline(x);
    FindIs(s, "clip", 0);
    ClipNames();
    var u := RemoveAt(s, 0);
    assert u == [s[1]];
    assert "clip_cut" !in Names(u);
    assert UniqueName(u, "clip_cut") == "clip_cut";
    assert CutFixed(s, "clip", 20, 50) == Outcome(u + [s[0].(name := "clip_cut", start := 20, end := 50)], Ok("clip_cut"));
  }
}
