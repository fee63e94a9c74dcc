/** The smaller timeline operations of `blender_core.py`, `utils/clips.py`,
    `utils/audio.py` and `utils/audio_utils.py`: resetting the sequencer,
    adding media strips, deleting and merging strips, the audio volume, the
    extraction of a video's sound, and the render settings. Whether a path
    exists and the lengths the host reads from media files are inputs. */
module Clips {
  import opened Wrappers
  import opened Text
  import opened Host

  /** The scene settings the scripts assign (`bpy.context.scene`). A new
      scene holds the host's defaults for a fresh scene; the scripts never
      create one, they only assign these fields. */
  class Scene {
    var fps: int
    var resX: int
    var resY: int
    var frameStart: int
    var frameEnd: int
    var filepath: string

    constructor ()
      ensures fps == 24 && resX == 1920 && resY == 1080
      ensures frameStart == 1 && frameEnd == 250 && filepath == "/tmp/"
    {
      fps := 24;
      resX := 1920;
      resY := 1080;
      frameStart := 1;
      frameEnd := 250;
      filepath := "/tmp/";
    }
  }

  /** `init_sequence(fps)`: sets the frame rate and empties the sequencer. */
  method InitSequence(scene: Scene, t: Timeline, fps: int)
    modifies scene, t
    ensures scene.fps == fps
    ensures scene.resX == old(scene.resX) && scene.resY == old(scene.resY)
    ensures scene.frameStart == old(scene.frameStart) && scene.frameEnd == old(scene.frameEnd)
    ensures scene.filepath == old(scene.filepath)
    ensures t.Valid() && t.strips == []
  {
    scene.fps := fps;
    t.Clear();
  }

  /** The strip `new_movie` creates for `path`; `fileLength` is the length
      the host reads from the file. */
  function NewMovie(path: string, channel: int, frameStart: int, fileLength: nat): (x: Strip)
    ensures x.name == MediaName(path) && x.kind == Movie && x.filepath == path
    ensures x.channel == channel && x.start == frameStart && x.end == frameStart + fileLength
  {
    Created(MediaName(path), Movie, channel, frameStart, frameStart + fileLength, path)
  }

  /** The video strip as `add_video_strip` leaves it: its end is moved to
      start + the clip's `frame_duration` when the clip metadata loaded
      (`duration` is `None` when loading raised). */
  function AddedVideo(path: string, channel: int, frameStart: int, fileLength: nat, duration: Option<int>): (x: Strip)
    ensures x.name == MediaName(path) && x.kind == Movie && x.filepath == path
    ensures x.channel == channel && x.start == frameStart
    ensures duration.Some? ==> x.end == frameStart + duration.value
    ensures duration.None? ==> x.end == frameStart + fileLength
  {
    var x := NewMovie(path, channel, frameStart, fileLength);
    if duration.Some? then x.(end := x.start + duration.value) else x
  }

  lemma AddedVideoIs(path: string, channel: int, frameStart: int, fileLength: nat, duration: Option<int>)
    ensures duration.Some? ==> (AddedVideo(path, channel, frameStart, fileLength, duration) ==
      NewMovie(path, channel, frameStart, fileLength).(end := frameStart + duration.value))
    ensures duration.None? ==> (AddedVideo(path, channel, frameStart, fileLength, duration) ==
      NewMovie(path, channel, frameStart, fileLength))
  {
  }

  /** `add_video_strip`. */
  method AddVideo(t: Timeline, path: string, channel: int, frameStart: int,
                  exists_: bool, fileLength: nat, duration: Option<int>) returns (r: Result<nat>)
    requires t.Valid()
    modifies t
    ensures t.Valid()
    ensures !exists_ ==> r == Err(FileNotFoundError) && t.strips == old(t.strips)
    ensures exists_ ==> (r == Ok(|old(t.strips)|) &&
      t.strips == Append(old(t.strips), AddedVideo(path, channel, frameStart, fileLength, duration)))
  {
    if !exists_ {
      return Err(FileNotFoundError);
    }
    AddedVideoOnTimeline(t.strips, path, channel, frameStart, fileLength, duration);
    var k := t.Add(NewMovie(path, channel, frameStart, fileLength));
    if duration.Some? {
      t.SetEnd(k, frameStart + duration.value);
    }
    return Ok(k);
  }

  /** Adding the new movie, then moving its end when the duration is known,
      appends the video strip. */
  lemma AddedVideoOnTimeline(s: seq<Strip>, path: string, channel: int, frameStart: int, fileLength: nat,
                             duration: Option<int>)
    ensures var a := Append(s, NewMovie(path, channel, frameStart, fileLength));
      && (duration.Some? ==>
            a[|s| := a[|s|].(end := frameStart + duration.value)] ==
            Append(s, AddedVideo(path, channel, frameStart, fileLength, duration)))
      && (duration.None? ==> a == Append(s, AddedVideo(path, channel, frameStart, fileLength, duration)))
  {
    var x := NewMovie(path, channel, frameStart, fileLength);
    var y := AddedVideo(path, channel, frameStart, fileLength, duration);
    AddedVideoIs(path, channel, frameStart, fileLength, duration);
    if duration.Some? {
      var e := frameStart + duration.value;
      assert x.(end := e) == y;
      AppendThenSetEnd(s, x, e);
      assert Append(s, x.(end := e)) == Append(s, y);
    }
  }

  /** The image strip as `add_image_strip` leaves it: it ends at `frameEnd`
      when one is given, otherwise 100 frames after its start. */
  function AddedImage(path: string, channel: int, frameStart: int, fileLength: nat, frameEnd: Option<int>): (x: Strip)
    ensures x.name == MediaName(path) && x.kind == Image && x.filepath == path
    ensures x.channel == channel && x.start == frameStart
    ensures frameEnd.Some? ==> x.end == frameEnd.value
    ensures frameEnd.None? ==> x.end == frameStart + 100
  {
    var x := Created(MediaName(path), Image, channel, frameStart, frameStart + fileLength, path);
    match frameEnd
    case Some(e) => x.(end := e)
    case None => x.(end := x.start + 100)
  }

  lemma AddedImageIs(path: string, channel: int, frameStart: int, fileLength: nat, frameEnd: Option<int>)
    ensures AddedImage(path, channel, frameStart, fileLength, frameEnd) ==
      Created(MediaName(path), Image, channel, frameStart, frameStart + fileLength, path).(
        end := if frameEnd.Some? then frameEnd.value else frameStart + 100)
  {
  }

  /** `add_image_strip`. */
  method AddImage(t: Timeline, path: string, channel: int, frameStart: int,
                  frameEnd: Option<int>, exists_: bool, fileLength: nat) returns (r: Result<nat>)
    requires t.Valid()
    modifies t
    ensures t.Valid()
    ensures !exists_ ==> r == Err(FileNotFoundError) && t.strips == old(t.strips)
    ensures exists_ ==> (r == Ok(|old(t.strips)|) &&
      t.strips == Append(old(t.strips), AddedImage(path, channel, frameStart, fileLength, frameEnd)))
  {
    if !exists_ {
      return Err(FileNotFoundError);
    }
    ghost var s0 := t.strips;
    var x := Created(MediaName(path), Image, channel, frameStart, frameStart + fileLength, path);
    var e := if frameEnd.Some? then frameEnd.value else x.start + 100;
    var k := t.Add(x);
    t.SetEnd(k, e);
    AppendThenSetEnd(s0, x, e);
    AddedImageIs(path, channel, frameStart, fileLength, frameEnd);
    return Ok(k);
  }

  /** `add_audio_strip`. The copy in `utils/audio_utils.py` makes no
      existence check: `checkExists` is false for it. */
  method AddAudio(t: Timeline, path: string, channel: int, frameStart: int,
                  checkExists: bool, exists_: bool, fileLength: nat) returns (r: Result<nat>)
    requires t.Valid()
    modifies t
    ensures t.Valid()
    ensures checkExists && !exists_ ==> r == Err(FileNotFoundError) && t.strips == old(t.strips)
    ensures !checkExists || exists_ ==> (r == Ok(|old(t.strips)|) &&
      t.strips == Append(old(t.strips), Created(MediaName(path), Sound, channel, frameStart, frameStart + fileLength, path)))
  {
    if checkExists && !exists_ {
      return Err(FileNotFoundError);
    }
    var k := t.Add(Created(MediaName(path), Sound, channel, frameStart, frameStart + fileLength, path));
    return Ok(k);
  }

  /** `delete_strip`: removes the named strip if present, else nothing. */
  method DeleteStrip(t: Timeline, name: string)
    requires t.Valid()
    modifies t
    ensures t.Valid() && t.strips == DeleteOne(old(t.strips), name)
  {
    var found := t.Get(name);
    if found.Some? {
      t.Delete(found.value);
    }
  }

  /** The listed names that are present, in list order: the strips
      `merge_strips` selects. */
  function Selected(s: seq<Strip>, names: seq<string>): (r: seq<string>)
    ensures forall x :: x in r <==> x in names && x in Names(s)
    ensures |r| <= |names|
  {
    if names == [] then []
    else (if names[0] in Names(s) then [names[0]] else []) + Selected(s, names[1..])
  }

  /** The names of the strips whose name is in `sel`, in collection order:
      `meta_make` groups the selected strips as the collection holds them. */
  function Grouped(s: seq<Strip>, sel: seq<string>): (r: seq<string>)
    ensures forall x :: x in r <==> x in sel && x in Names(s)
    ensures |r| <= |s|
  {
    if s == [] then []
    else
      assert forall j :: 1 <= j < |s| ==> s[j] == s[1..][j - 1];
      (if s[0].name in sel then [s[0].name] else []) + Grouped(s[1..], sel)
  }

  /** With unique names each selected strip is grouped once, however often
      its name is listed. */
  lemma {:induction false} GroupedOnce(s: seq<Strip>, sel: seq<string>)
    requires UniqueNames(s)
    ensures forall j, k :: 0 <= j < k < |Grouped(s, sel)| ==> Grouped(s, sel)[j] != Grouped(s, sel)[k]
  {
    if s != [] {
      var rest := Grouped(s[1..], sel);
      assert UniqueNames(s[1..]) by {
        assert forall j :: 0 <= j < |s[1..]| ==> s[1..][j] == s[j + 1];
      }
      GroupedOnce(s[1..], sel);
      assert s[0].name !in Names(s[1..]) by {
        assert forall j :: 0 <= j < |s[1..]| ==> s[1..][j] == s[j + 1];
      }
      assert s[0].name !in rest;
    }
  }

  /** The grouping keeps collection order: two runs of strips give the first
      run's names, then the second's. */
  lemma {:induction false} GroupedAppend(s1: seq<Strip>, s2: seq<Strip>, sel: seq<string>)
    ensures Grouped(s1 + s2, sel) == Grouped(s1, sel) + Grouped(s2, sel)
    decreases |s1|
  {
    if s1 == [] {
      assert s1 + s2 == s2;
    } else {
      assert (s1 + s2)[0] == s1[0];
      assert (s1 + s2)[1..] == s1[1..] + s2;
      GroupedAppend(s1[1..], s2, sel);
    }
  }

  /** Only which names are listed matters to the grouping, not their order
      or repetition. */
  lemma {:induction false} GroupedBySet(s: seq<Strip>, sel1: seq<string>, sel2: seq<string>)
    requires forall x :: x in sel1 <==> x in sel2
    ensures Grouped(s, sel1) == Grouped(s, sel2)
  {
    if s != [] {
      GroupedBySet(s[1..], sel1, sel2);
    }
  }

  /** The META strip `meta_make` creates around the selected strips. */
  function MetaOf(members: seq<string>): Strip {
    Strip("MetaStrip", Meta, 0, 0, 0, 0, "", 1.0, 0.0, 0, 0, None, members)
  }

  predicate IsMetaNamedMeta(x: Strip) {
    x.kind == Meta && StartsWith(x.name, "Meta")
  }

  /** `[s for s in seqs if s.type == 'META' and s.name.startswith("Meta")][0]`,
      or `None` where indexing the empty list raises. */
  function FirstMeta(s: seq<Strip>): (r: Option<nat>)
    ensures r.Some? ==> r.value < |s| && IsMetaNamedMeta(s[r.value])
    ensures r.Some? ==> forall j :: 0 <= j < r.value ==> !IsMetaNamedMeta(s[j])
    ensures r.None? ==> forall j :: 0 <= j < |s| ==> !IsMetaNamedMeta(s[j])
  {
    if s == [] then None
    else if IsMetaNamedMeta(s[0]) then Some(0)
    else match FirstMeta(s[1..])
      case None => None
      case Some(k) => Some(k + 1)
  }

  /** `merge_strips`. Selection is a loop over the names; returns the index of
      the strip renamed to `outputName`. */
  method MergeStrips(t: Timeline, names: seq<string>, outputName: string) returns (r: Result<nat>)
    requires t.Valid()
    modifies t
    ensures t.Valid()
    ensures var made := Append(old(t.strips), MetaOf(Grouped(old(t.strips), Selected(old(t.strips), names))));
      match FirstMeta(made)
      case None => r == Err(IndexError) && t.strips == made
      case Some(k) => r == Ok(k) && t.strips == RenameAt(made, k, outputName)
  {
    ghost var s0 := t.strips;
    ghost var made := Append(s0, MetaOf(Grouped(s0, Selected(s0, names))));
    var selected := SelectNames(t, names);
    var _ := t.Add(MetaOf(Grouped(t.strips, selected)));
    assert t.strips == made;
    var m := FindMeta(t);
    if m.None? {
      return Err(IndexError);
    }
    t.Rename(m.value, outputName);
    return Ok(m.value);
  }

  /** The deselect-then-select loop of `merge_strips`: the names, in the
      order given, that `sequences_all.get` finds. */
  method SelectNames(t: Timeline, names: seq<string>) returns (selected: seq<string>)
    ensures selected == Selected(t.strips, names)
  {
    var s := t.strips;
    selected := [];
    var j := 0;
    while j < |names|
      invariant 0 <= j <= |names|
      invariant selected == Selected(s, names[..j])
    {
      SelectedSnoc(s, names[..j], names[j]);
      assert names[..j + 1] == names[..j] + [names[j]];
      FindIffNamed(s, names[j]);
      var found := t.Get(names[j]);
      if found.Some? {
        selected := selected + [names[j]];
      }
      j := j + 1;
    }
    assert names[..j] == names;
  }

  lemma {:induction false} SelectedSnoc(s: seq<Strip>, names: seq<string>, x: string)
    ensures Selected(s, names + [x]) == Selected(s, names) + (if x in Names(s) then [x] else [])
  {
    if names != [] {
      assert (names + [x])[1..] == names[1..] + [x];
      SelectedSnoc(s, names[1..], x);
    }
  }

  method FindMeta(t: Timeline) returns (r: Option<nat>)
    ensures r == FirstMeta(t.strips)
  {
    var j := 0;
    while j < |t.strips|
      invariant 0 <= j <= |t.strips|
      invariant forall k :: 0 <= k < j ==> !IsMetaNamedMeta(t.strips[k])
    {
      if t.strips[j].kind == Meta && StartsWith(t.strips[j].name, "Meta") {
        return Some(j);
      }
      j := j + 1;
    }
    return None;
  }

  /** When no earlier strip is a META strip named "Meta...", the new meta
      strip is the one renamed, and it groups the selected strips. */
  lemma MergeRenamesNewMeta(s: seq<Strip>, names: seq<string>, outputName: string)
    requires forall j :: 0 <= j < |s| ==> !IsMetaNamedMeta(s[j])
    ensures var made := Append(s, MetaOf(Grouped(s, Selected(s, names))));
      && FirstMeta(made) == Some(|s|)
      && RenameAt(made, |s|, outputName) == s + [MetaOf(Grouped(s, Selected(s, names))).(name := UniqueName(s, outputName))]
  {
    var m := MetaOf(Grouped(s, Selected(s, names)));
    var made := Append(s, m);
    MetaNameStartsWithMeta(s);
    assert made == s + [m.(name := UniqueName(s, "MetaStrip"))];
    FirstMetaIs(made, |s|);
    RenameLast(s, m.(name := UniqueName(s, "MetaStrip")), outputName);
  }

  /** The name the new meta strip receives still starts with "Meta". */
  lemma MetaNameStartsWithMeta(s: seq<Strip>)
    ensures StartsWith(UniqueName(s, "MetaStrip"), "Meta")
  {
    if "MetaStrip" in Names(s) {
      PrefixOfPrefix(FreshName(s, "MetaStrip"), "MetaStrip", ".00");
      PrefixOfPrefix(FreshName(s, "MetaStrip"), "Meta", "Strip");
    }
  }

  lemma FirstMetaIs(s: seq<Strip>, k: nat)
    requires k < |s| && IsMetaNamedMeta(s[k])
    requires forall j :: 0 <= j < k ==> !IsMetaNamedMeta(s[j])
    ensures FirstMeta(s) == Some(k)
  {
  }

  /** But an older META strip named "Meta..." is renamed instead, leaving the
      new one under its default name. */
  lemma MergeRenamesOlderMeta(s: seq<Strip>, names: seq<string>, outputName: string, j: nat)
    requires j < |s| && IsMetaNamedMeta(s[j])
    ensures FirstMeta(Append(s, MetaOf(Grouped(s, Selected(s, names))))).Some?
    ensures FirstMeta(Append(s, MetaOf(Grouped(s, Selected(s, names))))).value <= j
  {
    assert Append(s, MetaOf(Grouped(s, Selected(s, names))))[j] == s[j];
  }

  /** `max(0.0, min(volume_percent / 100.0, 2.0))`. */
  function ClampVolume(percent: real): (v: real)
    ensures 0.0 <= v <= 2.0
    ensures 0.0 <= percent <= 200.0 ==> v == percent / 100.0
    ensures percent < 0.0 ==> v == 0.0
    ensures percent > 200.0 ==> v == 2.0
  {
    var m := if percent / 100.0 < 2.0 then percent / 100.0 else 2.0;
    if 0.0 < m then m else 0.0
  }

  /** A larger percentage never gives a lower volume. */
  lemma ClampMonotonic(p: real, q: real)
    requires p <= q
    ensures ClampVolume(p) <= ClampVolume(q)
  {
  }

  /** `set_audio_volume`. */
  method SetAudioVolume(t: Timeline, name: string, percent: real) returns (r: Result<()>)
    requires t.Valid()
    modifies t
    ensures t.Valid()
    ensures Find(old(t.strips), name).None? ==> r == Err(ValueError) && t.strips == old(t.strips)
    ensures Find(old(t.strips), name).Some? ==> (r == Ok(()) &&
      var i := Find(old(t.strips), name).value;
      t.strips == old(t.strips)[i := old(t.strips)[i].(volume := ClampVolume(percent))])
  {
    var found := t.Get(name);
    if found.None? {
      return Err(ValueError);
    }
    t.SetVolume(found.value, ClampVolume(percent));
    return Ok(());
  }

  /** The strip `sound_strip_add` creates for a video's file, at the video's
      `frame_start`: where the video's media begins, which for a trimmed or
      cut video lies before its first visible frame. */
  function SoundOf(video: Strip, channel: int, fileLength: nat): (x: Strip)
    ensures x.kind == Sound && x.filepath == video.filepath && x.channel == channel
    ensures x.start == x.contentStart == video.contentStart
    ensures x.end == video.contentStart + fileLength
  {
    Created(Basename(video.filepath), Sound, channel, video.contentStart, video.contentStart + fileLength, video.filepath)
  }

  /** The sound extracted from the right part of a split starts where the
      original media starts, not at the split frame. */
  lemma SoundOfRightPart(s: seq<Strip>, i: nat, f: int, channel: int, fileLength: nat)
    requires i < |s| && s[i].start < f < s[i].end
    ensures |SplitAt(s, i, f)| == |s| + 1 && SplitAt(s, i, f)[|s|].start == f
    ensures SoundOf(SplitAt(s, i, f)[|s|], channel, fileLength).start == s[i].contentStart
  {
  }

  /** `extract_audio_from_video`: the new sound strip is appended and the
      last strip renamed `<video>_audio`; the existing strips are untouched. */
  method ExtractAudio(t: Timeline, videoName: string, channel: int, fileLength: nat) returns (r: Result<string>)
    requires t.Valid()
    modifies t
    ensures t.Valid()
    ensures Find(old(t.strips), videoName).None? ==> r == Err(ValueError) && t.strips == old(t.strips)
    ensures Find(old(t.strips), videoName).Some? ==> (r == Ok(videoName + "_audio") &&
      var v := old(t.strips)[Find(old(t.strips), videoName).value];
      t.strips == old(t.strips) + [SoundOf(v, channel, fileLength).(name := UniqueName(old(t.strips), videoName + "_audio"))])
  {
    var found := t.Get(videoName);
    if found.None? {
      return Err(ValueError);
    }
    var v := t.strips[found.value];
    ghost var s0 := t.strips;
    var _ := t.Add(SoundOf(v, channel, fileLength));
    t.Rename(|t.strips| - 1, videoName + "_audio");
    RenameLast(s0, SoundOf(v, channel, fileLength).(name := UniqueName(s0, SoundOf(v, channel, fileLength).name)), videoName + "_audio");
    return Ok(videoName + "_audio");
  }

  /** `os.path.join(p, c)` for a relative `c`. */
  function Join(p: string, c: string): (r: string)
    ensures StartsWith(r, p) && EndsWith(r, c)
    ensures |p| + |c| <= |r| <= |p| + 1 + |c|
  {
    if p == [] || p[|p| - 1] == '/' then p + c else p + "/" + c
  }

  /** The render path: kept when it ends in ".mp4" in any case, otherwise
      taken as a directory to hold "output.mp4". */
  function OutputPath(p: string): (r: string)
    ensures EndsWith(Lower(r), ".mp4")
  {
    if EndsWith(Lower(p), ".mp4") then p
    else
      JoinedOutputIsMp4(p);
      Join(p, "output.mp4")
  }

  /** The render path keeps the given one as its prefix, and only grows when
      that one does not already name an ".mp4" file. */
  lemma OutputPathKeepsPrefix(p: string)
    ensures StartsWith(OutputPath(p), p)
    ensures EndsWith(Lower(p), ".mp4") ==> OutputPath(p) == p
    ensures !EndsWith(Lower(p), ".mp4") ==> (|OutputPath(p)| >= |p| + 10 && EndsWith(OutputPath(p), "output.mp4"))
  {
  }

  lemma JoinedOutputIsMp4(p: string)
    ensures EndsWith(Lower(Join(p, "output.mp4")), ".mp4")
  {
    var r := Join(p, "output.mp4");
    LowerKeepsSuffix(r, "output.mp4");
    assert EndsWith("output.mp4", ".mp4");
    EndsWithTrans(Lower(r), "output.mp4", ".mp4");
  }

  /** Lower-casing keeps a suffix that has no upper-case letter. */
  lemma LowerKeepsSuffix(r: string, c: string)
    requires EndsWith(r, c)
    requires forall k :: 0 <= k < |c| ==> !('A' <= c[k] <= 'Z')
    ensures EndsWith(Lower(r), c)
  {
    var l, n := Lower(r), |r| - |c|;
    forall k | 0 <= k < |c|
      ensures l[n..][k] == c[k]
    {
      assert r[n + k] == r[n..][k] == c[k];
      assert l[n + k] == LowerChar(c[k]);
    }
    assert l[n..] == c;
  }

  /** Finalizing twice does not nest "output.mp4" again. */
  lemma OutputPathIdempotent(p: string)
    ensures OutputPath(OutputPath(p)) == OutputPath(p)
  {
  }

  /** The largest `frame_final_end` over a non-empty collection. */
  function MaxEnd(s: seq<Strip>): (e: int)
    requires s != []
    ensures forall j :: 0 <= j < |s| ==> s[j].end <= e
    ensures exists j :: 0 <= j < |s| && s[j].end == e
  {
    if |s| == 1 then s[0].end
    else
      var m := MaxEnd(s[1..]);
      assert forall j :: 1 <= j < |s| ==> s[j] == s[1..][j - 1];
      if s[0].end >= m then s[0].end else m
  }

  /** The last frame `finalize_render` sets: the largest end, or 100 frames
      when there are no strips. */
  function FrameEnd(s: seq<Strip>): (e: int)
    ensures s == [] ==> e == 100
    ensures s != [] ==> (forall j :: 0 <= j < |s| ==> s[j].end <= e) && exists j :: 0 <= j < |s| && s[j].end == e
  {
    if s == [] then 100 else MaxEnd(s)
  }

  /** The settings `finalize_render` makes before it starts the render. */
  method FinalizeRender(scene: Scene, t: Timeline, outputPath: string, resX: int, resY: int, fps: int)
    modifies scene
    ensures scene.resX == resX && scene.resY == resY && scene.fps == fps
    ensures scene.filepath == OutputPath(outputPath)
    ensures scene.frameStart == 1 && scene.frameEnd == FrameEnd(t.strips)
  {
    var path := OutputPath(outputPath);
    var strips := t.strips;
    var last := 100;
    if strips != [] {
      last := MaxEnd(strips);
    }
    assert last == FrameEnd(strips);
    scene.resX, scene.resY, scene.fps := resX, resY, fps;
    scene.filepath := path;
    scene.frameStart, scene.frameEnd := 1, last;
  }
}
