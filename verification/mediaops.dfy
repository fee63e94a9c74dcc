/** `add_media`, `cut_between` and `split_at`: the seconds-based entry points
    that pick an adder by file extension and route cuts and splits by strip
    type. */
module MediaOps {
  import opened Wrappers
  import opened Text
  import opened Host
  import opened Timing
  import opened Splitting
  import opened Cutting
  import opened Clips

  const AudioExts: seq<string> := [".mp3", ".wav", ".aac", ".flac", ".ogg"]
  const ImageExts: seq<string> := [".png", ".jpg", ".jpeg", ".bmp", ".tga", ".gif"]

  /** `s.endswith(exts)` with a tuple of suffixes, tried in order. */
  predicate EndsWithAny(s: string, exts: seq<string>) {
    exts != [] && (EndsWith(s, exts[0]) || EndsWithAny(s, exts[1..]))
  }

  /** `s` ends with one of `exts` exactly when one of them is its suffix. */
  lemma {:induction false} EndsWithAnyIff(s: string, exts: seq<string>)
    ensures EndsWithAny(s, exts) <==> exists j :: 0 <= j < |exts| && EndsWith(s, exts[j])
  {
    if exts != [] {
      EndsWithAnyIff(s, exts[1..]);
      if EndsWithAny(s, exts[1..]) {
        var j :| 0 <= j < |exts[1..]| && EndsWith(s, exts[1..][j]);
        assert EndsWith(s, exts[j + 1]);
      }
      if exists j :: 0 <= j < |exts| && EndsWith(s, exts[j]) {
        var j :| 0 <= j < |exts| && EndsWith(s, exts[j]);
        if j > 0 {
          assert EndsWith(s, exts[1..][j - 1]);
        }
      }
    }
  }

  datatype MediaKind = AudioFile | ImageFile | VideoFile

  /** The adder `add_media` picks: audio extensions first, then image
      extensions, any other path is video; the test ignores case. */
  function Classify(path: string): (k: MediaKind)
    ensures k == AudioFile <==> EndsWithAny(Lower(path), AudioExts)
    ensures k == ImageFile ==> EndsWithAny(Lower(path), ImageExts)
  {
    var lower := Lower(path);
    if EndsWithAny(lower, AudioExts) then AudioFile
    else if EndsWithAny(lower, ImageExts) then ImageFile
    else VideoFile
  }

  /** Each kind is picked exactly by its extensions, in any case; since no
      path has both an audio and an image extension, an image is a path with
      an image extension whatever the order of the tests. */
  lemma ClassifyByExtension(path: string)
    ensures Classify(path) == AudioFile <==> EndsWithAny(Lower(path), AudioExts)
    ensures Classify(path) == ImageFile <==> EndsWithAny(Lower(path), ImageExts)
    ensures Classify(path) == VideoFile <==>
      !EndsWithAny(Lower(path), AudioExts) && !EndsWithAny(Lower(path), ImageExts)
  {
    ExtensionsDisjoint(Lower(path));
  }

  /** Classification does not depend on the case of the path. */
  lemma ClassifyIgnoresCase(path: string)
    ensures Classify(Lower(path)) == Classify(path)
  {
    LowerIdempotent(path);
  }

  /** No path ends with both an audio and an image extension, so the order of
      the two tests in `add_media` does not matter. */
  lemma ExtensionsDisjoint(s: string)
    ensures !(EndsWithAny(s, AudioExts) && EndsWithAny(s, ImageExts))
  {
    if EndsWithAny(s, AudioExts) && EndsWithAny(s, ImageExts) {
      AudioTail(s);
      ImageTail(s);
    }
  }

  /** A string ending with `e` ends with the last two characters of `e`. */
  lemma LastTwo(s: string, e: string)
    requires EndsWith(s, e) && |e| >= 2
    ensures |s| >= 2 && s[|s| - 1] == e[|e| - 1] && s[|s| - 2] == e[|e| - 2]
  {
    assert s[|s| - |e|..][|e| - 1] == s[|s| - 1];
    assert s[|s| - |e|..][|e| - 2] == s[|s| - 2];
  }

  /** How a path with an audio extension ends: only ".ogg" ends in 'g'. */
  lemma AudioTail(s: string)
    requires EndsWithAny(s, AudioExts)
    ensures |s| >= 2 && s[|s| - 1] in "3vcg" && (s[|s| - 1] == 'g' ==> s[|s| - 2] == 'g')
  {
    EndsWithAnyIff(s, AudioExts);
    var i :| 0 <= i < |AudioExts| && EndsWith(s, AudioExts[i]);
    AudioExtTail(i);
    LastTwo(s, AudioExts[i]);
  }

  /** How a path with an image extension ends: ".png", ".jpg" and ".jpeg"
      end in 'g' after 'n', 'p' or 'e'. */
  lemma ImageTail(s: string)
    requires EndsWithAny(s, ImageExts)
    ensures |s| >= 2 && s[|s| - 1] in "gpaf" && (s[|s| - 1] == 'g' ==> s[|s| - 2] in "npe")
  {
    EndsWithAnyIff(s, ImageExts);
    var j :| 0 <= j < |ImageExts| && EndsWith(s, ImageExts[j]);
    ImageExtTail(j);
    LastTwo(s, ImageExts[j]);
  }

  /** The last two characters of the audio extension at `i`. */
  lemma AudioExtTail(i: nat)
    requires i < |AudioExts|
    ensures var a := AudioExts[i];
      |a| >= 2 && a[|a| - 1] in "3vcg" && (a[|a| - 1] == 'g' ==> a[|a| - 2] == 'g')
  {
    var a := AudioExts[i];
    if i == 0 {
      assert a == ".mp3";
    } else if i == 1 {
      assert a == ".wav";
    } else if i == 2 {
      assert a == ".aac";
    } else if i == 3 {
      assert a == ".flac";
    } else {
      assert a == ".ogg";
    }
  }

  /** The last two characters of the image extension at `j`. */
  lemma ImageExtTail(j: nat)
    requires j < |ImageExts|
    ensures var b := ImageExts[j];
      |b| >= 2 && b[|b| - 1] in "gpaf" && (b[|b| - 1] == 'g' ==> b[|b| - 2] in "npe")
  {
    var b := ImageExts[j];
    if j == 0 {
      assert b == ".png";
    } else if j == 1 {
      assert b == ".jpg";
    } else if j == 2 {
      assert b == ".jpeg";
    } else if j == 3 {
      assert b == ".bmp";
    } else if j == 4 {
      assert b == ".tga";
    } else {
      assert b == ".gif";
    }
  }

  /** `add_media(path, channel, start_sec, end_sec, fps)`. The frames it
      computes with `sec2frame` are taken as inputs: `frameStart` for
      `start_sec`, `imageEnd` for `end_sec` and `videoLength` for
      `end_sec - start_sec`, each `None` when `end_sec` is not given
      (`Timing.Sec2Frame` models the `sec2frame` of utils/time_utils.py).
      An audio strip lasts the file's length, an image ends at `imageEnd` or
      100 frames after its start, and a video given `end_sec` is trimmed to
      `videoLength` frames. */
  method AddMedia(t: Timeline, path: string, channel: int, frameStart: int, imageEnd: Option<int>,
                  videoLength: Option<int>, exists_: bool, fileLength: nat, duration: Option<int>)
    returns (r: Result<nat>)
    requires t.Valid()
    modifies t
    ensures t.Valid()
    ensures !exists_ ==> r == Err(FileNotFoundError) && t.strips == old(t.strips)
    ensures exists_ ==> r == Ok(|old(t.strips)|)
    ensures Classify(path) == AudioFile && exists_ ==>
        t.strips == Append(old(t.strips), Created(MediaName(path), Sound, channel, frameStart, frameStart + fileLength, path))
    ensures Classify(path) == ImageFile && exists_ ==>
        t.strips == Append(old(t.strips), AddedImage(path, channel, frameStart, fileLength, imageEnd))
    ensures Classify(path) == VideoFile && exists_ && videoLength.None? ==>
        t.strips == Append(old(t.strips), AddedVideo(path, channel, frameStart, fileLength, duration))
    ensures Classify(path) == VideoFile && exists_ && videoLength.Some? ==>
        t.strips == Append(old(t.strips), AddedVideo(path, channel, frameStart, fileLength, duration).(
                             end := frameStart + videoLength.value))
  {
    ghost var s0 := t.strips;
    var kind := Classify(path);
    if kind == AudioFile {
      r := AddAudio(t, path, channel, frameStart, true, exists_, fileLength);
    } else if kind == ImageFile {
      r := AddImage(t, path, channel, frameStart, imageEnd, exists_, fileLength);
    } else {
      r := AddVideo(t, path, channel, frameStart, exists_, fileLength, duration);
      if r.Ok? && videoLength.Some? {
        ghost var x := AddedVideo(path, channel, frameStart, fileLength, duration);
        assert t.strips == Append(s0, x) && r.value == |s0|;
        var e := frameStart + videoLength.value;
        t.SetEnd(r.value, e);
        AppendThenSetEnd(s0, x, e);
        assert t.strips == Append(s0, x.(end := e));
      }
    }
  }

  /** Where `cut_between` and `split_at` send a strip. */
  datatype Route = AudioRoute | VideoRoute

  /** `getattr(strip, "type", "").upper() == "SOUND"` picks the audio scripts. */
  function RouteOf(k: Kind): (r: Route)
    ensures r == AudioRoute <==> k == Sound
  {
    if k == Sound then AudioRoute else VideoRoute
  }

  /** `cut_between(name, start_sec, end_sec, fps)`. The audio and the video cut
      are the same procedure, `Cutting.CutStrip`, so the route only names the
      script that runs it. */
  method CutBetween(t: Timeline, name: string, startSec: real, endSec: real, fps: int)
    returns (route: Option<Route>, r: Result<string>)
    requires t.Valid()
    modifies t
    ensures t.Valid()
    ensures Find(old(t.strips), name).None? ==> route == None && r == Err(ValueError) && t.strips == old(t.strips)
    ensures Find(old(t.strips), name).Some? ==>
      route == Some(RouteOf(old(t.strips)[Find(old(t.strips), name).value].kind))
    ensures var o := CutSpec(old(t.strips), name, FrameAt(startSec, fps), FrameAt(endSec, fps), false);
      t.strips == o.strips && r == o.result
  {
    var found := t.Get(name);
    if found.None? {
      return None, Err(ValueError);
    }
    route := Some(RouteOf(t.strips[found.value].kind));
    r := CutStrip(t, name, FrameAt(startSec, fps), FrameAt(endSec, fps), false);
  }

  /** `split_at(name, times, fps)`, routed like `cut_between`. */
  method SplitAtTimes(t: Timeline, name: string, times: seq<real>, fps: int)
    returns (route: Option<Route>, r: Result<seq<string>>)
    requires t.Valid()
    modifies t
    ensures t.Valid()
    ensures Find(old(t.strips), name).None? ==> route == None && r == Err(ValueError) && t.strips == old(t.strips)
    ensures Find(old(t.strips), name).Some? ==> (
      route == Some(RouteOf(old(t.strips)[Find(old(t.strips), name).value].kind)) &&
      t.strips == SplitDown(old(t.strips), Find(old(t.strips), name).value, SortAsc(FramesAt(times, fps))) &&
      r == Ok(NamesWithPrefix(t.strips, name)))
  {
    var found := t.Get(name);
    if found.None? {
      return None, Err(ValueError);
    }
    route := Some(RouteOf(t.strips[found.value].kind));
    r := SplitStrip(t, name, FramesAt(times, fps));
  }
}
