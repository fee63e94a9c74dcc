# expagepay/editor: timeline editing scripts, modelled in Dafny

The repository drives Blender's video sequence editor (VSE) from Python
scripts. They add movie, sound and image strips, split a strip at a batch of
times, cut a strip down to a time range, delete and merge strips, put
TRANSFORM effects over a strip, set a sound's volume, extract a video's sound
and prepare the render settings. `blender_core.py` registers these operations
by name in its `OPERATIONS` dictionary. The same procedures are repeated in
`utils/clips.py`, `utils/clip_utils.py`, `utils/audio.py`,
`utils/audio_utils.py`, `utils/transform.py` and `utils/transform_utils.py`.
`utils/ops.py` adds seconds-based entry points that pick the adder by file
extension and route a cut or split by strip type. Separately,
`editor/timeline.py` keeps clips in per-layer lists and exports a flat
summary of them.

## The model

The project has ten modules:

- **Host** (`host.dfy`): an in-memory stand-in for the sequence editor.
  - A `Strip` datatype and a `Timeline` class whose `strips: seq<Strip>` is
    `sequences_all`.
  - Every primitive the scripts call (get by name, soft split, delete,
    rename, create, field assignment) is a method proved against a pure
    function on the sequence.
  - Names stay unique. A split keeps the name on the left part and appends
    the right part under a fresh `<name>.00k` name. A rename or creation
    under a taken name gets such a fresh name too.
- **Splitting** (`splitting.dfy`): the batch split.
  - The frames are sorted, then applied from the highest down, always to the
    same strip.
  - The result is the list of names that start with the strip's name.
- **Cutting** (`cutting.dfy`): the cut to `[start_frame, end_frame)`.
  - Two splits, then four searches by name prefix `<name>.00` and a frame
    test.
  - The deletions by name, then the rename of the middle fragment to
    `<name>_cut`.
  - The five copies are one procedure. A flag selects the `utils/clip_utils.py`
    variant, whose search for the part after the end frame has no frame test.
- **Clips** (`clips.dfy`): the scene reset, the three media adders, delete,
  merge, the volume clamp, sound extraction and the render frame range and
  output path.
- **Effects** (`effects.dfy`): `transform_strip`, `rotate_strip` and
  `translate_strip`.
- **MediaOps** (`mediaops.dfy`): `add_media`, `cut_between` and `split_at`.
- **Timing** (`timing.dfy`): `int(t * fps)` and `int(round(sec * fps))` over
  exact reals.
- **Text** (`text.dfy`): `startswith`, `endswith`, ASCII `lower`,
  `os.path.basename` and `os.path.splitext`.
- **Registration** (`registry.dfy`): the `register` decorator and the
  `OPERATIONS` table.
- **EditorTimeline** (`layers.dfy`): the layered timeline of
  `editor/timeline.py`.

Where the scripts change host state in place, the model is a method on
`Timeline`. Each such method's `ensures` gives the new `strips` as a pure
function of the old ones. The properties are proved about those functions.

Source paths below are relative to the repository root. Where the same code
appears in several files, the row cites the `blender_core.py` copy.

## Model

| member | source | states |
|---|---|---|
| Host.Find | blender_core.py:253 | `sequences_all.get(name)` gives the first strip carrying the name, and `None` exactly when no strip carries it |
| Host.FindIffNamed | blender_core.py:253-255 | the lookup finds a strip if and only if the name is among the strip names |
| Host.FindUnique | blender_core.py:285 | with unique names, looking up strip k's name gives k |
| Host.FreshName | blender_core.py:262 | the name a split gives the new right part starts with `<name>.00`, is longer than that prefix, and is used by no strip |
| Host.UniqueName | blender_core.py:170 | an assigned name is kept when free, and is otherwise replaced by a fresh one; either way no other strip has it |
| Host.SplitAt | blender_core.py:127-136 | a soft split adds at most one strip and keeps names unique |
| Host.RemoveAt | blender_core.py:148-150 | deleting strip i removes exactly one strip, adds no name and keeps names unique |
| Host.RemoveAtNames | blender_core.py:148-150 | with unique names, deleting strip k removes exactly its name from the set of names |
| Host.RemoveAtKeeps | blender_core.py:148-150 | every other strip keeps its fields and its order, strip j of the result being old strip j before k and old strip j + 1 from k on; with unique names the strips left are exactly the strips with another name, each unchanged |
| Host.DeleteOne | blender_core.py:146-153 | deleting a present name removes one strip and, with unique names, exactly that name; an absent name changes nothing |
| Host.DeleteOneKeeps | blender_core.py:146-153 | deleting a present name keeps every other strip, with its fields and in its order, around the first strip with that name; with unique names the strips left are exactly those with another name |
| Host.RenameAt | blender_core.py:315 | renaming keeps the number of strips and the uniqueness of names |
| Host.Append | blender_core.py:52-57 | creating a strip adds exactly one and keeps names unique |
| Host.AppendThenSetEnd | blender_core.py:65 | setting `frame_final_end` of the strip just created is the same as creating it with that end |
| Host.AppendThenSetRotation | blender_core.py:445 | setting `rotation_start` of the effect just created is the same as creating it with that rotation |
| Host.AppendThenSetOffset | blender_core.py:466-467 | setting the translation of the effect just created is the same as creating it with those offsets |
| Host.RenameLast | blender_core.py:422-424 | renaming `sequences_all[-1]` changes only the last strip's name, made unique among the others |
| Host.Timeline.constructor | blender_core.py:34 | a new sequencer is empty |
| Host.Timeline.Get | blender_core.py:253 | the method returns the first strip with the name, as `Find` defines it |
| Host.Timeline.Split | blender_core.py:262 | the split replaces the strips by `SplitAt` of the old ones and keeps names unique |
| Host.Timeline.Delete | blender_core.py:310 | the deletion replaces the strips by `RemoveAt` of the old ones |
| Host.Timeline.Rename | blender_core.py:315 | the assignment to `.name` replaces the strips by `RenameAt` of the old ones |
| Host.Timeline.Add | blender_core.py:52-57 | creation appends the strip, made unique by name, and returns its index |
| Host.Timeline.SetEnd | blender_core.py:65 | only strip i's end changes |
| Host.Timeline.SetVolume | blender_core.py:403 | only strip i's volume changes |
| Host.Timeline.SetRotation | blender_core.py:445 | only strip i's rotation changes |
| Host.Timeline.SetOffset | blender_core.py:466-467 | only strip i's two offsets change |
| Host.Timeline.Clear | blender_core.py:31-33 | select-all followed by delete empties the sequencer |
| Text.Lower | utils/ops.py:9 | lower-casing keeps the length and lower-cases each ASCII letter in place |
| Text.LowerIdempotent | utils/ops.py:9 | lower-casing a lower-cased path changes nothing |
| Text.BasenameIsLastPart | blender_core.py:53 | `os.path.basename` is a suffix of the path with no '/' in it, preceded by a '/' when shorter than the path |
| Text.LastDot | blender_core.py:53 | the index found holds a '.', no later character is a '.', and `None` means there is no '.' |
| Text.StemIsPrefix | blender_core.py:53 | `os.path.splitext(..)[0]` is a prefix of the name, cut only at a '.' that has a non-dot character before it |
| Timing.Trunc | blender_core.py:277-278 | `int(x)` on a float lies within one of x, on the side toward zero |
| Timing.TruncNegate | blender_core.py:277-278 | truncation is symmetric: `int(-x) == -int(x)` |
| Timing.RoundHalfEven | utils/time_utils.py:6 | `round(x)` lies within one half of x, and a tie goes to the even integer |
| Timing.RoundIsNearest | utils/time_utils.py:4-6 | no integer is closer to x than `round(x)` |
| Timing.Sec2Frame | utils/time_utils.py:4-6 | `sec2frame` gives a frame within half a frame of `sec * fps` |
| Timing.FrameAt | blender_core.py:277-278 | `int(t * fps)` lies within one frame of `t * fps`, on the side toward zero |
| Timing.FramesAt | blender_core.py:257 | each time converts to `int(t * fps)`, position by position |
| Splitting.Insert | blender_core.py:257 | inserting into a sorted list keeps it sorted and adds exactly that element |
| Splitting.SortAsc | blender_core.py:257 | `sorted(...)` returns a sorted permutation of its input |
| Splitting.SortedUnique | blender_core.py:257 | two sorted permutations of the same frames are equal |
| Splitting.BatchOrderIrrelevant | blender_core.py:257 | the order in which split times are given does not change the result |
| Splitting.SortedFrames | blender_core.py:257 | sorting keeps exactly the frames that lie inside any range |
| Splitting.SplitDown | blender_core.py:258-262 | splitting from the last frame down never removes a strip and keeps names unique |
| Splitting.SplitDescending | blender_core.py:258-262 | the loop over `reversed(frames)` leaves the strips as `SplitDown` of the old ones, with unique names |
| Splitting.SplitDownTiles | blender_core.py:258-262 | applied highest first, the splits leave pieces that tile the original range, cut exactly at the in-range frames |
| Splitting.BatchSplitCovers | utils/audio_utils.py:36-41 | the strip and its new fragments are non-empty, contiguous, cover exactly the original range, and are cut exactly at the requested frames inside it: nothing is removed |
| Splitting.SplitDownFragments | blender_core.py:258-262 | every piece is a copy of the original apart from its name and range, each new piece is named `<name>.00k`, and no other strip changes |
| Splitting.BatchSplitFragments | blender_core.py:258-264 | every piece of a batch split copies the original strip under a name starting with its name, and no other strip changes |
| Splitting.NamesWithPrefix | blender_core.py:264 | the returned names are exactly the strip names that start with the prefix |
| Splitting.NamesWithPrefixAppend | blender_core.py:264 | the names come in collection order: the list for two runs of strips is the first run's list followed by the second's |
| Splitting.NamesWithPrefixOne | blender_core.py:264 | a single strip contributes one entry, its name, exactly when it has the prefix, so each matching strip is listed once |
| Splitting.PrefixCatchesUnrelated | blender_core.py:264 | a strip called "video1" is listed among the results of splitting "vid" |
| Splitting.SplitStrip | blender_core.py:249-266 | an absent strip raises ValueError and changes nothing; otherwise the strips become `SplitDown` by the sorted frames and the prefixed names are returned |
| Cutting.FirstFragment | blender_core.py:286 | `next(...)` gives the first strip that has the `<name>.00` prefix and passes the frame test, and `None` exactly when no strip does |
| Cutting.NextFragment | blender_core.py:286 | the generator search returns what `FirstFragment` specifies |
| Cutting.ToDelete | blender_core.py:297-303 | the delete list holds exactly the fragments found, before-start, after-end and after-middle |
| Cutting.ToDeleteDistinct | blender_core.py:302 | the `not in to_delete` guard keeps the list free of duplicates whenever the first two entries differ |
| Cutting.PlanNoDuplicates | blender_core.py:297-303 | the delete list a cut builds never holds a name twice |
| Cutting.DeleteNamed | blender_core.py:305-310 | with unique names, deleting the listed names removes exactly those present, skips the absent ones and keeps names unique |
| Cutting.DeleteNamedKeeps | blender_core.py:305-310 | with unique names, the strips left are exactly those whose name is not listed, each unchanged |
| Cutting.DeleteAll | blender_core.py:305-310 | the deletion loop leaves the strips as `DeleteNamed` of the old ones |
| Cutting.PlanOnTimeline | blender_core.py:280-303 | the two splits and four searches on the timeline produce the plan `PlanCut` specifies |
| Cutting.CutStrip | blender_core.py:269-319 | the cut leaves the strips and the result `CutSpec` specifies |
| Cutting.InteriorSplitsAre | blender_core.py:283-291 | for start and end frames inside the strip, the two splits give the strip [start, a), then [b, end) and [a, b) under fresh names |
| Cutting.InteriorSearches | blender_core.py:285-295 | when no strip already has a name starting with `<name>.00`, for interior frames, the searches find the strip itself, the right part, and the middle part |
| Cutting.InteriorPlan | blender_core.py:280-303 | when no strip already has a name starting with `<name>.00`, for interior frames, the plan deletes the strip and the right part and keeps the middle |
| Cutting.InteriorFinish | blender_core.py:305-317 | the deletions and the rename then leave the other strips unchanged plus `<name>_cut` over [a, b) |
| Cutting.CutInterior | blender_core.py:269-319 | when no strip already has a name starting with `<name>.00`, a cut strictly inside the strip replaces it by a copy named `<name>_cut` holding exactly [a, b), and returns that name |
| Cutting.CutPastEnd | blender_core.py:269-319 | when no strip already has a name starting with `<name>.00`, with the end frame at or past the strip's end, the cut keeps [a, end) as `<name>_cut` |
| Cutting.PastEndPlan | blender_core.py:280-303 | when no strip already has a name starting with `<name>.00`, with the end frame at or past the strip's end, the plan deletes only the strip and keeps the part from a |
| Cutting.AtStripStartPlan | blender_core.py:280-303 | when no strip already has a name starting with `<name>.00`, with the start frame at or before the strip's start, the plan deletes the strip and the right part and finds no middle |
| Cutting.CutAtStripStart | blender_core.py:291-319 | when no strip already has a name starting with `<name>.00`, with the start frame at or before the strip's start, the strip and its right part are deleted and RuntimeError is raised |
| Cutting.CutFixed | blender_core.py:269-319 | an absent strip raises ValueError; otherwise the cut succeeds exactly when [a, b) meets the strip, and then replaces the strip by one fragment of it, placed last, covering exactly its frames within [a, b), and returns `<name>_cut`; a failure changes nothing; names stay unique |
| Cutting.CutFixedAgrees | blender_core.py:269-319 | when no strip already has a name starting with `<name>.00`, for interior frames, the corrected cut and the cut as written agree |
| Cutting.CutFixedAtStripStart | blender_core.py:269-319 | with the start frame at or before the strip's start, the corrected cut keeps [start, b) |
| Cutting.CutDeletesEarlierFragment | blender_core.py:280-319 | a strip "clip" over [0, 100) beside an earlier fragment "clip.001" over [100, 300), cut to [20, 50): "clip.001" is deleted, and the fragment "clip.002" over [50, 100) is kept beside `clip_cut` over [20, 50) |
| Cutting.CutFixedKeepsEarlierFragment | blender_core.py:269-319 | on the same timeline the corrected cut keeps "clip.001" untouched and leaves exactly [20, 50) of "clip" as `clip_cut` |
| Clips.InitSequence | blender_core.py:20-36 | the frame rate is set, the other scene settings are untouched, and the sequencer is emptied |
| Clips.Scene.constructor | blender_core.py:26 | `bpy.context.scene` before any script assigns a field: the host's defaults for a fresh scene, 24 fps, 1920×1080, frames 1 to 250 and the output path "/tmp/" |
| Clips.NewMovie | blender_core.py:52-57 | `new_movie` names the strip after the file's stem and places it on the channel from `frame_start` for the file's length |
| Clips.AddedVideo | blender_core.py:60-67 | the video ends `frame_duration` frames after its start when the clip loads, and keeps the file's length otherwise |
| Clips.AddedVideoIs | blender_core.py:65 | the added video is the created movie, with its end reset when a duration is known |
| Clips.AddVideo | blender_core.py:39-73 | a missing file raises FileNotFoundError and changes nothing; otherwise exactly that video strip is appended |
| Clips.AddedImage | blender_core.py:112-121 | the image ends at `frame_end` when given, and otherwise 100 frames after its start |
| Clips.AddedImageIs | blender_core.py:118-121 | the added image is the created one with its end set |
| Clips.AddImage | blender_core.py:102-124 | a missing file raises FileNotFoundError and changes nothing; otherwise exactly that image strip is appended |
| Clips.AddAudio | blender_core.py:76-99 | with the existence check, a missing file raises FileNotFoundError and changes nothing; otherwise exactly the sound strip is appended |
| Clips.DeleteStrip | blender_core.py:140-153 | the strip with that name is removed if present, and nothing changes otherwise |
| Clips.Selected | blender_core.py:164-167 | the selection holds exactly the listed names that are present |
| Clips.SelectedSnoc | blender_core.py:164-167 | each further listed name is selected exactly when present |
| Clips.SelectNames | blender_core.py:163-167 | the selection loop selects what `Selected` specifies |
| Clips.FirstMeta | blender_core.py:169 | the index is the first META strip whose name starts with "Meta", and `None` means there is none |
| Clips.FindMeta | blender_core.py:169 | the list comprehension finds what `FirstMeta` specifies |
| Clips.Grouped | blender_core.py:168 | `meta_make` groups exactly the selected strips that are present, in collection order |
| Clips.GroupedOnce | blender_core.py:164-168 | with unique names each selected strip is grouped once, even when its name is listed twice |
| Clips.GroupedAppend | blender_core.py:168 | the grouping keeps collection order: two runs of strips give the first run's names, then the second's |
| Clips.GroupedBySet | blender_core.py:164-168 | only which names are listed matters to the group, not their order or repetition, since selecting is idempotent |
| Clips.MergeStrips | blender_core.py:156-172 | the meta strip is created around the selected strips in collection order; the first META strip named "Meta..." is renamed, and IndexError is raised when there is none |
| Clips.MergeRenamesNewMeta | blender_core.py:168-170 | when no older meta strip qualifies, the new meta strip is the one renamed to the output name |
| Clips.MergeRenamesOlderMeta | blender_core.py:169-170 | an older META strip named "Meta..." is picked before the new one |
| Clips.ClampVolume | blender_core.py:402 | the volume is the percentage over 100, clamped into [0, 2] |
| Clips.ClampMonotonic | blender_core.py:402 | a larger percentage never gives a smaller volume |
| Clips.SetAudioVolume | blender_core.py:395-404 | an absent strip raises ValueError and changes nothing; otherwise only that strip's volume changes, to the clamped value |
| Clips.SoundOf | blender_core.py:416-420 | the extracted sound takes the video's file and channel argument, starts at the video's `frame_start` (where its media begins, also for a trimmed part), and lasts the file's length |
| Clips.SoundOfRightPart | blender_core.py:416-420 | the sound extracted from the right part of a split starts where the original media starts, not at the split frame |
| Clips.ExtractAudio | blender_core.py:407-426 | an absent video raises ValueError and changes nothing; otherwise one sound strip is appended under `<video>_audio`, and that name is returned |
| Clips.Join | blender_core.py:216 | the joined path starts with the directory and ends with the file name, with at most one separator between them |
| Clips.OutputPath | blender_core.py:215-216 | the output path always ends in ".mp4", ignoring case |
| Clips.OutputPathKeepsPrefix | blender_core.py:215-216 | a path ending in ".mp4" is kept; any other gets "output.mp4" joined onto it |
| Clips.JoinedOutputIsMp4 | blender_core.py:216 | the joined "output.mp4" path ends in ".mp4" |
| Clips.OutputPathIdempotent | blender_core.py:215-216 | preparing an already prepared output path changes nothing |
| Clips.MaxEnd | blender_core.py:233 | the frame end is the largest strip end, and some strip attains it |
| Clips.FrameEnd | blender_core.py:230-237 | the frame end is the largest strip end, or 100 when there are no strips |
| Clips.FinalizeRender | blender_core.py:209-237 | the resolution, frame rate, output path, first frame 1 and last frame are set as specified |
| Effects.EffectOf | blender_core.py:184-191 | the effect is a TRANSFORM named as asked, fed by the target, one channel up; it covers exactly the target's frames, because the host derives a one-input effect's range from its input |
| Effects.Transformed | blender_core.py:184-197 | the effect `transform_strip` leaves is `Transform_<name>`, fed by the target over its frames, with the truncated offsets and the rotation |
| Effects.Rotated | blender_core.py:436-447 | the effect `rotate_strip` leaves is `Rotate_<name>`, fed by the target over its frames, with the rotation and no offset |
| Effects.Translated | blender_core.py:457-469 | the effect `translate_strip` leaves is `Translate_<name>`, fed by the target over its frames, with the truncated offsets and no rotation |
| Effects.TransformCombines | blender_core.py:176-197 | apart from the name, a transform equals a rotation carrying a translation's offsets |
| Effects.TransformStrip | blender_core.py:175-197 | one effect `Transform_<name>` is appended with truncated offsets and the rotation, and nothing else changes |
| Effects.RotateStrip | blender_core.py:429-447 | an absent strip raises ValueError and changes nothing; otherwise one `Rotate_<name>` effect with that angle is appended |
| Effects.TranslateStrip | blender_core.py:450-469 | an absent strip raises ValueError and changes nothing; otherwise one `Translate_<name>` effect with truncated offsets is appended |
| MediaOps.EndsWithAnyIff | utils/ops.py:11 | `endswith` on a tuple holds exactly when some member is a suffix |
| MediaOps.Classify | utils/ops.py:9-19 | a path is routed to the audio adder exactly when its lower-cased form ends with an audio extension, and to the image adder only when it ends with an image extension |
| MediaOps.ClassifyByExtension | utils/ops.py:9-19 | a path is audio, image or video exactly by its lower-cased extension, with video the default |
| MediaOps.ClassifyIgnoresCase | utils/ops.py:9 | classifying a lower-cased path gives the same kind |
| MediaOps.ExtensionsDisjoint | utils/ops.py:11-13 | no path ends both with an audio and with an image extension, so the branch order does not matter |
| MediaOps.AddMedia | utils/ops.py:5-22 | a missing file raises FileNotFoundError and changes nothing; audio, image and video paths each append exactly their strip, and a video given an end is trimmed to `end_sec - start_sec` |
| MediaOps.RouteOf | utils/ops.py:32 | a strip goes to the audio scripts exactly when it is a SOUND strip |
| MediaOps.CutBetween | utils/ops.py:25-34 | an absent strip raises ValueError and changes nothing; otherwise the route follows the strip type and the cut is `CutSpec` at the truncated frames |
| MediaOps.SplitAtTimes | utils/ops.py:37-46 | an absent strip raises ValueError and changes nothing; otherwise the strip is split at the truncated frames and the prefixed names are returned |
| Registration.Decorations | blender_core.py:20-451 | the module applies the decorator seventeen times |
| Registration.RegisteredKeys | blender_core.py:8-12 | after registering, the names are those there before plus the registered ones |
| Registration.RegisteredLatest | blender_core.py:8-12 | the last registration under a name decides what the name maps to |
| Registration.RegisteredOthers | blender_core.py:8-12 | a name no decoration uses keeps its entry |
| Registration.DecorationNamesDistinct | blender_core.py:20-451 | the seventeen registered names are pairwise different |
| Registration.LoadedTable | blender_core.py:6-12 | once the module is loaded, `OPERATIONS` has exactly seventeen entries, each name mapped to the function decorated with it |
| Registration.OperationTable.constructor | blender_core.py:6 | the table starts empty |
| Registration.OperationTable.Register | blender_core.py:8-12 | the decorator stores the function under its name, replacing any earlier entry, and returns it unchanged |
| Registration.OperationTable.Load | blender_core.py:8-12 | running the decorators in order leaves the table `Registered` specifies |
| EditorTimeline.Clip.constructor | editor/models.py:5-12 | a clip holds its type, media duration, layer, start and optional end |
| EditorTimeline.Timeline.constructor | editor/timeline.py:6-7 | a new timeline has no layers |
| EditorTimeline.Timeline.AddClip | editor/timeline.py:9-12 | the clip's layer is set; it is appended to that layer's list, which is created last when absent; the other layers are unchanged |
| EditorTimeline.Timeline.ExportState | editor/timeline.py:14-26 | the nested loops build exactly the rows that `Entries` specifies |
| EditorTimeline.Timeline.LoadFromJson | editor/timeline.py:28-31 | loading walks the operations and leaves the timeline unchanged |
| EditorTimeline.RowAt | editor/timeline.py:18-25 | a layer gives one row per clip, in list order |
| EditorTimeline.EntriesCount | editor/timeline.py:16-26 | the summary has exactly one row per stored clip |
| EditorTimeline.EntriesAt | editor/timeline.py:17-25 | each clip's row sits after the rows of earlier layers and earlier clips. It carries the clip's type, start and duration and the layer it is stored under; its end is the clip's own end when set, the duration otherwise |
| EditorTimeline.ExportAfterAddNew | editor/timeline.py:12 | a clip added to a new layer gets the last row of the summary |
| EditorTimeline.ExportAfterAddExisting | editor/timeline.py:12 | a clip added to an existing layer adds exactly one row, the clip's own, right after the last row of that layer |

## Left out

- The host itself is a stand-in, as described above. The model's choices:
  - a split appends the right part at the end of the collection;
  - creation appends;
  - renames and creations make names unique Blender-style.

  The host's real strip order, channel collision handling and
  `type='SOFT', side='LEFT'` details are not modelled.
- Host.FreshName: duplicate names are `<name>.00` followed by the decimal
  number. This matches Blender's `.001`–`.009` for a name with no numeric
  suffix. The model departs from Blender in two ways:
  - from the tenth duplicate on, Blender pads to three digits (`.010`, which
    does not start with `.00`);
  - Blender first strips an existing `.NNN` suffix, so a duplicate of
    `clip.001` is `clip.002`, where the model gives `clip.001.001`. Splitting
    or cutting a fragment that an earlier split made therefore searches a
    different prefix in the model than on the host.
- Strip identity: the scripts hold strip objects across host calls. The model
  finds a strip again by its (unique) name, and renaming a strip already
  deleted is a `ReferenceError` outcome.
- Selection state, `scene.frame_current`, `_ensure_editor`'s creation of a
  missing editor, and logging/printing: these are not modelled.
- File-system and media reads are inputs:
  - `os.path.exists` is a boolean parameter;
  - the length `new_movie`/`new_sound`/`new_image`/`sound_strip_add` read
    from a file is a parameter;
  - `bpy.data.movieclips.load` gives an optional frame count, where `None` is
    the `except` path.
- Clips.FinalizeRender: the path is not made absolute (`os.path.abspath`).
  The FFmpeg settings, `bpy.ops.render.render` and the post-render existence
  check are not modelled.
- Clips.MergeStrips: `meta_make` is modelled as appending a META strip that
  lists the selected strips' names, in collection order and each once. Its channel, range and the removal of its members
  from the top level are not modelled.
- Text.Lower: only ASCII letters are lower-cased, where Python's
  `str.lower()` follows Unicode. Every extension the scripts test is ASCII.
- Floats are exact reals:
  - `int(x)` is truncation toward zero;
  - `round` is round-half-even;
  - binary rounding error in `t * fps` is not modelled.
- MediaOps.AddMedia takes the frames `sec2frame` computes as inputs.
  `utils/ops.py` imports `sec2frame` from `utils/common.py`, which does not
  define it. `Timing.Sec2Frame` models the definition in
  `utils/time_utils.py`.
- `utils/audio_utils.py`'s `add_audio_strip` has no existence check. It is
  `Clips.AddAudio` with `checkExists` false.
- Splitting.SplitStrip and Cutting.CutStrip take integer frames. The copies
  in `utils/clips.py`, `utils/clip_utils.py`, `utils/audio.py` and
  `utils/audio_utils.py` differ from the `blender_core.py` ones in logging,
  in the after-end search of `utils/clip_utils.py:66` (the `anySecondPart`
  flag), and in one more way: `utils/clip_utils.py:15,49` and
  `utils/audio_utils.py:31,55,114,131` read `scene.sequence_editor` without
  creating it first. On a scene with no sequence editor they raise
  AttributeError where `blender_core.py` creates the editor. The model
  always has an editor.
- `split_strip(strip, split_frame)` takes a strip object; it is
  `Host.Timeline.Split` on that strip's index.
- EditorTimeline: the moviepy clip object is reduced to its duration, and
  `export_state`'s `{'clips': [...]}` wrapper is the list itself.
  `load_from_json` takes the JSON object as a map from keys to lists.
- Registration: the stored callables are the values of an enumeration, one
  per decorated function.

## Findings

| source | as written | input that shows it | evidently intended | confidence | as-written member | corrected member |
|---|---|---|---|---|---|---|
| blender_core.py:288-319 (and the other four copies of the cut) | when the start frame is at or before the strip's first frame, the split at the start frame does nothing. The search `seqs.get(strip_name)` then finds the strip itself, which already holds [start, end_frame), and deletes it as "before start" along with the part after the end; no `.00` fragment ends by the end frame, so RuntimeError is raised after the strip is gone | a strip "clip" over frames [0, 100), `cut_video_strip("clip", 0.0, 2.0, 24)` (start frame 0, end frame 48): "clip" and "clip.001" are deleted and RuntimeError is raised | the documented result `<strip_name>_cut` holding the part of the strip inside [start, end), here [0, 48) | not executed | Cutting.CutAtStripStart | Cutting.CutFixed |
| blender_core.py:283-303 (and the other four copies of the cut) | the search for the part after the end frame takes the first strip in the collection that starts with `<name>.00` and starts after the end frame. An older fragment of the same strip, left by an earlier split, comes before the new one and is deleted in its place, and the new right part survives | a strip "clip" over [0, 100) beside "clip.001" over [100, 300), as a batch split leaves it, cut to frames [20, 50): "clip.001" is deleted and "clip.002" over [50, 100) is kept beside `clip_cut` | only [start, end) of the strip is kept, and no other strip is touched | not executed | Cutting.CutDeletesEarlierFragment | Cutting.CutFixed |
