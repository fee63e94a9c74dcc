/** The host-independent timeline of editor/timeline.py: clips kept in one
    list per layer, in a dictionary whose keys iterate in insertion order,
    and flattened layer by layer into a summary. */
module EditorTimeline {
  import opened Wrappers

  /** A clip as editor/models.py describes it. Only `layer` is ever assigned
      after construction; `duration` is the wrapped media clip's duration. */
  class Clip {
    const kind: string
    const duration: real
    const start: real
    const end: Option<real>
    var layer: int

    constructor(kind: string, duration: real, layer: int, start: real, end: Option<real>)
      ensures this.kind == kind && this.duration == duration && this.layer == layer
      ensures this.start == start && this.end == end
    {
      this.kind := kind;
      this.duration := duration;
      this.layer := layer;
      this.start := start;
      this.end := end;
    }
  }

  /** One row of the exported summary. */
  datatype Entry = Entry(kind: string, layer: int, start: real, end: real, duration: real)

  /** The summary row of clip `c` stored under `layer`. */
  function EntryOf(layer: int, c: Clip): Entry {
    Entry(c.kind, layer, c.start, if c.end.Some? then c.end.value else c.duration, c.duration)
  }

  /** The rows of one layer's list, in list order. */
  function Row(layer: int, cs: seq<Clip>): seq<Entry> {
    if cs == [] then [] else Row(layer, cs[..|cs| - 1]) + [EntryOf(layer, cs[|cs| - 1])]
  }

  predicate Stored(order: seq<int>, clips: map<int, seq<Clip>>) {
    forall j :: 0 <= j < |order| ==> order[j] in clips
  }

  /** The rows of every layer, layer by layer in `order`. */
  function Entries(order: seq<int>, clips: map<int, seq<Clip>>): seq<Entry>
    requires Stored(order, clips)
  {
    if order == [] then []
    else Entries(order[..|order| - 1], clips) + Row(order[|order| - 1], clips[order[|order| - 1]])
  }

  /** The number of stored clips, summed layer by layer. */
  function Total(order: seq<int>, clips: map<int, seq<Clip>>): nat
    requires Stored(order, clips)
  {
    if order == [] then 0
    else Total(order[..|order| - 1], clips) + |clips[order[|order| - 1]]|
  }

  /** Row `k` of a layer describes clip `k` of its list. */
  lemma {:induction false} RowAt(layer: int, cs: seq<Clip>)
    ensures |Row(layer, cs)| == |cs|
    ensures forall k :: 0 <= k < |cs| ==> Row(layer, cs)[k] == EntryOf(layer, cs[k])
    decreases |cs|
  {
    if cs != [] {
      var front := cs[..|cs| - 1];
      RowAt(layer, front);
      forall k | 0 <= k < |cs| ensures Row(layer, cs)[k] == EntryOf(layer, cs[k]) {
        if k < |front| { assert front[k] == cs[k]; }
      }
    }
  }

  /** The summary has exactly one row per stored clip. */
  lemma {:induction false} EntriesCount(order: seq<int>, clips: map<int, seq<Clip>>)
    requires Stored(order, clips)
    ensures |Entries(order, clips)| == Total(order, clips)
    decreases |order|
  {
    if order != [] {
      var l := order[|order| - 1];
      EntriesCount(order[..|order| - 1], clips);
      RowAt(l, clips[l]);
    }
  }

  /** Clip `k` of layer `order[j]` is described by the row that follows the
      rows of the layers before it and of the clips before it in its list:
      its kind, start and duration, the layer it is stored under, and its
      own end when it has one, its duration otherwise. */
  lemma {:induction false} EntriesAt(order: seq<int>, clips: map<int, seq<Clip>>, j: nat, k: nat)
    requires Stored(order, clips) && j < |order| && k < |clips[order[j]]|
    ensures var c := clips[order[j]][k];
      var n := Total(order[..j], clips) + k;
      && n < |Entries(order, clips)|
      && Entries(order, clips)[n] == EntryOf(order[j], c)
      && Entries(order, clips)[n].layer == order[j]
      && Entries(order, clips)[n].kind == c.kind
      && Entries(order, clips)[n].start == c.start
      && Entries(order, clips)[n].end == (if c.end.Some? then c.end.value else c.duration)
      && Entries(order, clips)[n].duration == c.duration
    decreases |order|
  {
    var front := order[..|order| - 1];
    var l := order[|order| - 1];
    EntriesCount(front, clips);
    RowAt(l, clips[l]);
    if j == |order| - 1 {
      assert order[..j] == front;
    } else {
      assert front[j] == order[j];
      assert front[..j] == order[..j];
      EntriesAt(front, clips, j, k);
    }
  }

  /** Rows do not depend on layers outside `order`. */
  lemma {:induction false} EntriesElsewhere(order: seq<int>, clips: map<int, seq<Clip>>, l: int, v: seq<Clip>)
    requires Stored(order, clips) && l !in order
    ensures Stored(order, clips[l := v])
    ensures Entries(order, clips[l := v]) == Entries(order, clips)
    decreases |order|
  {
    if order != [] {
      var front := order[..|order| - 1];
      assert forall x :: x in front ==> x in order;
      EntriesElsewhere(front, clips, l, v);
    }
  }

  /** Counts do not depend on layers outside `order`. */
  lemma {:induction false} TotalElsewhere(order: seq<int>, clips: map<int, seq<Clip>>, l: int, v: seq<Clip>)
    requires Stored(order, clips) && l !in order
    ensures Stored(order, clips[l := v])
    ensures Total(order, clips[l := v]) == Total(order, clips)
    decreases |order|
  {
    if order != [] {
      var front := order[..|order| - 1];
      assert forall x :: x in front ==> x in order;
      TotalElsewhere(front, clips, l, v);
    }
  }

  /** Replacing the list of a layer that occurs once in `order` changes the
      count by the difference in length. */
  lemma {:induction false} TotalReplace(order: seq<int>, clips: map<int, seq<Clip>>, l: int, v: seq<Clip>)
    requires Stored(order, clips) && Distinct(order) && l in order
    ensures Stored(order, clips[l := v])
    ensures Total(order, clips[l := v]) == Total(order, clips) - |clips[l]| + |v|
    decreases |order|
  {
    var front := order[..|order| - 1];
    var last := order[|order| - 1];
    if last == l {
      assert l !in front by {
        forall x | 0 <= x < |front| ensures front[x] != l {
          assert front[x] == order[x];
        }
      }
      TotalElsewhere(front, clips, l, v);
    } else {
      assert l in front by {
        var x :| 0 <= x < |order| && order[x] == l;
        assert front[x] == l;
      }
      assert Distinct(front) by {
        forall x, y | 0 <= x < y < |front| ensures front[x] != front[y] {
          assert front[x] == order[x] && front[y] == order[y];
        }
      }
      TotalReplace(front, clips, l, v);
    }
  }

  predicate Distinct(order: seq<int>) {
    forall x, y :: 0 <= x < y < |order| ==> order[x] != order[y]
  }

  /** Adding a clip to a layer that has none yet appends its row after all
      the others. */
  lemma ExportAfterAddNew(order: seq<int>, clips: map<int, seq<Clip>>, c: Clip, layer: int)
    requires Stored(order, clips) && layer !in order
    ensures Stored(order + [layer], clips[layer := [c]])
    ensures Entries(order + [layer], clips[layer := [c]]) == Entries(order, clips) + [EntryOf(layer, c)]
  {
    var o := order + [layer];
    assert o[..|o| - 1] == order;
    EntriesElsewhere(order, clips, layer, [c]);
    assert Row(layer, [c]) == [EntryOf(layer, c)] by {
      assert [c][..0] == [];
    }
  }

  /** Adding a clip to a layer that already has some adds exactly one row,
      the clip's own, right after the last row of that layer. */
  lemma ExportAfterAddExisting(order: seq<int>, clips: map<int, seq<Clip>>, c: Clip, layer: int)
    requires Stored(order, clips) && Distinct(order) && layer in order && layer in clips
    ensures Stored(order, clips[layer := clips[layer] + [c]])
    ensures |Entries(order, clips[layer := clips[layer] + [c]])| == |Entries(order, clips)| + 1
    ensures forall j :: 0 <= j < |order| && order[j] == layer ==>
      var n := Total(order[..j], clips) + |clips[layer]|;
      n < |Entries(order, clips[layer := clips[layer] + [c]])| &&
      Entries(order, clips[layer := clips[layer] + [c]])[n] == EntryOf(layer, c)
  {
    var v := clips[layer] + [c];
    TotalReplace(order, clips, layer, v);
    EntriesCount(order, clips);
    EntriesCount(order, clips[layer := v]);
    forall j | 0 <= j < |order| && order[j] == layer
      ensures Total(order[..j], clips) + |clips[layer]| < |Entries(order, clips[layer := v])|
      ensures Entries(order, clips[layer := v])[Total(order[..j], clips) + |clips[layer]|] == EntryOf(layer, c)
    {
      assert layer !in order[..j] by {
        forall x | 0 <= x < j ensures order[..j][x] != layer {
          assert order[..j][x] == order[x];
        }
      }
      assert Stored(order[..j], clips) by {
        forall x | 0 <= x < j ensures order[..j][x] in clips {
          assert order[..j][x] == order[x];
        }
      }
      TotalElsewhere(order[..j], clips, layer, v);
      EntriesAt(order, clips[layer := v], j, |clips[layer]|);
    }
  }

  /** The `Timeline` of editor/timeline.py. `clips` is the dictionary and
      `order` its keys in insertion order, the order `items()` yields them. */
  class Timeline {
    var order: seq<int>
    var clips: map<int, seq<Clip>>

    ghost predicate Valid()
      reads this
    {
      && Distinct(order)
      && (forall l :: l in clips <==> l in order)
    }

    /** A new timeline has no layers. */
    constructor()
      ensures Valid() && order == [] && clips == map[]
    {
      order := [];
      clips := map[];
    }

    /** `add_clip`: sets the clip's layer and appends it to that layer's list,
        creating the list (as the last key) when the layer had none. */
    method AddClip(c: Clip, layer: int)
      requires Valid()
      modifies this, c
      ensures Valid()
      ensures c.layer == layer
      ensures order == if layer in old(clips) then old(order) else old(order) + [layer]
      ensures clips == old(clips)[layer := (if layer in old(clips) then old(clips)[layer] else []) + [c]]
    {
      c.layer := layer;
      if layer !in clips {
        clips := clips[layer := []];
        order := order + [layer];
      }
      clips := clips[layer := clips[layer] + [c]];
    }

    /** `export_state`: the rows of every clip, layer by layer in key order
        and clip by clip in list order (the list under the `'clips'` key). */
    method ExportState() returns (state: seq<Entry>)
      requires Valid()
      ensures Stored(order, clips) && state == Entries(order, clips)
    {
      state := [];
      var j := 0;
      while j < |order|
        invariant 0 <= j <= |order|
        invariant Stored(order[..j], clips)
        invariant state == Entries(order[..j], clips)
      {
        var layer := order[j];
        var cs := clips[layer];
        ghost var before := state;
        var k := 0;
        while k < |cs|
          invariant 0 <= k <= |cs|
          invariant state == before + Row(layer, cs[..k])
        {
          assert cs[..k + 1][..k] == cs[..k];
          state := state + [EntryOf(layer, cs[k])];
          k := k + 1;
        }
        assert cs[..k] == cs;
        assert order[..j + 1][..j] == order[..j];
        j := j + 1;
      }
      assert order[..j] == order;
    }

    /** `load_from_json`: walks the `'operations'` list (empty when absent)
        and does nothing with it. */
    method LoadFromJson<Op>(jsonData: map<string, seq<Op>>)
      requires Valid()
      ensures Valid() && unchanged(this)
    {
      var ops := if "operations" in jsonData then jsonData["operations"] else [];
      var k := 0;
      while k < |ops|
        invariant 0 <= k <= |ops|
      {
        k := k + 1;
      }
    }
  }
}
