/** The operation registry of blender_core.py: the `register(name)` decorator
    stores each decorated function in the module-level `OPERATIONS`
    dictionary under its name, and loading the module applies the decorator
    to the seventeen core operations in source order. */
module Registration {
  /** The callables the decorator stores, one per decorated function. */
  datatype Operation =
    | InitSequence | AddVideoStrip | AddAudioStrip | AddImageStrip
    | SplitStrip | DeleteStrip | MergeStrips | TransformStrip | FinalizeRender
    | SplitVideoStrip | CutVideoStrip | SplitAudioStrip | CutAudioStrip
    | SetAudioVolume | ExtractAudioFromVideo | RotateStrip | TranslateStrip

  /** The `@register(...)` applications, in the order the module executes them. */
  function Decorations(): (r: seq<(string, Operation)>)
    ensures |r| == 17
  {
    [ ("init_sequence", InitSequence),
      ("add_video_strip", AddVideoStrip),
      ("add_audio_strip", AddAudioStrip),
      ("add_image_strip", AddImageStrip),
      ("split_strip", SplitStrip),
      ("delete_strip", DeleteStrip),
      ("merge_strips", MergeStrips),
      ("transform_strip", TransformStrip),
      ("finalize_render", FinalizeRender),
      ("split_video_strip", SplitVideoStrip),
      ("cut_video_strip", CutVideoStrip),
      ("split_audio_strip", SplitAudioStrip),
      ("cut_audio_strip", CutAudioStrip),
      ("set_audio_volume", SetAudioVolume),
      ("extract_audio_from_video", ExtractAudioFromVideo),
      ("rotate_strip", RotateStrip),
      ("translate_strip", TranslateStrip) ]
  }

  /** The dictionary after registering `regs` one after the other on top of `m`. */
  function Registered(m: map<string, Operation>, regs: seq<(string, Operation)>): map<string, Operation>
    decreases |regs|
  {
    if regs == [] then m
    else Registered(m, regs[..|regs| - 1])[regs[|regs| - 1].0 := regs[|regs| - 1].1]
  }

  /** The names a registration sequence uses. */
  function NamesOf(regs: seq<(string, Operation)>): set<string> {
    set k | 0 <= k < |regs| :: regs[k].0
  }

  /** A name is registered exactly when it was there before or some
      decoration uses it. */
  lemma {:induction false} RegisteredKeys(m: map<string, Operation>, regs: seq<(string, Operation)>)
    ensures Registered(m, regs).Keys == m.Keys + NamesOf(regs)
    decreases |regs|
  {
    if regs != [] {
      var front := regs[..|regs| - 1];
      RegisteredKeys(m, front);
      assert NamesOf(regs) == NamesOf(front) + {regs[|regs| - 1].0} by {
        forall x | x in NamesOf(regs) ensures x in NamesOf(front) + {regs[|regs| - 1].0} {
          var k :| 0 <= k < |regs| && regs[k].0 == x;
          if k < |regs| - 1 { assert front[k] == regs[k]; }
        }
        forall x | x in NamesOf(front) ensures x in NamesOf(regs) {
          var k :| 0 <= k < |front| && front[k].0 == x;
          assert regs[k] == front[k];
        }
      }
    }
  }

  /** The latest registration under a name wins. */
  lemma {:induction false} RegisteredLatest(m: map<string, Operation>, regs: seq<(string, Operation)>, k: nat)
    requires k < |regs|
    requires forall j :: k < j < |regs| ==> regs[j].0 != regs[k].0
    ensures regs[k].0 in Registered(m, regs) && Registered(m, regs)[regs[k].0] == regs[k].1
    decreases |regs|
  {
    if k < |regs| - 1 {
      var front := regs[..|regs| - 1];
      assert front[k] == regs[k];
      forall j | k < j < |front| ensures front[j].0 != front[k].0 {
        assert front[j] == regs[j];
      }
      RegisteredLatest(m, front, k);
    }
  }

  /** A name no decoration uses keeps whatever it had before. */
  lemma {:induction false} RegisteredOthers(m: map<string, Operation>, regs: seq<(string, Operation)>, name: string)
    requires forall j :: 0 <= j < |regs| ==> regs[j].0 != name
    ensures name in Registered(m, regs) <==> name in m
    ensures name in m ==> Registered(m, regs)[name] == m[name]
    decreases |regs|
  {
    if regs != [] {
      var front := regs[..|regs| - 1];
      forall j | 0 <= j < |front| ensures front[j].0 != name {
        assert front[j] == regs[j];
      }
      RegisteredOthers(m, front, name);
    }
  }

  /** The seventeen decorated names are pairwise different. */
  lemma DecorationNamesDistinct()
    ensures forall j, k :: 0 <= j < k < |Decorations()| ==> Decorations()[j].0 != Decorations()[k].0
  {
  }

  /** Once the module is loaded into an empty dictionary, `OPERATIONS` holds
      exactly the seventeen names, each mapped to the function decorated
      with it. */
  lemma LoadedTable()
    ensures Registered(map[], Decorations()).Keys == NamesOf(Decorations())
    ensures |Registered(map[], Decorations()).Keys| == 17
    ensures forall k :: 0 <= k < |Decorations()| ==>
      Registered(map[], Decorations())[Decorations()[k].0] == Decorations()[k].1
  {
    var d := Decorations();
    RegisteredKeys(map[], d);
    DecorationNamesDistinct();
    forall k | 0 <= k < |d| ensures Registered(map[], d)[d[k].0] == d[k].1 {
      RegisteredLatest(map[], d, k);
    }
    DistinctNamesCount(d);
  }

  /** Distinct names: as many names as registrations. */
  lemma {:induction false} DistinctNamesCount(regs: seq<(string, Operation)>)
    requires forall j, k :: 0 <= j < k < |regs| ==> regs[j].0 != regs[k].0
    ensures |NamesOf(regs)| == |regs|
    decreases |regs|
  {
    if regs != [] {
      var front := regs[..|regs| - 1];
      var last := regs[|regs| - 1].0;
      forall j, k | 0 <= j < k < |front| ensures front[j].0 != front[k].0 {
        assert front[j] == regs[j] && front[k] == regs[k];
      }
      DistinctNamesCount(front);
      assert NamesOf(regs) == NamesOf(front) + {last} by {
        forall x | x in NamesOf(regs) ensures x in NamesOf(front) + {last} {
          var k :| 0 <= k < |regs| && regs[k].0 == x;
          if k < |regs| - 1 { assert front[k] == regs[k]; }
        }
        forall x | x in NamesOf(front) ensures x in NamesOf(regs) {
          var k :| 0 <= k < |front| && front[k].0 == x;
          assert regs[k] == front[k];
        }
      }
      forall k | 0 <= k < |front| ensures front[k].0 != last {
        assert front[k] == regs[k];
      }
      assert last !in NamesOf(front);
    }
  }

  /** The module-level `OPERATIONS` dictionary. */
  class OperationTable {
    var operations: map<string, Operation>

    /** `OPERATIONS: dict[str, callable] = {}`. */
    constructor()
      ensures operations == map[]
    {
      operations := map[];
    }

    /** `register(name)(fn)`: stores `fn` under `name`, replacing any earlier
        entry, and hands `fn` back unchanged. */
    method Register(name: string, fn: Operation) returns (r: Operation)
      modifies this
      ensures operations == old(operations)[name := fn]
      ensures r == fn
    {
      operations := operations[name := fn];
      r := fn;
    }

    /** Executing the module's decorators in order. */
    method Load()
      modifies this
      ensures operations == Registered(old(operations), Decorations())
    {
      var regs := Decorations();
      var k := 0;
      while k < |regs|
        invariant 0 <= k <= |regs|
        invariant operations == Registered(old(operations), regs[..k])
      {
        assert regs[..k + 1][..k] == regs[..k];
        var _ := Register(regs[k].0, regs[k].1);
        k := k + 1;
      }
      assert regs[..k] == regs;
    }
  }
}
