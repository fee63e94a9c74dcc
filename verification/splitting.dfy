/** Batch split (`split_video_strip` / `split_audio_strip`): the requested
    frames are sorted, then applied from the highest down, always to the same
    strip, and the names of all strips sharing the strip's name as a prefix are
    returned. The five copies of this code in the repository are identical
    apart from logging and are modelled once. */
module Splitting {
  import opened Wrappers
  import opened Text
  import opened Host

  predicate Sorted(fs: seq<int>) {
    forall j, k :: 0 <= j < k < |fs| ==> fs[j] <= fs[k]
  }

  function Insert(x: int, fs: seq<int>): (r: seq<int>)
    requires Sorted(fs)
    ensures Sorted(r) && multiset(r) == multiset(fs) + multiset{x}
  {
    if fs == [] || x <= fs[0] then [x] + fs
    else
      var rest := Insert(x, fs[1..]);
      InsertBehindHead(x, fs, rest);
      [fs[0]] + rest
  }

  /** Putting the head of `fs` before `x` inserted into its tail. */
  lemma InsertBehindHead(x: int, fs: seq<int>, rest: seq<int>)
    requires Sorted(fs) && fs != [] && fs[0] < x
    requires Sorted(rest) && multiset(rest) == multiset(fs[1..]) + multiset{x}
    ensures Sorted([fs[0]] + rest) && multiset([fs[0]] + rest) == multiset(fs) + multiset{x}
  {
    assert fs == [fs[0]] + fs[1..];
    forall k | 0 <= k < |rest|
      ensures fs[0] <= rest[k]
    {
      assert rest[k] in multiset(rest);
      if rest[k] != x {
        assert rest[k] in multiset(fs[1..]);
      }
    }
  }

  /** Python's `sorted` on the frame list. */
  function SortAsc(fs: seq<int>): (r: seq<int>)
    ensures Sorted(r) && multiset(r) == multiset(fs)
  {
    if fs == [] then []
    else
      assert fs == [fs[0]] + fs[1..];
      Insert(fs[0], SortAsc(fs[1..]))
  }

  lemma HeadIsLeast(a: seq<int>, x: int)
    requires Sorted(a) && x in multiset(a)
    ensures a[0] <= x
  {
    assert x in a;
  }

  lemma MultisetTail(a: seq<int>)
    requires a != []
    ensures multiset(a[1..]) == multiset(a) - multiset{a[0]}
  {
    assert a == [a[0]] + a[1..];
  }

  /** Two sorted arrangements of one non-empty multiset share their head, and
      their tails are sorted arrangements of one multiset. */
  lemma SameHead(a: seq<int>, b: seq<int>)
    requires Sorted(a) && Sorted(b) && multiset(a) == multiset(b) && a != [] && b != []
    ensures a[0] == b[0] && multiset(a[1..]) == multiset(b[1..])
    ensures Sorted(a[1..]) && Sorted(b[1..])
  {
    assert a[0] in multiset(a) && b[0] in multiset(b);
    HeadIsLeast(a, b[0]);
    HeadIsLeast(b, a[0]);
    MultisetTail(a);
    MultisetTail(b);
  }

  /** A sorted arrangement of a multiset is unique. */
  lemma {:induction false} SortedUnique(a: seq<int>, b: seq<int>)
    requires Sorted(a) && Sorted(b) && multiset(a) == multiset(b)
    ensures a == b
  {
    if a == [] || b == [] {
      assert |a| == |multiset(a)| && |b| == |multiset(b)|;
    } else {
      SameHead(a, b);
      SortedUnique(a[1..], b[1..]);
      assert a == [a[0]] + a[1..] && b == [b[0]] + b[1..];
    }
  }

  /** The order in which split times are given does not matter. */
  lemma BatchOrderIrrelevant(frames1: seq<int>, frames2: seq<int>)
    requires multiset(frames1) == multiset(frames2)
    ensures SortAsc(frames1) == SortAsc(frames2)
  {
    SortedUnique(SortAsc(frames1), SortAsc(frames2));
  }

  /** `for f in reversed(frames): split(strip, f)` with `frames` sorted
      ascending: the last frame is applied first. */
  function SplitDown(s: seq<Strip>, i: nat, fs: seq<int>): (r: seq<Strip>)
    requires i < |s|
    ensures |s| <= |r|
    ensures UniqueNames(s) ==> UniqueNames(r)
    decreases |fs|
  {
    if fs == [] then s
    else SplitDown(SplitAt(s, i, fs[|fs| - 1]), i, fs[..|fs| - 1])
  }

  /** `[s.name for s in seqs if s.name.startswith(p)]`. */
  function NamesWithPrefix(s: seq<Strip>, p: string): (r: seq<string>)
    ensures |r| <= |s|
    ensures forall x :: x in r <==> exists j :: 0 <= j < |s| && s[j].name == x && StartsWith(x, p)
  {
    if s == [] then []
    else
      assert forall j :: 1 <= j < |s| ==> s[j] == s[1..][j - 1];
      (if StartsWith(s[0].name, p) then [s[0].name] else []) + NamesWithPrefix(s[1..], p)
  }

  /** The names come in collection order, one per matching strip: the list
      for two runs of strips is the list for the first, then the second's. */
  lemma {:induction false} NamesWithPrefixAppend(s1: seq<Strip>, s2: seq<Strip>, p: string)
    ensures NamesWithPrefix(s1 + s2, p) == NamesWithPrefix(s1, p) + NamesWithPrefix(s2, p)
    decreases |s1|
  {
    if s1 == [] {
      assert s1 + s2 == s2;
    } else {
      assert (s1 + s2)[0] == s1[0];
      assert (s1 + s2)[1..] == s1[1..] + s2;
      NamesWithPrefixAppend(s1[1..], s2, p);
    }
  }

  /** A single strip contributes its name exactly when it has the prefix. */
  lemma NamesWithPrefixOne(x: Strip, p: string)
    ensures NamesWithPrefix([x], p) == if StartsWith(x.name, p) then [x.name] else []
  {
    assert [x][1..] == [];
  }

  function Reverse(x: seq<Strip>): (r: seq<Strip>)
    ensures |r| == |x|
    ensures forall k :: 0 <= k < |x| ==> r[k] == x[|x| - 1 - k]
  {
    if x == [] then [] else Reverse(x[1..]) + [x[0]]
  }

  /** The fragments of strip `i` after a batch split that started with `n`
      strips, from left to right: the strip itself, then the appended
      fragments, which descending splits append right to left. */
  function Pieces(r: seq<Strip>, i: nat, n: nat): seq<Strip>
    requires i < n <= |r|
  {
    [r[i]] + Reverse(r[n..])
  }

  /** `p` are non-empty, contiguous and cover exactly [lo, hi). */
  predicate Tiles(p: seq<Strip>, lo: int, hi: int) {
    && |p| > 0
    && p[0].start == lo
    && p[|p| - 1].end == hi
    && (forall k :: 0 <= k < |p| ==> p[k].start < p[k].end)
    && (forall k :: 0 <= k < |p| - 1 ==> p[k].end == p[k + 1].start)
  }

  /** The frames at which one fragment ends and the next begins. */
  function Bounds(p: seq<Strip>): set<int> {
    set k | 1 <= k < |p| :: p[k].start
  }

  function InRange(fs: seq<int>, lo: int, hi: int): set<int> {
    set f | f in fs && lo < f < hi
  }

  function Starts(p: seq<Strip>): set<int> {
    set k | 0 <= k < |p| :: p[k].start
  }

  lemma BoundsOfCons(x: Strip, rest: seq<Strip>)
    ensures Bounds([x] + rest) == Starts(rest)
  {
    var p := [x] + rest;
    forall v | v in Bounds(p) ensures v in Starts(rest) {
      var m :| 1 <= m < |p| && p[m].start == v;
      assert rest[m - 1] == p[m];
    }
    forall k | 0 <= k < |rest| ensures rest[k].start in Bounds(p) {
      assert p[k + 1] == rest[k];
    }
  }

  lemma StartsOfCons(x: Strip, rest: seq<Strip>)
    ensures Starts([x] + rest) == {x.start} + Starts(rest)
  {
    var p := [x] + rest;
    forall v | v in Starts(p) ensures v in {x.start} + Starts(rest) {
      var m :| 0 <= m < |p| && p[m].start == v;
      if m > 0 { assert rest[m - 1] == p[m]; }
    }
    forall k | 0 <= k < |rest| ensures rest[k].start in Starts(p) {
      assert p[k + 1] == rest[k];
    }
    assert p[0] == x;
  }

  lemma TilesSplitHead(a0: Strip, a: Strip, x: Strip, rest: seq<Strip>, lo: int, hi: int)
    requires Tiles([a0] + rest, lo, hi)
    requires a.start == a0.start && a.end == x.start && x.end == a0.end
    requires a.start < a.end && x.start < x.end
    ensures Tiles([a] + ([x] + rest), lo, hi)
  {
    var p := [a0] + rest;
    var q := [a] + ([x] + rest);
    assert forall k :: 2 <= k < |q| ==> q[k] == p[k - 1];
    assert |p| > 1 ==> p[1] == q[2];
  }

  lemma ReverseSnoc(x: seq<Strip>, y: Strip)
    ensures Reverse(x + [y]) == [y] + Reverse(x)
  {
    assert forall k :: 1 <= k < |x| + 1 ==> Reverse(x + [y])[k] == Reverse(x)[k - 1];
  }

  /** What one split of the leftmost fragment does to the pieces. */
  lemma SplitStepInside(r: seq<Strip>, i: nat, n: nat, f: int, lo: int, hi: int)
    requires i < n <= |r|
    requires Tiles(Pieces(r, i, n), lo, hi)
    requires r[i].start < f < r[i].end
    ensures var r1 := SplitAt(r, i, f);
      && Tiles(Pieces(r1, i, n), lo, hi)
      && Bounds(Pieces(r1, i, n)) == Bounds(Pieces(r, i, n)) + {f}
  {
    var r1 := SplitAt(r, i, f);
    var rest := Reverse(r[n..]);
    var x := r1[|r|];
    assert r1[n..] == r[n..] + [x];
    ReverseSnoc(r[n..], x);
    assert Pieces(r1, i, n) == [r1[i]] + ([x] + rest);
    TilesSplitHead(r[i], r1[i], x, rest, lo, hi);
    BoundsOfCons(r[i], rest);
    BoundsOfCons(r1[i], [x] + rest);
    StartsOfCons(x, rest);
  }

  lemma SplitStepOutside(r: seq<Strip>, i: nat, n: nat, f: int, lo: int, hi: int)
    requires i < n <= |r|
    requires Tiles(Pieces(r, i, n), lo, hi)
    requires f < hi ==> f <= r[i].end
    requires !(r[i].start < f < r[i].end)
    ensures SplitAt(r, i, f) == r
    ensures lo < f < hi ==> f in Bounds(Pieces(r, i, n))
  {
    var p := Pieces(r, i, n);
    if lo < f < hi {
      assert f == r[i].end;
      assert |p| > 1;
      assert p[1].start == f;
    }
  }

  /** The fragment facts every split keeps. */
  lemma SplitStepNames(r: seq<Strip>, i: nat, n: nat, f: int, orig: Strip)
    requires i < n <= |r|
    requires r[i].name == orig.name && FragmentOf(r[i], orig)
    requires forall j :: n <= j < |r| ==> StartsWith(r[j].name, orig.name + ".00") && FragmentOf(r[j], orig)
    ensures var r1 := SplitAt(r, i, f);
      && r1[i].name == orig.name && FragmentOf(r1[i], orig)
      && (forall j :: 0 <= j < n ==> j != i ==> r1[j] == r[j])
      && (forall j :: n <= j < |r1| ==> StartsWith(r1[j].name, orig.name + ".00") && FragmentOf(r1[j], orig))
  {
  }

  /** One split of the leftmost fragment, whichever side of it `f` falls. */
  lemma SplitStepTiles(r: seq<Strip>, i: nat, n: nat, f: int, lo: int, hi: int)
    requires i < n <= |r|
    requires Tiles(Pieces(r, i, n), lo, hi) && r[i].end <= hi
    requires f < hi ==> f <= r[i].end
    ensures var r1 := SplitAt(r, i, f);
      && i < |r1|
      && Tiles(Pieces(r1, i, n), lo, hi)
      && Bounds(Pieces(r1, i, n)) == Bounds(Pieces(r, i, n)) + (if lo < f < hi then {f} else {})
      && r1[i].end == (if r[i].start < f < r[i].end then f else r[i].end)
  {
    if r[i].start < f < r[i].end {
      SplitStepInside(r, i, n, f, lo, hi);
    } else {
      SplitStepOutside(r, i, n, f, lo, hi);
    }
  }

  lemma InRangeSnoc(front: seq<int>, f: int, lo: int, hi: int)
    ensures InRange(front + [f], lo, hi) == InRange(front, lo, hi) + (if lo < f < hi then {f} else {})
  {
  }

  lemma {:induction false} SplitDownTiles(r: seq<Strip>, i: nat, n: nat, fs: seq<int>, lo: int, hi: int)
    requires i < n <= |r|
    requires Sorted(fs)
    requires Tiles(Pieces(r, i, n), lo, hi) && r[i].end <= hi
    requires forall k :: 0 <= k < |fs| ==> fs[k] < hi ==> fs[k] <= r[i].end
    ensures Tiles(Pieces(SplitDown(r, i, fs), i, n), lo, hi)
    ensures Bounds(Pieces(SplitDown(r, i, fs), i, n)) == Bounds(Pieces(r, i, n)) + InRange(fs, lo, hi)
    decreases |fs|
  {
    if fs != [] {
      var f := fs[|fs| - 1];
      var front := fs[..|fs| - 1];
      var r1 := SplitAt(r, i, f);
      LastOff(fs);
      SplitDownLast(r, i, fs, |fs|);
      SplitStepTiles(r, i, n, f, lo, hi);
      FrontBelowEnd(fs, hi, r[i].end, r1[i].end);
      SplitDownTiles(r1, i, n, front, lo, hi);
      InRangeSnoc(front, f, lo, hi);
      UnionChain(Bounds(Pieces(r, i, n)), Bounds(Pieces(r1, i, n)), Bounds(Pieces(SplitDown(r1, i, front), i, n)),
                 if lo < f < hi then {f} else {}, InRange(front, lo, hi), InRange(fs, lo, hi));
    }
  }

  lemma LastOff(fs: seq<int>)
    requires fs != []
    ensures fs[..|fs|] == fs && fs == fs[..|fs| - 1] + [fs[|fs| - 1]]
  {
  }

  lemma UnionChain(b0: set<int>, b1: set<int>, b2: set<int>, x: set<int>, y: set<int>, z: set<int>)
    requires b1 == b0 + x && b2 == b1 + y && z == y + x
    ensures b2 == b0 + z
  {
  }

  /** The frames left after the last one still lie within the shortened strip. */
  lemma FrontBelowEnd(fs: seq<int>, hi: int, end0: int, end1: int)
    requires Sorted(fs) && fs != []
    requires forall k :: 0 <= k < |fs| ==> fs[k] < hi ==> fs[k] <= end0
    requires end1 == end0 || end1 == fs[|fs| - 1]
    ensures Sorted(fs[..|fs| - 1])
    ensures forall k :: 0 <= k < |fs| - 1 ==> fs[k] < hi ==> fs[k] <= end1
  {
    assert forall k :: 0 <= k < |fs| - 1 ==> fs[k] <= fs[|fs| - 1];
  }

  lemma {:induction false} SplitDownFragments(r: seq<Strip>, i: nat, n: nat, fs: seq<int>, orig: Strip)
    requires i < n <= |r|
    requires r[i].name == orig.name && FragmentOf(r[i], orig)
    requires forall j :: n <= j < |r| ==> StartsWith(r[j].name, orig.name + ".00") && FragmentOf(r[j], orig)
    ensures var r' := SplitDown(r, i, fs);
      && r'[i].name == orig.name && FragmentOf(r'[i], orig)
      && (forall j :: 0 <= j < n ==> j != i ==> r'[j] == r[j])
      && (forall j :: n <= j < |r'| ==> StartsWith(r'[j].name, orig.name + ".00") && FragmentOf(r'[j], orig))
    decreases |fs|
  {
    if fs != [] {
      var f := fs[|fs| - 1];
      var front := fs[..|fs| - 1];
      SplitStepNames(r, i, n, f, orig);
      SplitDownFragments(SplitAt(r, i, f), i, n, front, orig);
    }
  }

  lemma SortedFrames(frames: seq<int>, lo: int, hi: int)
    ensures InRange(SortAsc(frames), lo, hi) == InRange(frames, lo, hi)
  {
    var sorted := SortAsc(frames);
    forall f ensures f in sorted <==> f in frames {
      assert f in sorted <==> f in multiset(sorted);
    }
  }

  /** Before any split the strip is its only piece. */
  lemma PiecesBefore(s: seq<Strip>, i: nat)
    requires i < |s| && s[i].start < s[i].end
    ensures Tiles(Pieces(s, i, |s|), s[i].start, s[i].end) && Bounds(Pieces(s, i, |s|)) == {}
  {
    assert Pieces(s, i, |s|) == [s[i]];
  }

  /** A batch split leaves the split strip and its new fragments as contiguous,
      non-empty pieces covering exactly the original range, cut exactly at the
      requested frames that lie strictly inside it. */
  lemma BatchSplitCovers(s: seq<Strip>, i: nat, frames: seq<int>)
    requires i < |s| && s[i].start < s[i].end
    ensures var p := Pieces(SplitDown(s, i, SortAsc(frames)), i, |s|);
      && Tiles(p, s[i].start, s[i].end)
      && Bounds(p) == InRange(frames, s[i].start, s[i].end)
  {
    var sorted := SortAsc(frames);
    PiecesBefore(s, i);
    SplitDownTiles(s, i, |s|, sorted, s[i].start, s[i].end);
    SortedFrames(frames, s[i].start, s[i].end);
  }

  /** When the strip and every strip from `n` on are fragments named after
      `orig`, so is each piece. */
  lemma PiecesAreFragments(r: seq<Strip>, i: nat, n: nat, orig: Strip)
    requires i < n <= |r|
    requires r[i].name == orig.name && FragmentOf(r[i], orig)
    requires forall j :: n <= j < |r| ==> StartsWith(r[j].name, orig.name + ".00") && FragmentOf(r[j], orig)
    ensures var p := Pieces(r, i, n);
      forall k :: 0 <= k < |p| ==> FragmentOf(p[k], orig) && StartsWith(p[k].name, orig.name)
  {
    var p := Pieces(r, i, n);
    forall k | 0 <= k < |p|
      ensures FragmentOf(p[k], orig) && StartsWith(p[k].name, orig.name)
    {
      if k > 0 {
        assert p[k] == r[|r| - k];
        PrefixOfPrefix(p[k].name, orig.name, ".00");
      } else {
        assert p[k].name[..|orig.name|] == orig.name;
      }
    }
  }

  /** Each piece of a batch split is a copy of the original strip under a name
      starting with the original's, and no other strip changes. */
  lemma BatchSplitFragments(s: seq<Strip>, i: nat, frames: seq<int>)
    requires i < |s|
    ensures var r := SplitDown(s, i, SortAsc(frames));
      var p := Pieces(r, i, |s|);
      && (forall j :: 0 <= j < |s| ==> j != i ==> r[j] == s[j])
      && (forall k :: 0 <= k < |p| ==> FragmentOf(p[k], s[i]) && StartsWith(p[k].name, s[i].name))
  {
    assert s[i].(name := s[i].name, start := s[i].start, end := s[i].end) == s[i];
    SplitDownFragments(s, i, |s|, SortAsc(frames), s[i]);
    PiecesAreFragments(SplitDown(s, i, SortAsc(frames)), i, |s|, s[i]);
  }

  /** `for f in reversed(frames): split(strip, f)`, on the timeline. */
  method SplitDescending(t: Timeline, i: nat, sorted: seq<int>)
    requires t.Valid() && i < |t.strips|
    modifies t
    ensures t.Valid() && t.strips == SplitDown(old(t.strips), i, sorted)
  {
    ghost var target := SplitDown(t.strips, i, sorted);
    var rest := sorted;
    while rest != []
      invariant t.Valid() && i < |t.strips|
      invariant SplitDown(t.strips, i, rest) == target
      decreases |rest|
    {
      var f := rest[|rest| - 1];
      rest := rest[..|rest| - 1];
      t.Split(i, f);
    }
  }

  lemma SplitDownLast(s: seq<Strip>, i: nat, fs: seq<int>, k: nat)
    requires i < |s| && 0 < k <= |fs|
    ensures SplitDown(s, i, fs[..k]) == SplitDown(SplitAt(s, i, fs[k - 1]), i, fs[..k - 1])
  {
    assert fs[..k][..k - 1] == fs[..k - 1];
  }

  /** `split_video_strip` / `split_audio_strip` over frame numbers. */
  method SplitStrip(t: Timeline, name: string, frames: seq<int>) returns (r: Result<seq<string>>)
    requires t.Valid()
    modifies t
    ensures t.Valid()
    ensures Find(old(t.strips), name).None? ==> r == Err(ValueError) && t.strips == old(t.strips)
    ensures Find(old(t.strips), name).Some? ==>
      && t.strips == SplitDown(old(t.strips), Find(old(t.strips), name).value, SortAsc(frames))
      && r == Ok(NamesWithPrefix(t.strips, name))
  {
    var found := t.Get(name);
    if found.None? {
      return Err(ValueError);
    }
    SplitDescending(t, found.value, SortAsc(frames));
    r := Ok(NamesWithPrefix(t.strips, name));
  }

  /** The returned list also names strips that merely share the prefix:
      splitting "vid" reports an unrelated "video1". */
  lemma PrefixCatchesUnrelated(s: seq<Strip>, j: nat)
    requires j < |s| && s[j].name == "video1"
    ensures "video1" in NamesWithPrefix(s, "vid")
  {
    assert StartsWith("video1", "vid");
  }
}
