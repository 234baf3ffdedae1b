/** A Bible reference: the verses it was built from and the intervals the builder cuts them
    into. The builder scans the verses once, in the order given, and closes an interval
    wherever a verse is not the next sibling of the one before it; it does not sort. */
module Reference {
  import opened Wrappers
  import opened Strings
  import opened BibleVersion
  import opened Verse
  import opened Interval

  // ---------------------------------------------------------------------------
  // Specification: runs of sibling verses
  // ---------------------------------------------------------------------------

  function Last<T>(s: seq<T>): T
    requires |s| > 0
  {
    s[|s| - 1]
  }

  /** The runs the builder closes, computed one input verse at a time: a verse that is the next
      sibling of the verse before it extends the current run, any other verse starts a new one. */
  function Runs(vs: seq<BibleVerse>): (r: seq<seq<BibleVerse>>)
    ensures |r| == 0 <==> |vs| == 0
    decreases |vs|
  {
    if |vs| == 0 then []
    else if |vs| == 1 then [[vs[0]]]
    else
      var p := Runs(vs[..|vs| - 1]);
      var x := vs[|vs| - 1];
      if IsNextVerseSibling(vs[|vs| - 2], x) then p[..|p| - 1] + [Last(p) + [x]] else p + [[x]]
  }

  function Flatten(rs: seq<seq<BibleVerse>>): seq<BibleVerse>
    decreases |rs|
  {
    if |rs| == 0 then [] else Flatten(rs[..|rs| - 1]) + Last(rs)
  }

  /** Each verse is the next sibling of the one before it. */
  predicate Chain(run: seq<BibleVerse>)
  {
    forall j :: 0 <= j < |run| - 1 ==> IsNextVerseSibling(run[j], run[j + 1])
  }

  predicate AllNonEmpty(rs: seq<seq<BibleVerse>>)
  {
    forall k :: 0 <= k < |rs| ==> |rs[k]| > 0
  }

  /** No run could be extended by the first verse of the run after it. */
  predicate Maximal(rs: seq<seq<BibleVerse>>)
    requires AllNonEmpty(rs)
  {
    forall k :: 0 <= k < |rs| - 1 ==> !IsNextVerseSibling(Last(rs[k]), rs[k + 1][0])
  }

  /** The number of adjacent input pairs that are not siblings. */
  function BreakCount(vs: seq<BibleVerse>): nat
    decreases |vs|
  {
    if |vs| < 2 then 0
    else BreakCount(vs[..|vs| - 1]) + (if IsNextVerseSibling(vs[|vs| - 2], vs[|vs| - 1]) then 0 else 1)
  }

  /** The interval a run stands for. */
  function RunInterval(run: seq<BibleVerse>): BibleVerseInterval
    requires |run| > 0
  {
    BibleVerseInterval(run[0], Last(run))
  }

  function IntervalsOf(rs: seq<seq<BibleVerse>>): seq<BibleVerseInterval>
    requires AllNonEmpty(rs)
    decreases |rs|
  {
    if |rs| == 0 then [] else IntervalsOf(rs[..|rs| - 1]) + [RunInterval(Last(rs))]
  }

  // ---------------------------------------------------------------------------
  // Properties of the runs
  // ---------------------------------------------------------------------------

  lemma FlattenAppend(rs: seq<seq<BibleVerse>>, run: seq<BibleVerse>)
    ensures Flatten(rs + [run]) == Flatten(rs) + run
  {
  }

  lemma {:induction false} IntervalsOfAt(rs: seq<seq<BibleVerse>>)
    requires AllNonEmpty(rs)
    ensures |IntervalsOf(rs)| == |rs|
    ensures forall k :: 0 <= k < |rs| ==> IntervalsOf(rs)[k] == RunInterval(rs[k])
    decreases |rs|
  {
    if |rs| > 0 {
      IntervalsOfAt(rs[..|rs| - 1]);
    }
  }

  /** The runs are non-empty and concatenate to the input, in order. */
  lemma RunsCover(vs: seq<BibleVerse>)
    ensures AllNonEmpty(Runs(vs))
    ensures Flatten(Runs(vs)) == vs
  {
    RunsNonEmpty(vs);
    RunsFlatten(vs);
  }

  /** No run is empty. */
  lemma {:induction false} RunsNonEmpty(vs: seq<BibleVerse>)
    ensures AllNonEmpty(Runs(vs))
    decreases |vs|
  {
    if |vs| > 1 {
      var init := vs[..|vs| - 1];
      var x := vs[|vs| - 1];
      var p := Runs(init);
      RunsNonEmpty(init);
      var n := |p|;
      if IsNextVerseSibling(vs[|vs| - 2], x) {
        var r := p[..n - 1] + [Last(p) + [x]];
        assert Runs(vs) == r;
        forall k | 0 <= k < |r| ensures |r[k]| > 0 {
          if k < n - 1 { assert r[k] == p[k]; }
        }
      } else {
        var r := p + [[x]];
        assert Runs(vs) == r;
        forall k | 0 <= k < |r| ensures |r[k]| > 0 {
          if k < n { assert r[k] == p[k]; }
        }
      }
    }
  }

  /** Concatenating the runs gives back the input, in order. */
  lemma {:induction false} RunsFlatten(vs: seq<BibleVerse>)
    ensures Flatten(Runs(vs)) == vs
    decreases |vs|
  {
    if |vs| <= 1 {
      RunsFlattenBase(vs);
    } else {
      RunsFlatten(vs[..|vs| - 1]);
      if IsNextVerseSibling(vs[|vs| - 2], vs[|vs| - 1]) {
        RunsFlattenExtend(vs);
      } else {
        RunsFlattenStart(vs);
      }
    }
  }

  /** `RunsFlatten` for no verse or a single verse. */
  lemma RunsFlattenBase(vs: seq<BibleVerse>)
    requires |vs| <= 1
    ensures Flatten(Runs(vs)) == vs
  {
  }

  /** The step of `RunsFlatten` where the last verse extends the current run. */
  lemma RunsFlattenExtend(vs: seq<BibleVerse>)
    requires |vs| > 1 && IsNextVerseSibling(vs[|vs| - 2], vs[|vs| - 1])
    requires Flatten(Runs(vs[..|vs| - 1])) == vs[..|vs| - 1]
    ensures Flatten(Runs(vs)) == vs
  {
    var init := vs[..|vs| - 1];
    var x := vs[|vs| - 1];
    var p := Runs(init);
    assert Runs(vs) == p[..|p| - 1] + [Last(p) + [x]];
    SplitLast(vs);
    FlattenGrow(Runs(vs), p, init, x, vs);
  }

  /** The step of `RunsFlatten` where the last verse starts a new run. */
  lemma RunsFlattenStart(vs: seq<BibleVerse>)
    requires |vs| > 1 && !IsNextVerseSibling(vs[|vs| - 2], vs[|vs| - 1])
    requires Flatten(Runs(vs[..|vs| - 1])) == vs[..|vs| - 1]
    ensures Flatten(Runs(vs)) == vs
  {
  }

  /** A non-empty sequence is its prefix followed by its last element. */
  lemma SplitLast<T>(s: seq<T>)
    requires |s| > 0
    ensures s == s[..|s| - 1] + [s[|s| - 1]]
  {
  }

  /** Growing the last run by one verse appends that verse to the concatenation. */
  lemma FlattenGrow(r: seq<seq<BibleVerse>>, p: seq<seq<BibleVerse>>, init: seq<BibleVerse>,
                    x: BibleVerse, vs: seq<BibleVerse>)
    requires |p| > 0 && r == p[..|p| - 1] + [Last(p) + [x]]
    requires Flatten(p) == init && vs == init + [x]
    ensures Flatten(r) == vs
  {
  }

  /** Starting a new run with one verse appends that verse to the concatenation. */
  lemma FlattenNew(r: seq<seq<BibleVerse>>, p: seq<seq<BibleVerse>>, init: seq<BibleVerse>,
                   x: BibleVerse, vs: seq<BibleVerse>)
    requires r == p + [[x]]
    requires Flatten(p) == init && vs == init + [x]
    ensures Flatten(r) == vs
  {
  }

  lemma {:induction false} FlattenHas(rs: seq<seq<BibleVerse>>, k: nat, j: nat)
    requires k < |rs| && j < |rs[k]|
    ensures rs[k][j] in Flatten(rs)
    decreases |rs|
  {
    assert Flatten(rs) == Flatten(rs[..|rs| - 1]) + Last(rs);
    if k < |rs| - 1 {
      FlattenHas(rs[..|rs| - 1], k, j);
    }
  }

  /** Both ends of every built interval are verses of the input. */
  lemma IntervalEndsAreInputs(vs: seq<BibleVerse>)
    ensures AllNonEmpty(Runs(vs))
    ensures forall k :: 0 <= k < |IntervalsOf(Runs(vs))| ==>
      IntervalsOf(Runs(vs))[k].left in vs && IntervalsOf(Runs(vs))[k].right in vs
  {
    var rs := Runs(vs);
    RunsCover(vs);
    IntervalsOfAt(rs);
    var ivs := IntervalsOf(rs);
    forall k | 0 <= k < |ivs| ensures ivs[k].left in vs && ivs[k].right in vs {
      assert ivs[k] == RunInterval(rs[k]);
      FlattenHas(rs, k, 0);
      FlattenHas(rs, k, |rs[k]| - 1);
    }
  }

  /** The last run ends with the last input verse. */
  lemma LastRunEndsInput(vs: seq<BibleVerse>)
    requires |vs| > 0
    ensures AllNonEmpty(Runs(vs)) && Last(Last(Runs(vs))) == Last(vs)
  {
    RunsCover(vs);
    var p := Runs(vs);
    assert Flatten(p) == Flatten(p[..|p| - 1]) + Last(p);
  }

  /** Every run is a chain of siblings. */
  lemma {:induction false} RunsAreChains(vs: seq<BibleVerse>)
    ensures AllNonEmpty(Runs(vs))
    ensures forall k :: 0 <= k < |Runs(vs)| ==> Chain(Runs(vs)[k])
    decreases |vs|
  {
    RunsNonEmpty(vs);
    var r := Runs(vs);
    if |vs| > 1 {
      var init := vs[..|vs| - 1];
      var x := vs[|vs| - 1];
      var p := Runs(init);
      RunsAreChains(init);
      LastRunEndsInput(init);
      var n := |p|;
      if IsNextVerseSibling(vs[|vs| - 2], x) {
        var lastRun := Last(p);
        var grown := lastRun + [x];
        assert r == p[..n - 1] + [grown];
        assert Chain(grown) by {
          assert Chain(lastRun) && Last(lastRun) == vs[|vs| - 2];
          forall j | 0 <= j < |grown| - 1 ensures IsNextVerseSibling(grown[j], grown[j + 1]) {
            if j < |lastRun| - 1 {
              assert grown[j] == lastRun[j] && grown[j + 1] == lastRun[j + 1];
            }
          }
        }
        forall k | 0 <= k < |r| ensures Chain(r[k]) {
          if k < n - 1 { assert r[k] == p[k]; }
        }
      } else {
        assert r == p + [[x]];
        forall k | 0 <= k < |r| ensures Chain(r[k]) {
          if k < n { assert r[k] == p[k]; }
        }
      }
    }
  }

  /** A new run starts exactly where a verse is not the next sibling of the one before it. */
  lemma {:induction false} RunsAreMaximal(vs: seq<BibleVerse>)
    ensures AllNonEmpty(Runs(vs))
    ensures Maximal(Runs(vs))
    decreases |vs|
  {
    RunsNonEmpty(vs);
    var r := Runs(vs);
    if |vs| > 1 {
      var init := vs[..|vs| - 1];
      var x := vs[|vs| - 1];
      var p := Runs(init);
      RunsAreMaximal(init);
      LastRunEndsInput(init);
      var n := |p|;
      if IsNextVerseSibling(vs[|vs| - 2], x) {
        var grown := Last(p) + [x];
        assert r == p[..n - 1] + [grown];
        forall k | 0 <= k < |r| - 1 ensures !IsNextVerseSibling(Last(r[k]), r[k + 1][0]) {
          assert r[k] == p[k];
          if k + 1 < n - 1 { assert r[k + 1] == p[k + 1]; } else { assert r[k + 1][0] == p[k + 1][0]; }
        }
      } else {
        assert r == p + [[x]];
        forall k | 0 <= k < |r| - 1 ensures !IsNextVerseSibling(Last(r[k]), r[k + 1][0]) {
          assert r[k] == p[k];
          if k + 1 < n { assert r[k + 1] == p[k + 1]; }
        }
      }
    }
  }

  /** There is one run more than there are adjacent non-sibling pairs. */
  lemma {:induction false} RunCount(vs: seq<BibleVerse>)
    requires |vs| > 0
    ensures |Runs(vs)| == BreakCount(vs) + 1
    decreases |vs|
  {
    if |vs| > 1 {
      RunCount(vs[..|vs| - 1]);
    }
  }

  /** A chain of siblings stays in one version, book and chapter, and its last verse number
      is the first plus the run length minus one. */
  lemma {:induction false} ChainEnds(run: seq<BibleVerse>)
    requires |run| > 0 && Chain(run)
    ensures SameVersion(run[0].version, Last(run).version)
    ensures run[0].book == Last(run).book && run[0].chapterId == Last(run).chapterId
    ensures Last(run).verseNumber == run[0].verseNumber + |run| - 1
    decreases |run|
  {
    if |run| > 1 {
      var init := run[..|run| - 1];
      assert Chain(init) by {
        forall j | 0 <= j < |init| - 1 ensures IsNextVerseSibling(init[j], init[j + 1]) {
          assert init[j] == run[j] && init[j + 1] == run[j + 1];
        }
      }
      ChainEnds(init);
      assert IsNextVerseSibling(run[|run| - 2], Last(run));
    }
  }

  /** Every interval the builder produces lies in one version, book and chapter, and spans
      exactly as many verse numbers as its run has verses. */
  lemma {:induction false} BuiltIntervalsInOneChapter(vs: seq<BibleVerse>)
    ensures AllNonEmpty(Runs(vs)) && |IntervalsOf(Runs(vs))| == |Runs(vs)|
    ensures forall k :: 0 <= k < |Runs(vs)| ==>
      var iv := IntervalsOf(Runs(vs))[k];
      IsInSameChapter(iv) && SameVersion(iv.left.version, iv.right.version)
      && iv.right.verseNumber == iv.left.verseNumber + |Runs(vs)[k]| - 1
  {
    var rs := Runs(vs);
    RunsAreChains(vs);
    IntervalsOfAt(rs);
    forall k | 0 <= k < |rs|
      ensures IsInSameChapter(IntervalsOf(rs)[k]) && SameVersion(IntervalsOf(rs)[k].left.version, IntervalsOf(rs)[k].right.version)
      ensures IntervalsOf(rs)[k].right.verseNumber == IntervalsOf(rs)[k].left.verseNumber + |rs[k]| - 1
    {
      ChainEnds(rs[k]);
    }
  }

  // ---------------------------------------------------------------------------
  // The builder
  // ---------------------------------------------------------------------------

  /** How the runs of a prefix change when the scan takes one more verse. */
  lemma ScanStep(vs: seq<BibleVerse>, i: nat)
    requires 1 <= i < |vs|
    ensures AllNonEmpty(Runs(vs[..i])) && AllNonEmpty(Runs(vs[..i + 1]))
    ensures var p, r := Runs(vs[..i]), Runs(vs[..i + 1]);
      if IsNextVerseSibling(vs[i - 1], vs[i]) then
        r[..|r| - 1] == p[..|p| - 1] && RunInterval(Last(r)) == BibleVerseInterval(Last(p)[0], vs[i])
      else
        r[..|r| - 1] == p && RunInterval(Last(r)) == BibleVerseInterval(vs[i], vs[i])
  {
    RunsNonEmpty(vs[..i]);
    RunsNonEmpty(vs[..i + 1]);
    assert vs[..i + 1][..i] == vs[..i];
    var p := Runs(vs[..i]);
    if IsNextVerseSibling(vs[i - 1], vs[i]) {
      assert Runs(vs[..i + 1]) == p[..|p| - 1] + [Last(p) + [vs[i]]];
    } else {
      assert Runs(vs[..i + 1]) == p + [[vs[i]]];
    }
  }

  lemma IntervalsOfInit(rs: seq<seq<BibleVerse>>)
    requires |rs| > 0 && AllNonEmpty(rs)
    ensures AllNonEmpty(rs[..|rs| - 1])
    ensures IntervalsOf(rs) == IntervalsOf(rs[..|rs| - 1]) + [RunInterval(Last(rs))]
  {
  }

  /** An interval inside one chapter that does not run backwards is accepted by the constructor. */
  lemma InChapterIntervalOk(left: BibleVerse, right: BibleVerse)
    requires Known(right) && SameVersion(left.version, right.version) && left.book == right.book
    requires left.chapterId == right.chapterId && left.verseNumber <= right.verseNumber
    ensures NewInterval(left, right) == Ok(BibleVerseInterval(left, right))
  {
  }

  /** What holds after the scan has read `verses[..i]`: `intervals` are the closed runs and
      `[left, previous]` is the open one. */
  predicate ScanState(verses: seq<BibleVerse>, i: nat, intervals: seq<BibleVerseInterval>,
                      left: BibleVerse, previous: BibleVerse)
  {
    1 <= i <= |verses| && previous == verses[i - 1]
    && AllNonEmpty(Runs(verses[..i]))
    && intervals + [BibleVerseInterval(left, previous)] == IntervalsOf(Runs(verses[..i]))
    && SameVersion(left.version, previous.version) && left.book == previous.book
    && left.chapterId == previous.chapterId && left.verseNumber <= previous.verseNumber
  }

  /** A sibling extends the open run of the scan. */
  lemma ScanExtends(verses: seq<BibleVerse>, i: nat, intervals: seq<BibleVerseInterval>,
                    left: BibleVerse, previous: BibleVerse)
    requires ScanState(verses, i, intervals, left, previous) && i < |verses|
    requires IsNextVerseSibling(previous, verses[i])
    ensures ScanState(verses, i + 1, intervals, left, verses[i])
  {
    var p := Runs(verses[..i]);
    ScanStep(verses, i);
    IntervalsOfInit(p);
    var r := Runs(verses[..i + 1]);
    IntervalsOfInit(r);
    assert r[..|r| - 1] == p[..|p| - 1];
    var w := IntervalsOf(p);
    assert intervals == w[..|w| - 1] == IntervalsOf(p[..|p| - 1]);
    assert left == Last(p)[0];
  }

  /** Any other verse closes the open run and opens a new one. */
  lemma ScanCloses(verses: seq<BibleVerse>, i: nat, intervals: seq<BibleVerseInterval>,
                   left: BibleVerse, previous: BibleVerse)
    requires ScanState(verses, i, intervals, left, previous) && i < |verses|
    requires !IsNextVerseSibling(previous, verses[i])
    ensures ScanState(verses, i + 1, intervals + [BibleVerseInterval(left, previous)], verses[i], verses[i])
  {
    var p := Runs(verses[..i]);
    ScanStep(verses, i);
    var r := Runs(verses[..i + 1]);
    IntervalsOfInit(r);
    assert r[..|r| - 1] == p;
  }

  /** The loop of `BibleReference.__init__` over a non-empty verse list: each closed interval
      is built with the validating interval constructor, which never fails here. */
  method ScanIntervals(verses: seq<BibleVerse>) returns (intervals: seq<BibleVerseInterval>)
    requires |verses| > 0
    requires forall k :: 0 <= k < |verses| ==> Known(verses[k])
    ensures AllNonEmpty(Runs(verses)) && intervals == IntervalsOf(Runs(verses))
  {
    // the first verse opens the first interval (the `left is None` iteration)
    var left := verses[0];
    var previous := verses[0];
    intervals := [];
    var i := 1;
    assert verses[..1] == [verses[0]];
    while i < |verses|
      invariant ScanState(verses, i, intervals, left, previous)
    {
      var current := verses[i];
      if IsNextVerseSibling(previous, current) {
        ScanExtends(verses, i, intervals, left, previous);
      } else {
        ScanCloses(verses, i, intervals, left, previous);
        InChapterIntervalOk(left, previous);
        var closed := NewInterval(left, previous);
        intervals := intervals + [closed.value];
        left := current;
      }
      previous := current;
      i := i + 1;
    }
    assert verses[..i] == verses;
    InChapterIntervalOk(left, previous);
    var final := NewInterval(left, previous);
    intervals := intervals + [final.value];
  }

  class BibleReference {
    /** The verse list the reference was built from, kept as given. */
    const verses: seq<BibleVerse>
    /** The intervals, in the order the builder produced them until the formatter sorts them. */
    var intervals: seq<BibleVerseInterval>

    constructor Of(verses: seq<BibleVerse>, intervals: seq<BibleVerseInterval>)
      ensures this.verses == verses && this.intervals == intervals
    {
      this.verses := verses;
      this.intervals := intervals;
    }

    /** `BibleReference(verses)`: an empty list is rejected; otherwise the reference keeps the
        list and the intervals of its sibling runs, in input order. */
    static method Create(verses: seq<BibleVerse>) returns (r: Result<BibleReference>)
      requires forall k :: 0 <= k < |verses| ==> Known(verses[k])
      ensures r.Err? <==> |verses| == 0
      ensures r.Err? ==> r.error == ValueError("Bible reference without verses")
      ensures r.Ok? ==> fresh(r.value) && r.value.verses == verses
      ensures r.Ok? ==> AllNonEmpty(Runs(verses)) && r.value.intervals == IntervalsOf(Runs(verses))
    {
      if |verses| == 0 {
        return Err(ValueError("Bible reference without verses"));
      }
      var intervals := ScanIntervals(verses);
      var reference := new BibleReference.Of(verses, intervals);
      r := Ok(reference);
    }
  }
}
