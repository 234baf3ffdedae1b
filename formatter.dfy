/** The reference formatter: sorts a reference's intervals in place by their left verses,
    then prints them as groups ("John 3:16-18,20;4"), writing a chapter boundary as a
    chapter id alone and dropping what repeats from the interval before. */
module Formatter {
  import opened Wrappers
  import opened Strings
  import opened BibleVersion
  import opened Verse
  import opened Interval
  import opened Reference

  /** The six separators a caller may override. */
  datatype Delimiters = Delimiters(
    gs: string,   // between groups
    vgs: string,  // between verse groups of one chapter
    cbd: string,  // cross-book
    ccd: string,  // cross-chapter
    cvd: string,  // cross-verse
    cvs: string)  // between chapter and verse

  const DefaultDelimiters := Delimiters(";", ",", " \U{2014} ", "\U{2014}", "-", ":")

  /** Every lookup of the formatter goes to the structure of the interval's left verse. */
  function StructureOf(i: BibleVerseInterval): VersionStructure
  {
    i.left.version.structure
  }

  // ---------------------------------------------------------------------------
  // Chapter and verse numbering of one interval
  // ---------------------------------------------------------------------------

  /** Whether `format_numbering` reaches a test that reads the verse count of the right
      verse's chapter: every test after the degenerate one does, except "partial" and
      "full" on an interval inside one chapter that starts after verse 1. */
  predicate ConsultsChapterEnd(i: BibleVerseInterval)
  {
    !IsDegenerated(i) && (!IsInSameChapter(i) || StartsAtChapterBeginning(i))
  }

  predicate NumberingDefined(i: BibleVerseInterval)
  {
    ConsultsChapterEnd(i) ==> HasChapterEnd(i, StructureOf(i))
  }

  /** The left end of a (non-degenerate) interval is written as its chapter id alone: it is
      the first verse of its chapter, and, inside one chapter, the interval is the whole chapter. */
  predicate LeftAligned(i: BibleVerseInterval)
    requires NumberingDefined(i)
  {
    !IsDegenerated(i) && StartsAtChapterBeginning(i)
    && (IsInSameChapter(i) ==> EndsAtChapterEnding(i, StructureOf(i)))
  }

  /** The right end is written as its chapter id alone: it is the last verse of its chapter,
      and, inside one chapter, the interval is the whole chapter. */
  predicate RightAligned(i: BibleVerseInterval)
    requires NumberingDefined(i)
  {
    !IsDegenerated(i) && (IsInSameChapter(i) ==> StartsAtChapterBeginning(i))
    && EndsAtChapterEnding(i, StructureOf(i))
  }

  /** A verse written out in full: chapter id, separator, verse number. */
  function VersePosition(v: BibleVerse, cvs: string): string
  {
    v.chapterId + cvs + IntToString(v.verseNumber)
  }

  /** `format_numbering`: the tests in the source's order (degenerate, partial, full, then
      the three cross-chapter shapes, then the fallback).
      Across chapters the result is the two ends joined by `ccd`, each end written as a chapter
      id alone when it is aligned with its chapter boundary and in full otherwise; inside one
      chapter it is one verse, a whole chapter, or a verse range after one chapter id. */
  function FormatNumbering(i: BibleVerseInterval, ccd: string, cvd: string, cvs: string): (r: string)
    requires NumberingDefined(i)
    ensures IsDegenerated(i) ==> r == VersePosition(i.left, cvs)
    ensures IsInSameChapter(i) && !IsDegenerated(i) ==>
      (LeftAligned(i) <==> RightAligned(i))
      && r == if LeftAligned(i) then i.left.chapterId
              else VersePosition(i.left, cvs) + cvd + IntToString(i.right.verseNumber)
    ensures !IsInSameChapter(i) ==>
      r == (if LeftAligned(i) then i.left.chapterId else VersePosition(i.left, cvs))
           + ccd + (if RightAligned(i) then i.right.chapterId else VersePosition(i.right, cvs))
  {
    var s := StructureOf(i);
    if IsDegenerated(i) then
      i.left.chapterId + cvs + IntToString(i.left.verseNumber)
    else if IsPartialChapter(i, s) then
      i.left.chapterId + cvs + IntToString(i.left.verseNumber) + cvd + IntToString(i.right.verseNumber)
    else if IsFullChapter(i, s) then
      i.left.chapterId
    else if IsCrossFullChapter(i, s) then
      i.left.chapterId + ccd + i.right.chapterId
    else if IsCrossFullToPartialChapter(i, s) then
      i.left.chapterId + ccd + i.right.chapterId + cvs + IntToString(i.right.verseNumber)
    else if IsCrossPartialToFullChapter(i, s) then
      i.left.chapterId + cvs + IntToString(i.left.verseNumber) + ccd + i.right.chapterId
    else
      i.left.chapterId + cvs + IntToString(i.left.verseNumber) + ccd + i.right.chapterId + cvs
      + IntToString(i.right.verseNumber)
  }

  /** The lookups `format_interval` makes, and those of `format_numbering` when it is called. */
  predicate Renderable(i: BibleVerseInterval)
  {
    i.left.book in StructureOf(i) && NumberingDefined(i)
    && (!IsInSameBook(i) ==> i.right.book in StructureOf(i))
  }

  /** The English name the structure records for a book. */
  function BookName(v: BibleVerse, s: VersionStructure): string
    requires v.book in s
  {
    s[v.book].book.englishName
  }

  /** `format_interval`: the book name, a space and the numbering inside one book; across
      books both ends in full ("Book chapter:verse"), joined by `cbd`. */
  function FormatInterval(i: BibleVerseInterval, d: Delimiters): (r: string)
    requires Renderable(i)
    ensures IsInSameBook(i) ==>
      r == BookName(i.left, StructureOf(i)) + " " + FormatNumbering(i, d.ccd, d.cvd, d.cvs)
    ensures !IsInSameBook(i) ==>
      r == BookName(i.left, StructureOf(i)) + " " + VersePosition(i.left, d.cvs) + d.cbd
           + BookName(i.right, StructureOf(i)) + " " + VersePosition(i.right, d.cvs)
  {
    var s := StructureOf(i);
    if IsInSameBook(i) then
      var book := s[i.left.book].book.englishName;
      book + " " + FormatNumbering(i, d.ccd, d.cvd, d.cvs)
    else
      var left := s[i.left.book].book.englishName + " " + i.left.chapterId + d.cvs + IntToString(i.left.verseNumber);
      var right := s[i.right.book].book.englishName + " " + i.right.chapterId + d.cvs + IntToString(i.right.verseNumber);
      left + d.cbd + right
  }

  /** Every printed interval starts with its left verse's book name and chapter id. */
  lemma {:induction false} IntervalStartsWithBookAndChapter(i: BibleVerseInterval, d: Delimiters)
    requires Renderable(i)
    ensures BookName(i.left, StructureOf(i)) + " " + i.left.chapterId <= FormatInterval(i, d)
  {
  }

  // ---------------------------------------------------------------------------
  // Sorting: `bible_reference.intervals.sort()`
  // ---------------------------------------------------------------------------

  /** The position of an interval's left verse: what `<` on intervals compares. */
  function LeftKey(i: BibleVerseInterval, s: VersionStructure): SortKey
    requires i.left.book in s
  {
    KeyOf(i.left, s)
  }

  predicate AllLeftsIn(ivs: seq<BibleVerseInterval>, s: VersionStructure)
  {
    forall k :: 0 <= k < |ivs| ==> ivs[k].left.book in s
  }

  /** No interval is strictly before the one in front of it. */
  predicate SortedByLeft(ivs: seq<BibleVerseInterval>, s: VersionStructure)
    requires AllLeftsIn(ivs, s)
  {
    forall k :: 0 < k < |ivs| ==> !KeyLess(LeftKey(ivs[k], s), LeftKey(ivs[k - 1], s))
  }

  /** Insert `x` after every interval that is not strictly after it. */
  function Insert(sorted: seq<BibleVerseInterval>, x: BibleVerseInterval, s: VersionStructure): (r: seq<BibleVerseInterval>)
    requires AllLeftsIn(sorted, s) && x.left.book in s
    ensures AllLeftsIn(r, s) && |r| == |sorted| + 1
    ensures multiset(r) == multiset(sorted) + multiset{x}
    ensures r[|r| - 1] == x || (|sorted| > 0 && r[|r| - 1] == sorted[|sorted| - 1])
    decreases |sorted|
  {
    if |sorted| == 0 then [x]
    else if KeyLess(LeftKey(x, s), LeftKey(Last(sorted), s)) then
      var init := sorted[..|sorted| - 1];
      assert sorted == init + [Last(sorted)];
      Insert(init, x, s) + [Last(sorted)]
    else sorted + [x]
  }

  /** A stable sort by left verse: Python's `list.sort` with the intervals' `<`. */
  function SortByLeft(ivs: seq<BibleVerseInterval>, s: VersionStructure): (r: seq<BibleVerseInterval>)
    requires AllLeftsIn(ivs, s)
    ensures AllLeftsIn(r, s) && |r| == |ivs|
    ensures multiset(r) == multiset(ivs)
    decreases |ivs|
  {
    if |ivs| == 0 then []
    else
      var init := ivs[..|ivs| - 1];
      assert ivs == init + [Last(ivs)];
      Insert(SortByLeft(init, s), Last(ivs), s)
  }

  lemma {:induction false} InsertSorted(sorted: seq<BibleVerseInterval>, x: BibleVerseInterval, s: VersionStructure)
    requires AllLeftsIn(sorted, s) && x.left.book in s && SortedByLeft(sorted, s)
    ensures SortedByLeft(Insert(sorted, x, s), s)
    decreases |sorted|
  {
    if |sorted| > 0 && KeyLess(LeftKey(x, s), LeftKey(Last(sorted), s)) {
      var init := sorted[..|sorted| - 1];
      InsertSorted(init, x, s);
      var r := Insert(init, x, s);
      if r[|r| - 1] == x {
        KeyLessAsymmetric(LeftKey(x, s), LeftKey(Last(sorted), s));
      }
    }
  }

  /** The sort leaves no interval strictly before the one in front of it, and keeps every
      interval exactly as often as it was there. */
  lemma {:induction false} SortByLeftSorts(ivs: seq<BibleVerseInterval>, s: VersionStructure)
    requires AllLeftsIn(ivs, s)
    ensures SortedByLeft(SortByLeft(ivs, s), s)
    ensures multiset(SortByLeft(ivs, s)) == multiset(ivs)
    decreases |ivs|
  {
    if |ivs| > 0 {
      var init := ivs[..|ivs| - 1];
      SortByLeftSorts(init, s);
      InsertSorted(SortByLeft(init, s), Last(ivs), s);
    }
  }

  /** The left verses all belong to one version (by internal id). */
  predicate OneVersion(ivs: seq<BibleVerseInterval>)
  {
    forall k :: 0 <= k < |ivs| ==> SameVersion(ivs[k].left.version, ivs[0].left.version)
  }

  /** Versions equal by internal id carry one structure, so every comparison of the sort
      consults the same one. */
  predicate Coherent(ivs: seq<BibleVerseInterval>)
  {
    forall j, k :: 0 <= j < |ivs| && 0 <= k < |ivs| && SameVersion(ivs[j].left.version, ivs[k].left.version)
      ==> ivs[j].left.version.structure == ivs[k].left.version.structure
  }

  /** For intervals of one version the key order is exactly the intervals' `<`. */
  lemma KeyOrderIsIntervalLess(a: BibleVerseInterval, b: BibleVerseInterval)
    requires Known(a.left) && b.left.book in a.left.version.structure
    requires SameVersion(a.left.version, b.left.version)
    ensures IntervalLess(a, b).Ok?
    ensures IntervalLess(a, b).value == KeyLess(LeftKey(a, StructureOf(a)), LeftKey(b, StructureOf(a)))
  {
  }

  // ---------------------------------------------------------------------------
  // Groups
  // ---------------------------------------------------------------------------

  /** The text printed for `current` after `previous`: only the verse numbers when it
      continues the chapter the previous interval ended in, the numbering when it continues
      the book, the full interval otherwise. */
  function ContinuationText(previous: BibleVerseInterval, current: BibleVerseInterval, d: Delimiters): string
    requires Renderable(current)
  {
    if SameVersion(current.left.version, previous.right.version) && current.left.book == previous.right.book then
      if current.left.chapterId == previous.right.chapterId then
        if IsDegenerated(current) then IntToString(current.left.verseNumber)
        else IntToString(current.left.verseNumber) + d.cvd + IntToString(current.right.verseNumber)
      else FormatNumbering(current, d.ccd, d.cvd, d.cvs)
    else FormatInterval(current, d)
  }

  /** The groups appended for `current` after `previous`: the previous version's id in
      parentheses when the version changes, then the separator (`vgs` inside the chapter the
      previous interval ended in, `gs` otherwise), then the continuation text. */
  function Step(previous: BibleVerseInterval, current: BibleVerseInterval, d: Delimiters): (r: seq<string>)
    requires Renderable(current)
    ensures |r| == (if SameVersion(current.left.version, previous.right.version) then 2 else 3)
    ensures |r| == 3 ==> r[0] == " (" + previous.right.version.internalId + ")"
    ensures r[|r| - 2] == (if SameVersion(current.left.version, previous.right.version)
                              && current.left.book == previous.right.book
                              && current.left.chapterId == previous.right.chapterId then d.vgs else d.gs)
    ensures r[|r| - 1] == ContinuationText(previous, current, d)
  {
    if SameVersion(current.left.version, previous.right.version) then
      if current.left.book == previous.right.book then
        if current.left.chapterId == previous.right.chapterId then
          if IsDegenerated(current) then [d.vgs, IntToString(current.left.verseNumber)]
          else [d.vgs, IntToString(current.left.verseNumber) + d.cvd + IntToString(current.right.verseNumber)]
        else [d.gs, FormatNumbering(current, d.ccd, d.cvd, d.cvs)]
      else [d.gs, FormatInterval(current, d)]
    else [" (" + previous.right.version.internalId + ")", d.gs, FormatInterval(current, d)]
  }

  predicate AllRenderable(ivs: seq<BibleVerseInterval>)
  {
    forall k :: 0 <= k < |ivs| ==> Renderable(ivs[k])
  }

  /** The groups of a whole interval list; the first interval is printed with the default
      delimiters whatever the caller passed. */
  function Groups(ivs: seq<BibleVerseInterval>, d: Delimiters): (r: seq<string>)
    requires AllRenderable(ivs)
    ensures |ivs| > 0 ==> |r| > 0 && r[0] == FormatInterval(ivs[0], DefaultDelimiters)
    decreases |ivs|
  {
    if |ivs| == 0 then []
    else if |ivs| == 1 then [FormatInterval(ivs[0], DefaultDelimiters)]
    else Groups(ivs[..|ivs| - 1], d) + Step(ivs[|ivs| - 2], Last(ivs), d)
  }

  function Render(ivs: seq<BibleVerseInterval>, d: Delimiters): string
    requires AllRenderable(ivs)
  {
    Concat(Groups(ivs, d))
  }

  /** Each interval's two verses are of one version, as the interval constructor checks. */
  predicate EndsShareVersion(ivs: seq<BibleVerseInterval>)
  {
    forall k :: 0 <= k < |ivs| ==> SameVersion(ivs[k].left.version, ivs[k].right.version)
  }

  /** Once the sort has succeeded the version never changes between intervals: no version
      note is printed, and every interval after the first adds exactly two groups. */
  lemma {:induction false} NoVersionNote(ivs: seq<BibleVerseInterval>, d: Delimiters)
    requires AllRenderable(ivs) && OneVersion(ivs) && EndsShareVersion(ivs)
    ensures |ivs| > 0 ==> |Groups(ivs, d)| == 2 * |ivs| - 1
    ensures forall k :: 0 < k < |ivs| ==> |Step(ivs[k - 1], ivs[k], d)| == 2
    decreases |ivs|
  {
    if |ivs| > 1 {
      var init := ivs[..|ivs| - 1];
      assert init[0] == ivs[0];
      NoVersionNote(init, d);
      forall k | 0 < k < |ivs| ensures |Step(ivs[k - 1], ivs[k], d)| == 2 {
        assert SameVersion(ivs[k - 1].right.version, ivs[0].left.version);
      }
    }
  }

  /** Joined groups start with the first group. */
  lemma {:induction false} ConcatStartsWithFirst(g: seq<string>)
    requires |g| > 0
    ensures g[0] <= Concat(g)
    decreases |g|
  {
    var init := g[..|g| - 1];
    if |g| == 1 {
      assert Concat(g) == Concat(init) + g[0];
    } else {
      ConcatStartsWithFirst(init);
      assert Concat(g) == Concat(init) + Last(g);
    }
  }

  /** Joined groups end with the last group. */
  lemma ConcatEndsWithLast(g: seq<string>)
    requires |g| > 0
    ensures EndsWith(Concat(g), Last(g))
  {
  }

  /** The rendered text starts with the first interval printed in full with the default
      delimiters, and ends with the last interval's own text, never with a separator: the
      whole first interval when it is the only one, its continuation text otherwise. */
  lemma {:induction false} RenderEnds(ivs: seq<BibleVerseInterval>, d: Delimiters)
    requires AllRenderable(ivs) && |ivs| > 0
    ensures FormatInterval(ivs[0], DefaultDelimiters) <= Render(ivs, d)
    ensures EndsWith(Render(ivs, d), Last(Groups(ivs, d)))
    ensures |ivs| == 1 ==> Render(ivs, d) == FormatInterval(ivs[0], DefaultDelimiters)
    ensures |ivs| > 1 ==> EndsWith(Render(ivs, d), ContinuationText(ivs[|ivs| - 2], Last(ivs), d))
  {
    var g := Groups(ivs, d);
    ConcatStartsWithFirst(g);
    ConcatEndsWithLast(g);
    if |ivs| == 1 {
      assert Concat(g) == Concat([]) + g[0];
    }
  }

  // ---------------------------------------------------------------------------
  // The formatter's loop and `format` itself
  // ---------------------------------------------------------------------------

  lemma GroupsOfPrefix(ivs: seq<BibleVerseInterval>, k: nat, d: Delimiters)
    requires AllRenderable(ivs) && k < |ivs|
    ensures AllRenderable(ivs[..k]) && AllRenderable(ivs[..k + 1])
    ensures k == 0 ==> Groups(ivs[..k + 1], d) == [FormatInterval(ivs[0], DefaultDelimiters)]
    ensures k > 0 ==> Groups(ivs[..k + 1], d) == Groups(ivs[..k], d) + Step(ivs[k - 1], ivs[k], d)
  {
    assert ivs[..k + 1][..k] == ivs[..k];
  }

  /** The loop of `format` over already sorted intervals: one group list, joined at the end. */
  method RenderGroups(ivs: seq<BibleVerseInterval>, d: Delimiters) returns (text: string)
    requires AllRenderable(ivs)
    ensures text == Render(ivs, d)
  {
    var groups: seq<string> := [];
    var previous: Option<BibleVerseInterval> := None;
    var k := 0;
    while k < |ivs|
      invariant 0 <= k <= |ivs|
      invariant AllRenderable(ivs[..k]) && groups == Groups(ivs[..k], d)
      invariant previous == if k == 0 then None else Some(ivs[k - 1])
    {
      var current := ivs[k];
      GroupsOfPrefix(ivs, k, d);
      if previous.None? {
        groups := groups + [FormatInterval(current, DefaultDelimiters)];
      } else {
        var prev := previous.value;
        var added: seq<string>;
        if SameVersion(current.left.version, prev.right.version) {
          if current.left.book == prev.right.book {
            if current.left.chapterId == prev.right.chapterId {
              if IsDegenerated(current) {
                added := [d.vgs, IntToString(current.left.verseNumber)];
              } else {
                added := [d.vgs, IntToString(current.left.verseNumber) + d.cvd + IntToString(current.right.verseNumber)];
              }
            } else {
              added := [d.gs, FormatNumbering(current, d.ccd, d.cvd, d.cvs)];
            }
          } else {
            added := [d.gs, FormatInterval(current, d)];
          }
        } else {
          added := [" (" + prev.right.version.internalId + ")", d.gs, FormatInterval(current, d)];
        }
        assert added == Step(prev, current, d);
        groups := groups + added;
      }
      previous := Some(current);
      k := k + 1;
    }
    assert ivs[..k] == ivs;
    text := Concat(groups);
  }

  /** One version and consistent structures: every left verse is in the first interval's
      structure, and the sorted list is still renderable. */
  lemma PreparedForSort(ivs: seq<BibleVerseInterval>)
    requires |ivs| > 0 && AllRenderable(ivs) && Coherent(ivs) && OneVersion(ivs)
    ensures AllLeftsIn(ivs, StructureOf(ivs[0]))
    ensures AllRenderable(SortByLeft(ivs, StructureOf(ivs[0])))
  {
    var s := StructureOf(ivs[0]);
    forall k | 0 <= k < |ivs| ensures ivs[k].left.book in s {
      assert Renderable(ivs[k]);
    }
    var sorted := SortByLeft(ivs, s);
    forall k | 0 <= k < |sorted| ensures Renderable(sorted[k]) {
      assert sorted[k] in multiset(ivs);
    }
  }

  /** What `format` returns for an interval list: the version error when it spans more than
      one version, otherwise the text of the sorted list. */
  function FormatText(ivs: seq<BibleVerseInterval>, d: Delimiters): (r: Result<string>)
    requires AllRenderable(ivs) && Coherent(ivs)
    ensures r.Err? <==> !OneVersion(ivs)
    ensures r.Err? ==> r.error == ValueError("Verse comparison between different versions")
    ensures |ivs| > 0 && r.Ok? ==> |r.value| > 0
  {
    if !OneVersion(ivs) then Err(ValueError("Verse comparison between different versions"))
    else if |ivs| == 0 then Ok("")
    else
      PreparedForSort(ivs);
      var sorted := SortByLeft(ivs, StructureOf(ivs[0]));
      RenderEnds(sorted, d);
      IntervalStartsWithBookAndChapter(sorted[0], DefaultDelimiters);
      Ok(Render(sorted, d))
  }

  /** `BibleReferenceFormatter.format`: sorts the reference's intervals in place, then prints
      them. The sort fails as soon as it compares left verses of two versions, which it must
      do when the intervals span more than one version. */
  method Format(reference: BibleReference, d: Delimiters) returns (r: Result<string>)
    requires AllRenderable(reference.intervals) && Coherent(reference.intervals)
    modifies reference
    ensures r == FormatText(old(reference.intervals), d)
    ensures !OneVersion(old(reference.intervals)) ==> reference.intervals == old(reference.intervals)
    ensures OneVersion(old(reference.intervals)) && |old(reference.intervals)| > 0 ==>
      var s := StructureOf(old(reference.intervals)[0]);
      AllLeftsIn(old(reference.intervals), s)
      && reference.intervals == SortByLeft(old(reference.intervals), s)
      && AllRenderable(reference.intervals)
      && r == Ok(Render(reference.intervals, d))
    ensures |old(reference.intervals)| == 0 ==> r == Ok("") && reference.intervals == []
  {
    var ivs := reference.intervals;
    if !OneVersion(ivs) {
      return Err(ValueError("Verse comparison between different versions"));
    }
    if |ivs| == 0 {
      return Ok("");
    }
    var s := StructureOf(ivs[0]);
    PreparedForSort(ivs);
    var sorted := SortByLeft(ivs, s);
    reference.intervals := sorted;
    var text := RenderGroups(sorted, d);
    r := Ok(text);
  }

  // ---------------------------------------------------------------------------
  // Examples, on a one-book structure
  // ---------------------------------------------------------------------------

  const John := BookInfo.BibleBookInfo("john", "John")
  const Sample := Version("kjv", "de4e12af7f28f599-02", "en", "King James Version", false,
                          map[John := BookStructure(John, 43, 21, map["3" := 36, "4" := 54])])

  function At(chapter: string, verse: int): BibleVerse
  {
    BibleVerse(Sample, John, chapter, verse)
  }

  /** A single verse. */
  lemma ExampleOneVerse()
    ensures Render([BibleVerseInterval(At("3", 16), At("3", 16))], DefaultDelimiters) == "John 3:16"
  {
  }

  /** A whole chapter, and a run of whole chapters, are printed as chapter ids alone. */
  lemma ExampleWholeChapters()
    ensures Render([BibleVerseInterval(At("3", 1), At("3", 36))], DefaultDelimiters) == "John 3"
    ensures Render([BibleVerseInterval(At("3", 1), At("4", 54))], DefaultDelimiters) == "John 3\U{2014}4"
  {
  }

  /** A run that starts inside a chapter and ends at the end of the next. */
  lemma ExamplePartialToFull()
    ensures Render([BibleVerseInterval(At("3", 2), At("4", 54))], DefaultDelimiters) == "John 3:2\U{2014}4"
  {
  }

  /** Later intervals in the same chapter only add their verse numbers. */
  lemma ExampleVerseList()
    ensures Render([BibleVerseInterval(At("3", 1), At("3", 1)), BibleVerseInterval(At("3", 3), At("3", 3)),
                    BibleVerseInterval(At("3", 5), At("3", 6))], DefaultDelimiters) == "John 3:1,3,5-6"
  {
    assert IntToString(5) == "5" && IntToString(6) == "6" && IntToString(3) == "3";
    var a, b, c := BibleVerseInterval(At("3", 1), At("3", 1)), BibleVerseInterval(At("3", 3), At("3", 3)),
                   BibleVerseInterval(At("3", 5), At("3", 6));
    var ivs := [a, b, c];
    assert ivs[..2] == [a, b] && [a, b][..1] == [a];
    assert IntToString(1) == "1";
    assert FormatInterval(a, DefaultDelimiters) == "John 3:1";
    assert Groups([a], DefaultDelimiters) == ["John 3:1"];
    assert Groups([a, b], DefaultDelimiters) == ["John 3:1", ",", "3"];
    assert IntToString(5) + "-" + IntToString(6) == "5-6";
    assert Step(b, c, DefaultDelimiters) == [",", "5-6"];
    var g := Groups(ivs, DefaultDelimiters);
    assert g == ["John 3:1", ",", "3", ",", "5-6"];
    assert g[..4][..3] == g[..3] && g[..3][..2] == g[..2] && g[..2][..1] == g[..1] && g[..1][..0] == [];
    assert Concat(g[..1]) == "John 3:1";
    assert Concat(g[..2]) == "John 3:1,";
    assert Concat(g[..3]) == "John 3:1,3";
    assert Concat(g[..4]) == "John 3:1,3,";
    assert g == g[..5];
  }

  /** The groups of the chapter-change example: the first interval in full, then the
      continued chapter's verse number, then the next chapter's numbering. */
  lemma ChapterChangeGroups(a: BibleVerseInterval, b: BibleVerseInterval, c: BibleVerseInterval)
    requires a == BibleVerseInterval(At("3", 16), At("3", 18)) && b == BibleVerseInterval(At("3", 20), At("3", 20))
    requires c == BibleVerseInterval(At("4", 1), At("4", 54))
    ensures AllRenderable([a, b, c])
    ensures Groups([a, b, c], DefaultDelimiters) == ["John 3:16-18", ",", "20", ";", "4"]
  {
    ChapterChangeTexts(a, b, c);
    var d := DefaultDelimiters;
    assert Groups([a], d) == ["John 3:16-18"];
    assert [a, b][..1] == [a];
    assert Groups([a, b], d) == Groups([a], d) + Step(a, b, d);
    assert [a, b, c][..2] == [a, b];
    assert Groups([a, b, c], d) == Groups([a, b], d) + Step(b, c, d);
  }

  /** The texts of the chapter-change example's three intervals. */
  lemma ChapterChangeTexts(a: BibleVerseInterval, b: BibleVerseInterval, c: BibleVerseInterval)
    requires a == BibleVerseInterval(At("3", 16), At("3", 18)) && b == BibleVerseInterval(At("3", 20), At("3", 20))
    requires c == BibleVerseInterval(At("4", 1), At("4", 54))
    ensures FormatInterval(a, DefaultDelimiters) == "John 3:16-18"
    ensures Step(a, b, DefaultDelimiters) == [",", "20"]
    ensures Step(b, c, DefaultDelimiters) == [";", "4"]
  {
    assert IntToString(16) == "16" && IntToString(18) == "18" && IntToString(20) == "20";
  }

  /** The chapter-change example's groups, joined. */
  lemma ChapterChangeJoined()
    ensures Concat(["John 3:16-18", ",", "20", ";", "4"]) == "John 3:16-18,20;4"
  {
    ConcatFive("John 3:16-18", ",", "20", ";", "4");
  }

  /** A new chapter of the same book starts a new group after ";", with no space, and a
      whole chapter is printed as its id alone. */
  lemma ExampleChapterChange()
    ensures Render([BibleVerseInterval(At("3", 16), At("3", 18)), BibleVerseInterval(At("3", 20), At("3", 20)),
                    BibleVerseInterval(At("4", 1), At("4", 54))], DefaultDelimiters) == "John 3:16-18,20;4"
  {
    ChapterChangeGroups(BibleVerseInterval(At("3", 16), At("3", 18)), BibleVerseInterval(At("3", 20), At("3", 20)),
                        BibleVerseInterval(At("4", 1), At("4", 54)));
    ChapterChangeJoined();
  }

  /** Joining five groups. */
  lemma ConcatFive(p: string, q: string, r: string, s: string, t: string)
    ensures Concat([p, q, r, s, t]) == p + q + r + s + t
  {
    assert [p][..0] == [] && [p, q][..1] == [p] && [p, q, r][..2] == [p, q];
    assert [p, q, r, s][..3] == [p, q, r] && [p, q, r, s, t][..4] == [p, q, r, s];
    assert Concat([p]) == p;
    assert Concat([p, q]) == p + q;
    assert Concat([p, q, r]) == p + q + r;
    assert Concat([p, q, r, s]) == p + q + r + s;
  }

  /** The first interval ignores the caller's delimiters; the ones after it use them. */
  lemma FirstIntervalUsesDefaults()
    ensures Render([BibleVerseInterval(At("3", 16), At("3", 16)), BibleVerseInterval(At("4", 2), At("4", 2))],
                   DefaultDelimiters.(gs := " | ", cvs := ".")) == "John 3:16 | 4.2"
  {
    assert IntToString(16) == "16" && IntToString(2) == "2";
    var d := DefaultDelimiters.(gs := " | ", cvs := ".");
    var a, b := BibleVerseInterval(At("3", 16), At("3", 16)), BibleVerseInterval(At("4", 2), At("4", 2));
    assert [a, b][..1] == [a];
    assert FormatInterval(a, DefaultDelimiters) == "John 3:16";
    assert IntToString(2) == "2";
    assert "4" + "." + IntToString(2) == "4.2";
    assert FormatNumbering(b, d.ccd, d.cvd, d.cvs) == "4.2";
    assert Step(a, b, d) == [" | ", "4.2"];
    assert Groups([a], d) == ["John 3:16"];
    var g := Groups([a, b], d);
    assert g == ["John 3:16", " | ", "4.2"];
    assert g[..2][..1] == g[..1] && g[..1][..0] == [];
    assert Concat(g[..1]) == "John 3:16";
    assert Concat(g[..2]) == "John 3:16 | ";
    assert g == g[..3];
  }
}
