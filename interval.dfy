/** A closed interval of verses `[left, right]` of one version, with the shape predicates
    the formatter dispatches on. */
module Interval {
  import opened Wrappers
  import opened Strings
  import opened BookInfo
  import opened BibleVersion
  import opened Verse

  datatype BibleVerseInterval = BibleVerseInterval(left: BibleVerse, right: BibleVerse)

  /** `BibleVerseInterval(left, right)`: fails across versions, or when `left > right`,
      which Python evaluates as `right < left` (in `right`'s version structure). */
  function NewInterval(left: BibleVerse, right: BibleVerse): (r: Result<BibleVerseInterval>)
    requires left.book in right.version.structure && Known(right)
    ensures r.Ok? <==> SameVersion(left.version, right.version)
                       && !KeyLess(KeyOf(right, right.version.structure), KeyOf(left, right.version.structure))
    ensures r.Ok? ==> r.value == BibleVerseInterval(left, right)
    ensures !SameVersion(left.version, right.version) ==>
      r == Err(ValueError("Left and right verses must be from the same version"))
    ensures SameVersion(left.version, right.version) && Less(right, left) == Ok(true) ==>
      r == Err(ValueError("Left verse must be before or equal to the right verse"))
  {
    if !SameVersion(left.version, right.version) then
      Err(ValueError("Left and right verses must be from the same version"))
    else if Less(right, left).value then
      Err(ValueError("Left verse must be before or equal to the right verse"))
    else
      Ok(BibleVerseInterval(left, right))
  }

  /** `is_degenerated`: the interval holds a single verse. */
  predicate IsDegenerated(i: BibleVerseInterval)
  {
    SameVerse(i.left, i.right)
  }

  predicate StartsAtChapterBeginning(i: BibleVerseInterval)
  {
    i.left.verseNumber == 1
  }

  /** The structure knows the verse count of the right verse's chapter. */
  predicate HasChapterEnd(i: BibleVerseInterval, s: VersionStructure)
  {
    i.right.book in s && i.right.chapterId in s[i.right.book].verses
  }

  /** `ends_at_chapter_ending`: the right verse is the last of its chapter. */
  predicate EndsAtChapterEnding(i: BibleVerseInterval, s: VersionStructure)
    requires HasChapterEnd(i, s)
  {
    i.right.verseNumber == s[i.right.book].verses[i.right.chapterId]
  }

  predicate IsInSameBook(i: BibleVerseInterval)
  {
    i.left.book == i.right.book
  }

  predicate IsInSameChapter(i: BibleVerseInterval)
  {
    IsInSameBook(i) && i.left.chapterId == i.right.chapterId
  }

  predicate IsPartialChapter(i: BibleVerseInterval, s: VersionStructure)
    requires IsInSameChapter(i) && StartsAtChapterBeginning(i) ==> HasChapterEnd(i, s)
  {
    IsInSameChapter(i) && !(StartsAtChapterBeginning(i) && EndsAtChapterEnding(i, s))
  }

  predicate IsFullChapter(i: BibleVerseInterval, s: VersionStructure)
    requires IsInSameChapter(i) && StartsAtChapterBeginning(i) ==> HasChapterEnd(i, s)
  {
    IsInSameChapter(i) && StartsAtChapterBeginning(i) && EndsAtChapterEnding(i, s)
  }

  predicate IsCrossFullChapter(i: BibleVerseInterval, s: VersionStructure)
    requires !IsInSameChapter(i) && StartsAtChapterBeginning(i) ==> HasChapterEnd(i, s)
  {
    !IsInSameChapter(i) && StartsAtChapterBeginning(i) && EndsAtChapterEnding(i, s)
  }

  predicate IsCrossFullToPartialChapter(i: BibleVerseInterval, s: VersionStructure)
    requires !IsInSameChapter(i) && StartsAtChapterBeginning(i) ==> HasChapterEnd(i, s)
  {
    !IsInSameChapter(i) && StartsAtChapterBeginning(i) && !EndsAtChapterEnding(i, s)
  }

  predicate IsCrossPartialToFullChapter(i: BibleVerseInterval, s: VersionStructure)
    requires !IsInSameChapter(i) && !StartsAtChapterBeginning(i) ==> HasChapterEnd(i, s)
  {
    !IsInSameChapter(i) && !StartsAtChapterBeginning(i) && EndsAtChapterEnding(i, s)
  }

  /** `to_id`: one verse id for a single verse, else the two verse ids joined by '-'. */
  function ToId(i: BibleVerseInterval): string
  {
    if IsDegenerated(i) then ToVerseId(i.left) else ToVerseId(i.left) + "-" + ToVerseId(i.right)
  }

  /** `==` on intervals compares both ends. */
  predicate SameInterval(a: BibleVerseInterval, b: BibleVerseInterval)
  {
    SameVerse(a.left, b.left) && SameVerse(a.right, b.right)
  }

  /** `a < b` on intervals: `a.left < b.left`. */
  function IntervalLess(a: BibleVerseInterval, b: BibleVerseInterval): Result<bool>
    requires a.left.book in a.left.version.structure && b.left.book in a.left.version.structure
  {
    Less(a.left, b.left)
  }

  /** `a > b` on intervals: `a.left > b.left`, which Python evaluates as `b.left < a.left`. */
  function IntervalGreater(a: BibleVerseInterval, b: BibleVerseInterval): Result<bool>
    requires a.left.book in b.left.version.structure && b.left.book in b.left.version.structure
  {
    Less(b.left, a.left)
  }

  // ---------------------------------------------------------------------------
  // Properties of the shapes
  // ---------------------------------------------------------------------------

  /** A constructed interval lies in one version and never runs backwards. */
  lemma ConstructedIsOrdered(left: BibleVerse, right: BibleVerse)
    requires left.book in right.version.structure && Known(right)
    requires NewInterval(left, right).Ok?
    ensures SameVersion(left.version, right.version)
    ensures Less(right, left) == Ok(false)
  {
  }

  lemma SameChapterIsSameBook(i: BibleVerseInterval)
    ensures IsInSameChapter(i) ==> IsInSameBook(i)
    ensures IsDegenerated(i) ==> IsInSameChapter(i)
  {
  }

  /** Inside one chapter exactly one of "partial" and "full" holds, and no cross predicate does. */
  lemma SameChapterShapes(i: BibleVerseInterval, s: VersionStructure)
    requires IsInSameChapter(i) && HasChapterEnd(i, s)
    ensures IsPartialChapter(i, s) != IsFullChapter(i, s)
    ensures IsFullChapter(i, s) <==> StartsAtChapterBeginning(i) && EndsAtChapterEnding(i, s)
    ensures !IsCrossFullChapter(i, s) && !IsCrossFullToPartialChapter(i, s) && !IsCrossPartialToFullChapter(i, s)
  {
  }

  /** Across chapters "partial" and "full" are both false, at most one cross predicate holds,
      and all three are false exactly when neither boundary is aligned. */
  lemma CrossChapterShapes(i: BibleVerseInterval, s: VersionStructure)
    requires !IsInSameChapter(i) && HasChapterEnd(i, s)
    ensures !IsPartialChapter(i, s) && !IsFullChapter(i, s)
    ensures !(IsCrossFullChapter(i, s) && IsCrossFullToPartialChapter(i, s))
    ensures !(IsCrossFullChapter(i, s) && IsCrossPartialToFullChapter(i, s))
    ensures !(IsCrossFullToPartialChapter(i, s) && IsCrossPartialToFullChapter(i, s))
    ensures (!IsCrossFullChapter(i, s) && !IsCrossFullToPartialChapter(i, s) && !IsCrossPartialToFullChapter(i, s))
            <==> (!StartsAtChapterBeginning(i) && !EndsAtChapterEnding(i, s))
  {
  }

  lemma {:induction false} VerseIdDashFree(v: BibleVerse)
    requires WellFormed(v) && Free(v.book.id, '-') && Free(v.chapterId, '-')
    ensures Free(ToVerseId(v), '-')
  {
  }

  /** `to_id` can be taken apart again at its '-': one verse id for a single verse, two otherwise
      (for well-formed verses whose book and chapter ids contain no '-'). */
  lemma {:induction false} ToIdFields(i: BibleVerseInterval)
    requires WellFormed(i.left) && WellFormed(i.right)
    requires Free(i.left.book.id, '-') && Free(i.left.chapterId, '-')
    requires Free(i.right.book.id, '-') && Free(i.right.chapterId, '-')
    ensures IsDegenerated(i) ==> Split(ToId(i), '-') == [ToVerseId(i.left)]
    ensures !IsDegenerated(i) ==> Split(ToId(i), '-') == [ToVerseId(i.left), ToVerseId(i.right)]
  {
    VerseIdDashFree(i.left);
    VerseIdDashFree(i.right);
    if IsDegenerated(i) {
      SplitJoin([ToVerseId(i.left)], '-');
    } else {
      var two := [ToVerseId(i.left), ToVerseId(i.right)];
      assert Join(two, '-') == ToId(i) by {
        assert Join(two[1..], '-') == ToVerseId(i.right);
      }
      SplitJoin(two, '-');
    }
  }

  /** `<` and `>` look only at the left verses, while `==` also compares the right ones. */
  lemma OrderIgnoresRight(a: BibleVerseInterval, b: BibleVerseInterval)
    requires Known(a.left) && a.left == b.left
    ensures IntervalLess(a, b) == Ok(false) && IntervalGreater(a, b) == Ok(false)
    ensures SameInterval(a, b) <==> SameVerse(a.right, b.right)
  {
  }

  /** Intervals with the same left verses compare alike under `<` and `>`, whatever their
      right verses. */
  lemma OrderOnlyByLeft(a: BibleVerseInterval, a': BibleVerseInterval, b: BibleVerseInterval, b': BibleVerseInterval)
    requires a.left == a'.left && b.left == b'.left
    requires a.left.book in a.left.version.structure && b.left.book in a.left.version.structure
    requires a.left.book in b.left.version.structure && b.left.book in b.left.version.structure
    ensures IntervalLess(a, b) == IntervalLess(a', b')
    ensures IntervalGreater(a, b) == IntervalGreater(a', b')
  {
  }
}
