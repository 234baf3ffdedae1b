/** A verse of one version: book, chapter id (text) and verse number, with the
    "next sibling" relation, four-field equality and the version-scoped strict order. */
module Verse {
  import opened Wrappers
  import opened Strings
  import opened BookInfo
  import opened BibleVersion

  datatype BibleVerse = BibleVerse(version: Version, book: BibleBookInfo, chapterId: string, verseNumber: int)

  /** What construction guarantees of every verse. */
  predicate WellFormed(v: BibleVerse)
  {
    v.chapterId != "" && v.verseNumber >= 1
  }

  /** The verse's book is listed in its own version's structure, so ordering can look it up. */
  predicate Known(v: BibleVerse)
  {
    v.book in v.version.structure
  }

  /** `BibleVerse(version, book, chapter_id, verse_number)`: the chapter is checked before the number. */
  function NewVerse(version: Version, book: BibleBookInfo, chapterId: string, verseNumber: int): (r: Result<BibleVerse>)
    ensures r.Ok? <==> chapterId != "" && verseNumber >= 1
    ensures r.Ok? ==> r.value == BibleVerse(version, book, chapterId, verseNumber) && WellFormed(r.value)
    ensures chapterId == "" ==> r == Err(ValueError("Invalid chapter"))
    ensures chapterId != "" && verseNumber < 1 ==> r == Err(ValueError("Invalid verse"))
  {
    if chapterId == "" then Err(ValueError("Invalid chapter"))
    else if verseNumber < 1 then Err(ValueError("Invalid verse"))
    else Ok(BibleVerse(version, book, chapterId, verseNumber))
  }

  /** `to_verse_id`: "book.chapter.verse". */
  function ToVerseId(v: BibleVerse): string
  {
    v.book.id + "." + v.chapterId + "." + IntToString(v.verseNumber)
  }

  /** `to_versioned_id`: the version's internal id, a dot, then the verse id. */
  function ToVersionedId(v: BibleVerse): string
  {
    v.version.internalId + "." + ToVerseId(v)
  }

  lemma NumberIsDotFree(n: int)
    ensures Free(IntToString(n), '.')
  {
  }

  /** The ids are dot-separated fields that a split on '.' takes apart again,
      provided the book and chapter ids and the version id contain no dot. */
  lemma {:induction false} VerseIdFields(v: BibleVerse)
    requires Free(v.book.id, '.') && Free(v.chapterId, '.')
    ensures Split(ToVerseId(v), '.') == [v.book.id, v.chapterId, IntToString(v.verseNumber)]
    ensures Free(v.version.internalId, '.') ==>
      Split(ToVersionedId(v), '.') == [v.version.internalId, v.book.id, v.chapterId, IntToString(v.verseNumber)]
  {
    var n := IntToString(v.verseNumber);
    NumberIsDotFree(v.verseNumber);
    var three := [v.book.id, v.chapterId, n];
    assert Join(three, '.') == ToVerseId(v) by {
      assert Join(three[2..], '.') == n;
      assert Join(three[1..], '.') == v.chapterId + "." + n;
    }
    SplitJoin(three, '.');
    if Free(v.version.internalId, '.') {
      var four := [v.version.internalId] + three;
      assert four[1..] == three;
      assert Join(four, '.') == ToVersionedId(v);
      SplitJoin(four, '.');
    }
  }

  /** `a.is_next_verse_sibling(b)`: `b` is the verse right after `a` in the same chapter. */
  predicate IsNextVerseSibling(a: BibleVerse, b: BibleVerse)
  {
    SameVersion(b.version, a.version) && b.book == a.book && b.chapterId == a.chapterId
    && b.verseNumber == a.verseNumber + 1
  }

  /** `a == b`: version (by internal id), book, chapter id and verse number all equal. */
  predicate SameVerse(a: BibleVerse, b: BibleVerse)
  {
    SameVersion(a.version, b.version) && a.book == b.book && a.chapterId == b.chapterId
    && a.verseNumber == b.verseNumber
  }

  // ---------------------------------------------------------------------------
  // Ordering
  // ---------------------------------------------------------------------------

  /** The position of a verse under a structure: book order, chapter id, verse number. */
  datatype SortKey = SortKey(bookOrder: int, chapterId: string, verseNumber: int)

  function KeyOf(v: BibleVerse, s: VersionStructure): SortKey
    requires v.book in s
  {
    SortKey(s[v.book].order, v.chapterId, v.verseNumber)
  }

  /** Lexicographic order on positions, chapter ids compared as text. */
  predicate KeyLess(x: SortKey, y: SortKey)
  {
    x.bookOrder < y.bookOrder
    || (x.bookOrder == y.bookOrder && LexLess(x.chapterId, y.chapterId))
    || (x.bookOrder == y.bookOrder && x.chapterId == y.chapterId && x.verseNumber < y.verseNumber)
  }

  /** `a < b`: raises across versions; otherwise compares book orders looked up in `a`'s
      version structure, then chapter ids as Python strings, then verse numbers. */
  function Less(a: BibleVerse, b: BibleVerse): (r: Result<bool>)
    requires a.book in a.version.structure && b.book in a.version.structure
    ensures r.Err? <==> !SameVersion(a.version, b.version)
    ensures r.Err? ==> r.error == ValueError("Verse comparison between different versions")
    ensures r.Ok? ==> r.value == KeyLess(KeyOf(a, a.version.structure), KeyOf(b, a.version.structure))
  {
    if !SameVersion(a.version, b.version) then
      Err(ValueError("Verse comparison between different versions"))
    else
      var book := a.version.structure[a.book].order;
      var otherBook := a.version.structure[b.book].order;
      if book == otherBook then
        if a.chapterId == b.chapterId then
          LexLessIrreflexive(a.chapterId);
          if a.verseNumber == b.verseNumber then Ok(false)
          else if a.verseNumber < b.verseNumber then Ok(true)
          else Ok(false)
        else if LexLess(a.chapterId, b.chapterId) then Ok(true)
        else Ok(false)
      else if book < otherBook then Ok(true)
      else Ok(false)
  }

  lemma {:induction false} KeyLessIrreflexive(x: SortKey)
    ensures !KeyLess(x, x)
  {
    LexLessIrreflexive(x.chapterId);
  }

  lemma {:induction false} KeyLessTransitive(x: SortKey, y: SortKey, z: SortKey)
    requires KeyLess(x, y) && KeyLess(y, z)
    ensures KeyLess(x, z)
  {
    if x.bookOrder == y.bookOrder == z.bookOrder {
      if LexLess(x.chapterId, y.chapterId) && LexLess(y.chapterId, z.chapterId) {
        LexLessTransitive(x.chapterId, y.chapterId, z.chapterId);
      }
    }
  }

  /** Two different positions are always ordered one way or the other. */
  lemma {:induction false} KeyLessTotal(x: SortKey, y: SortKey)
    requires x != y
    ensures KeyLess(x, y) || KeyLess(y, x)
  {
    if x.bookOrder == y.bookOrder && x.chapterId != y.chapterId {
      LexLessTotal(x.chapterId, y.chapterId);
    }
  }

  lemma {:induction false} KeyLessAsymmetric(x: SortKey, y: SortKey)
    requires KeyLess(x, y)
    ensures !KeyLess(y, x)
  {
    if x.bookOrder == y.bookOrder && LexLess(x.chapterId, y.chapterId) {
      LexLessAsymmetric(x.chapterId, y.chapterId);
    } else if x.bookOrder == y.bookOrder && x.chapterId == y.chapterId {
      LexLessIrreflexive(x.chapterId);
    }
  }

  /** `<` is irreflexive: a verse is never before an equal verse. */
  lemma LessIrreflexive(a: BibleVerse, b: BibleVerse)
    requires a.book in a.version.structure && SameVerse(a, b)
    ensures Less(a, b) == Ok(false)
  {
  }

  /** Within one version and structure with distinct book orders, two verses at different
      positions are ordered exactly one way: `<` is a strict total order there. */
  lemma {:induction false} LessStrictTotal(a: BibleVerse, b: BibleVerse)
    requires SameVersion(a.version, b.version) && a.version.structure == b.version.structure
    requires Known(a) && Known(b) && DistinctOrders(a.version.structure)
    requires a.book != b.book || a.chapterId != b.chapterId || a.verseNumber != b.verseNumber
    ensures Less(a, b).Ok? && Less(b, a).Ok?
    ensures Less(a, b).value != Less(b, a).value
  {
    var s := a.version.structure;
    var x, y := KeyOf(a, s), KeyOf(b, s);
    assert x != y;
    KeyLessTotal(x, y);
    if KeyLess(x, y) { KeyLessAsymmetric(x, y); } else { KeyLessAsymmetric(y, x); }
  }

  /** The next sibling of a verse comes strictly after it. */
  lemma SiblingComesAfter(a: BibleVerse, b: BibleVerse)
    requires IsNextVerseSibling(a, b) && Known(a)
    ensures Less(a, b) == Ok(true)
    ensures b.book in b.version.structure && a.book in b.version.structure ==> Less(b, a) == Ok(false)
  {
  }

  /** The sibling relation never crosses a chapter, book or version. */
  lemma SiblingsShareChapter(a: BibleVerse, b: BibleVerse)
    requires IsNextVerseSibling(a, b)
    ensures SameVersion(a.version, b.version) && a.book == b.book && a.chapterId == b.chapterId
    ensures !SameVerse(a, b)
  {
  }
}
