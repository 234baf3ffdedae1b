/** Mark serialisation for the JSON API: a mark becomes a record of texts and numbers, its
    reference printed by the formatter; the creation response first keeps only the marked
    verses of the requested location. */
module MarkConverters {
  import opened Wrappers
  import opened Strings
  import opened Verse
  import opened Interval
  import opened Reference
  import opened Formatter
  import opened MarkedVerseModel
  import opened MarkModel

  datatype SerializedVerse = SerializedVerse(versionId: string, bookId: string, chapterId: string, verseNumber: int)

  datatype SerializedMarkedVerse = SerializedMarkedVerse(id: string, verse: SerializedVerse)

  datatype SerializedMark = SerializedMark(id: string, color: Option<string>, note: Option<string>,
                                           reference: string, markedVerses: seq<SerializedMarkedVerse>,
                                           marked: Option<string>)

  /** A serialised mark with the passages fetched for it. */
  datatype EnrichedMark<P> = EnrichedMark(mark: SerializedMark, passages: seq<P>)

  /** Python's `str` of an optional id: "None" when absent, the decimal text otherwise. */
  function IdText(id: Option<int>): string
  {
    if id.None? then "None" else IntToString(id.value)
  }

  /** Distinct ids, and an absent id, serialise to distinct texts. */
  lemma IdTextInjective(a: Option<int>, b: Option<int>)
    requires IdText(a) == IdText(b)
    ensures a == b
  {
    if a.Some? && b.Some? {
      IntToStringInjective(a.value, b.value);
    }
  }

  /** One entry of `markedVerses`: the marked verse's id and its verse's four fields. */
  function SerializeMarkedVerse(mv: MarkedVerse): (r: SerializedMarkedVerse)
    ensures r.id == IdText(mv.entityId)
    ensures r.verse.versionId == mv.verse.version.internalId && r.verse.bookId == mv.verse.book.id
    ensures r.verse.chapterId == mv.verse.chapterId && r.verse.verseNumber == mv.verse.verseNumber
  {
    SerializedMarkedVerse(IdText(mv.entityId),
      SerializedVerse(mv.verse.version.internalId, mv.verse.book.id, mv.verse.chapterId, mv.verse.verseNumber))
  }

  function SerializeMarkedVerses(mvs: seq<MarkedVerse>): (r: seq<SerializedMarkedVerse>)
    ensures |r| == |mvs|
  {
    seq(|mvs|, k requires 0 <= k < |mvs| => SerializeMarkedVerse(mvs[k]))
  }

  /** One entry per marked verse, in the same order, each with the verse's fields copied. */
  lemma SerializedVersesMirror(mvs: seq<MarkedVerse>)
    ensures |SerializeMarkedVerses(mvs)| == |mvs|
    ensures forall k :: 0 <= k < |mvs| ==>
      var e := SerializeMarkedVerses(mvs)[k];
      e.id == IdText(mvs[k].entityId)
      && e.verse == SerializedVerse(mvs[k].verse.version.internalId, mvs[k].verse.book.id,
                                    mvs[k].verse.chapterId, mvs[k].verse.verseNumber)
  {
  }

  /** Serialisation keeps the marked verses apart: two lists serialise alike only when they
      agree, entry by entry, on the id and the four verse fields. */
  lemma SerializedVersesDetermineFields(a: seq<MarkedVerse>, b: seq<MarkedVerse>)
    requires SerializeMarkedVerses(a) == SerializeMarkedVerses(b)
    ensures |a| == |b|
    ensures forall k :: 0 <= k < |a| ==>
      a[k].entityId == b[k].entityId && a[k].verse.version.internalId == b[k].verse.version.internalId
      && a[k].verse.book.id == b[k].verse.book.id && a[k].verse.chapterId == b[k].verse.chapterId
      && a[k].verse.verseNumber == b[k].verse.verseNumber
  {
    forall k | 0 <= k < |a|
      ensures a[k].entityId == b[k].entityId
    {
      assert SerializeMarkedVerses(a)[k] == SerializeMarkedVerses(b)[k];
      IdTextInjective(a[k].entityId, b[k].entityId);
    }
    forall k | 0 <= k < |a|
      ensures a[k].verse.version.internalId == b[k].verse.version.internalId
      ensures a[k].verse.book.id == b[k].verse.book.id && a[k].verse.chapterId == b[k].verse.chapterId
      ensures a[k].verse.verseNumber == b[k].verse.verseNumber
    {
      assert SerializeMarkedVerses(a)[k] == SerializeMarkedVerses(b)[k];
    }
  }

  /** The intervals `to_reference` builds over the marked verses. */
  function ReferenceIntervals(mvs: seq<MarkedVerse>): seq<BibleVerseInterval>
  {
    RunsCover(VersesOf(mvs));
    IntervalsOf(Runs(VersesOf(mvs)))
  }

  /** What the formatter needs of a mark's verses: every book is in its version's structure,
      the built intervals can be printed, and one internal id means one structure. */
  predicate Serializable(mvs: seq<MarkedVerse>)
  {
    (forall k :: 0 <= k < |mvs| ==> Known(mvs[k].verse))
    && AllRenderable(ReferenceIntervals(mvs)) && Coherent(ReferenceIntervals(mvs))
  }

  /** `BibleReferenceFormatter.format(mark.to_reference())` with the default delimiters. */
  function ReferenceText(mvs: seq<MarkedVerse>): (r: Result<string>)
    requires Serializable(mvs)
    ensures |mvs| == 0 ==> r == Err(ValueError("Bible reference without verses"))
    ensures |mvs| > 0 ==> r == FormatText(ReferenceIntervals(mvs), DefaultDelimiters)
  {
    if |mvs| == 0 then Err(ValueError("Bible reference without verses"))
    else FormatText(ReferenceIntervals(mvs), DefaultDelimiters)
  }

  /** `serialize_mark` on a mark's values: fails exactly when the reference cannot be
      printed; otherwise the id is stringified, colour, note and marked time pass through,
      and the marked verses are serialised in order. */
  function Serialize(m: MarkData): (r: Result<SerializedMark>)
    requires Serializable(m.markedVerses)
    ensures r.Err? <==> ReferenceText(m.markedVerses).Err?
    ensures r.Err? ==> r.error == ReferenceText(m.markedVerses).error
    ensures r.Ok? ==> r.value.id == IdText(m.entityId) && r.value.color == m.color && r.value.note == m.note
                      && r.value.marked == m.marked && r.value.reference == ReferenceText(m.markedVerses).value
                      && r.value.markedVerses == SerializeMarkedVerses(m.markedVerses)
  {
    var text := ReferenceText(m.markedVerses);
    if text.Err? then Err(text.error)
    else Ok(SerializedMark(IdText(m.entityId), m.color, m.note, text.value,
                           SerializeMarkedVerses(m.markedVerses), m.marked))
  }

  /** A mark without verses cannot be serialised; one whose verses span two versions fails
      with the formatter's version error; every other serialisable mark succeeds with a
      non-empty reference. */
  lemma SerializeOutcomes(m: MarkData)
    requires Serializable(m.markedVerses)
    ensures |m.markedVerses| == 0 ==> Serialize(m) == Err(ValueError("Bible reference without verses"))
    ensures |m.markedVerses| > 0 ==>
      (Serialize(m).Err? <==> !OneVersion(ReferenceIntervals(m.markedVerses)))
    ensures |m.markedVerses| > 0 && Serialize(m).Ok? ==> |Serialize(m).value.reference| > 0
  {
  }

  /** `serialize_mark`: reads the mark and builds a fresh reference to print; the mark is
      left as it is. */
  method SerializeMark(mark: Mark) returns (r: Result<SerializedMark>)
    requires Serializable(mark.markedVerses)
    ensures r == Serialize(mark.Data())
  {
    var reference := mark.ToReference();
    if reference.Err? {
      return Err(reference.error);
    }
    var text := Format(reference.value, DefaultDelimiters);
    if text.Err? {
      return Err(text.error);
    }
    r := Ok(SerializedMark(IdText(mark.entityId), mark.color, mark.note, text.value,
                           SerializeMarkedVerses(mark.markedVerses), mark.marked));
  }

  /** `serialize_enriched_mark`: the serialised mark with the passages added beside it. */
  method SerializeEnrichedMark<P>(mark: Mark, passages: seq<P>) returns (r: Result<EnrichedMark<P>>)
    requires Serializable(mark.markedVerses)
    ensures r.Err? <==> Serialize(mark.Data()).Err?
    ensures r.Err? ==> r.error == Serialize(mark.Data()).error
    ensures r.Ok? ==> r.value.mark == Serialize(mark.Data()).value && r.value.passages == passages
  {
    var serialized := SerializeMark(mark);
    if serialized.Err? {
      return Err(serialized.error);
    }
    r := Ok(EnrichedMark(serialized.value, passages));
  }

  // ---------------------------------------------------------------------------
  // The creation response: marked verses of the requested location only
  // ---------------------------------------------------------------------------

  /** The request's `location`: a version internal id, a book id and a chapter id. */
  datatype Location = Location(versionId: string, bookId: string, chapterId: string)

  predicate InLocation(mv: MarkedVerse, loc: Location)
  {
    mv.verse.version.internalId == loc.versionId && mv.verse.book.id == loc.bookId
    && mv.verse.chapterId == loc.chapterId
  }

  /** The `filter` of `build_mark_creation_response`, as a function of the list. */
  function FilterAt(mvs: seq<MarkedVerse>, loc: Location): (r: seq<MarkedVerse>)
    ensures |r| <= |mvs|
    ensures forall k :: 0 <= k < |r| ==> InLocation(r[k], loc)
    decreases |mvs|
  {
    if |mvs| == 0 then []
    else
      var init := FilterAt(mvs[..|mvs| - 1], loc);
      if InLocation(mvs[|mvs| - 1], loc) then init + [mvs[|mvs| - 1]] else init
  }

  /** A marked verse survives the filter exactly when it is in the list and at the location. */
  lemma {:induction false} FilterAtMembers(mvs: seq<MarkedVerse>, loc: Location)
    ensures forall mv :: mv in FilterAt(mvs, loc) <==> mv in mvs && InLocation(mv, loc)
    decreases |mvs|
  {
    if |mvs| > 0 {
      var init := mvs[..|mvs| - 1];
      FilterAtMembers(init, loc);
      assert mvs == init + [mvs[|mvs| - 1]];
    }
  }

  /** The filter keeps relative order: filtering a concatenation concatenates the filtered parts. */
  lemma {:induction false} FilterAtAppend(a: seq<MarkedVerse>, b: seq<MarkedVerse>, loc: Location)
    ensures FilterAt(a + b, loc) == FilterAt(a, loc) + FilterAt(b, loc)
    decreases |b|
  {
    if |b| > 0 {
      var init := b[..|b| - 1];
      assert (a + b)[..|a + b| - 1] == a + init;
      FilterAtAppend(a, init, loc);
    } else {
      assert a + b == a;
    }
  }

  /** Filtering twice is filtering once. */
  lemma {:induction false} FilterAtIdempotent(mvs: seq<MarkedVerse>, loc: Location)
    ensures FilterAt(FilterAt(mvs, loc), loc) == FilterAt(mvs, loc)
    decreases |mvs|
  {
    if |mvs| > 0 {
      var init := mvs[..|mvs| - 1];
      var last := mvs[|mvs| - 1];
      FilterAtIdempotent(init, loc);
      if InLocation(last, loc) {
        FilterAtAppend(FilterAt(init, loc), [last], loc);
        assert FilterAt([last], loc) == [last] by {
          assert [last][..0] == [];
        }
      }
    }
  }

  /** The filter keeps everything when every verse is at the location, and nothing when none is. */
  lemma {:induction false} FilterAtExtremes(mvs: seq<MarkedVerse>, loc: Location)
    ensures (forall k :: 0 <= k < |mvs| ==> InLocation(mvs[k], loc)) ==> FilterAt(mvs, loc) == mvs
    ensures (forall k :: 0 <= k < |mvs| ==> !InLocation(mvs[k], loc)) ==> FilterAt(mvs, loc) == []
    decreases |mvs|
  {
    if |mvs| > 0 {
      var init := mvs[..|mvs| - 1];
      FilterAtExtremes(init, loc);
      assert mvs == init + [mvs[|mvs| - 1]];
    }
  }

  /** After filtering, every verse has the location's version, so the only way to fail is an
      empty list: the version error of the formatter cannot occur. */
  lemma FilteredReferenceFailsOnlyWhenEmpty(mvs: seq<MarkedVerse>, loc: Location)
    requires Serializable(FilterAt(mvs, loc))
    ensures ReferenceText(FilterAt(mvs, loc)).Err? <==> |FilterAt(mvs, loc)| == 0
  {
    var kept := FilterAt(mvs, loc);
    var vs := VersesOf(kept);
    var ivs := ReferenceIntervals(kept);
    IntervalEndsAreInputs(vs);
    forall k | 0 <= k < |ivs| ensures ivs[k].left.version.internalId == loc.versionId {
      var j :| 0 <= j < |vs| && vs[j] == ivs[k].left;
      assert InLocation(kept[j], loc);
    }
    assert OneVersion(ivs);
  }

  /** `build_mark_creation_response`: replaces the mark's marked verses by those at the
      request's location, in their order, then serialises the mark. */
  method BuildMarkCreationResponse(loc: Location, mark: Mark) returns (r: Result<SerializedMark>)
    requires Serializable(FilterAt(mark.markedVerses, loc))
    modifies mark
    ensures mark.markedVerses == FilterAt(old(mark.markedVerses), loc)
    ensures mark.Data() == old(mark.Data()).(markedVerses := mark.markedVerses)
    ensures r == Serialize(mark.Data())
    ensures r.Err? <==> |mark.markedVerses| == 0
  {
    mark.markedVerses := FilterAt(mark.markedVerses, loc);
    FilteredReferenceFailsOnlyWhenEmpty(old(mark.markedVerses), loc);
    r := SerializeMark(mark);
  }
}
