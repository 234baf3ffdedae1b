/** The browser client's mark: texts normalised on construction and the marked verses in a
    `Map` keyed by versioned verse id. The mark index shares marks by reference and removes
    marked verses from them in place, so a mark is an object. */
module ClientMark {
  import opened Wrappers
  import opened Strings
  import opened ClientVerse
  import opened ClientMarkedVerse
  import opened JsMaps
  import Verse
  import MarkedVerseModel
  import MarkConverters

  /** JavaScript truthiness of an optional text: present and non-empty. */
  predicate Truthy(x: Option<string>)
  {
    x.Some? && x.value != ""
  }

  /** `x ? String(x) : null` on an optional text. */
  function Normalize(x: Option<string>): (r: Option<string>)
    ensures r.None? <==> !Truthy(x)
    ensures r.Some? ==> r == x && r.value != ""
  {
    if Truthy(x) then x else None
  }

  /** The key `fromMarkResponse` files a marked verse under. */
  function KeyOf(mv: MarkedVerse): string
  {
    ToVersionedId(mv.verse)
  }

  /** The marked verse built from one entry of a mark response. */
  function EntryOf(r: MarkConverters.SerializedMarkedVerse): MarkedVerse
  {
    Factory(Some(r.id), r.verse.versionId, r.verse.bookId, r.verse.chapterId, r.verse.verseNumber)
  }

  /** The `reduce` of `fromMarkResponse`: each entry `set` under its versioned id, in order. */
  function EntriesOf(rs: seq<MarkConverters.SerializedMarkedVerse>): seq<(string, MarkedVerse)>
    decreases |rs|
  {
    if |rs| == 0 then []
    else
      var last := EntryOf(rs[|rs| - 1]);
      JsMaps.Set(EntriesOf(rs[..|rs| - 1]), KeyOf(last), last)
  }

  /** The versioned id a response entry is filed under. */
  function ResponseKey(r: MarkConverters.SerializedMarkedVerse): string
  {
    KeyOf(EntryOf(r))
  }

  /** The map never holds a key twice, so it has no more entries than the response. */
  lemma {:induction false} EntriesOfDistinct(rs: seq<MarkConverters.SerializedMarkedVerse>)
    ensures DistinctKeys(EntriesOf(rs))
    ensures |EntriesOf(rs)| <= |rs|
    decreases |rs|
  {
    if |rs| > 0 {
      var init := rs[..|rs| - 1];
      var last := EntryOf(rs[|rs| - 1]);
      EntriesOfDistinct(init);
      SetSpec(EntriesOf(init), KeyOf(last), last);
    }
  }

  /** The keys are exactly the versioned ids of the response entries. */
  lemma {:induction false} EntriesOfKeys(rs: seq<MarkConverters.SerializedMarkedVerse>, key: string)
    ensures key in Keys(EntriesOf(rs)) <==> exists k :: 0 <= k < |rs| && ResponseKey(rs[k]) == key
    decreases |rs|
  {
    if |rs| > 0 {
      var init := rs[..|rs| - 1];
      var last := EntryOf(rs[|rs| - 1]);
      EntriesOfKeys(init, key);
      SetHasKey(EntriesOf(init), KeyOf(last), last, key);
      ResponseKeySplit(rs, init, key);
    }
  }

  /** Some entry has the key exactly when an entry before the last, or the last, has it. */
  lemma ResponseKeySplit(rs: seq<MarkConverters.SerializedMarkedVerse>, init: seq<MarkConverters.SerializedMarkedVerse>,
                         key: string)
    requires |rs| > 0 && init == rs[..|rs| - 1]
    ensures (exists k :: 0 <= k < |rs| && ResponseKey(rs[k]) == key)
      <==> (exists k :: 0 <= k < |init| && ResponseKey(init[k]) == key) || ResponseKey(rs[|rs| - 1]) == key
  {
    if exists k :: 0 <= k < |init| && ResponseKey(init[k]) == key {
      var k :| 0 <= k < |init| && ResponseKey(init[k]) == key;
      assert rs[k] == init[k];
    }
    if exists k :: 0 <= k < |rs| && ResponseKey(rs[k]) == key {
      var k :| 0 <= k < |rs| && ResponseKey(rs[k]) == key;
      if k < |init| {
        assert init[k] == rs[k];
      }
    }
  }

  /** A versioned id holds the last response entry filed under it. */
  lemma {:induction false} EntriesOfLastWins(rs: seq<MarkConverters.SerializedMarkedVerse>, k: nat)
    requires k < |rs|
    requires forall j :: k < j < |rs| ==> ResponseKey(rs[j]) != ResponseKey(rs[k])
    ensures Get(EntriesOf(rs), ResponseKey(rs[k])) == Some(EntryOf(rs[k]))
    decreases |rs|
  {
    var init := rs[..|rs| - 1];
    var last := EntryOf(rs[|rs| - 1]);
    EntriesOfDistinct(init);
    SetSpec(EntriesOf(init), KeyOf(last), last);
    if k < |init| {
      assert init[k] == rs[k];
      forall j | k < j < |init| ensures ResponseKey(init[j]) != ResponseKey(init[k]) {
        assert init[j] == rs[j];
      }
      EntriesOfLastWins(init, k);
      assert ResponseKey(rs[|rs| - 1]) != ResponseKey(rs[k]);
    }
  }

  class Mark {
    const id: Option<string>
    const color: Option<string>
    const note: Option<string>
    const reference: Option<string>
    /** Marked verses by versioned verse id, in insertion order. */
    var markedVerses: StringMap<MarkedVerse>
    /** The marking time as text; its conversion to a `Date` is not part of this model. */
    const marked: Option<string>

    /** `Mark(id, color, note, reference, markedVerses, marked)`: a falsy colour, note or
        marking time becomes null; the rest is stored as given. */
    constructor (id: Option<string>, color: Option<string>, note: Option<string>, reference: Option<string>,
                 markedVerses: StringMap<MarkedVerse>, marked: Option<string>)
      ensures this.id == id && this.color == Normalize(color) && this.note == Normalize(note)
      ensures this.reference == reference && this.markedVerses == markedVerses && this.marked == Normalize(marked)
    {
      this.id := id;
      this.color := Normalize(color);
      this.note := Normalize(note);
      this.reference := reference;
      this.markedVerses := markedVerses;
      this.marked := Normalize(marked);
    }

    /** `Mark.factory`: a mark not yet saved, without id, reference or marking time. */
    static method Factory(color: Option<string>, note: Option<string>, markedVerses: StringMap<MarkedVerse>)
      returns (m: Mark)
      ensures fresh(m)
      ensures m.id.None? && m.reference.None? && m.marked.None?
      ensures m.color == Normalize(color) && m.note == Normalize(note) && m.markedVerses == markedVerses
    {
      m := new Mark(None, color, note, None, markedVerses, None);
    }

    /** `Mark.fromMarkResponse`: id and reference copied, the marked verses keyed by their
        versioned ids. */
    static method FromMarkResponse(response: MarkConverters.SerializedMark) returns (m: Mark)
      ensures fresh(m)
      ensures m.id == Some(response.id) && m.reference == Some(response.reference)
      ensures m.color == Normalize(response.color) && m.note == Normalize(response.note)
      ensures m.marked == Normalize(response.marked)
      ensures m.markedVerses == EntriesOf(response.markedVerses)
    {
      EntriesOfDistinct(response.markedVerses);
      UniqueKeysDistinct(EntriesOf(response.markedVerses));
      m := new Mark(Some(response.id), response.color, response.note, Some(response.reference),
                    EntriesOf(response.markedVerses), response.marked);
    }
  }

  /** Client and server name a verse alike: the key the client files a serialised marked
      verse under is the server's versioned id of that verse. */
  lemma ClientKeyIsServerVersionedId(mv: MarkedVerseModel.MarkedVerse)
    ensures KeyOf(EntryOf(MarkConverters.SerializeMarkedVerse(mv))) == Verse.ToVersionedId(mv.verse)
  {
    var v := mv.verse;
    var n := IntToString(v.verseNumber);
    assert Join([v.chapterId, n], Separator) == v.chapterId + "." + n;
    assert Join([v.book.id, v.chapterId, n], Separator) == v.book.id + "." + (v.chapterId + "." + n);
    assert Join([v.version.internalId, v.book.id, v.chapterId, n], Separator)
        == v.version.internalId + "." + Join([v.book.id, v.chapterId, n], Separator);
  }
}
