/** A verse as it belongs to a mark: the verse itself, whether it is shown, and its
    database id when it has one. */
module MarkedVerseModel {
  import opened Wrappers
  import opened BookInfo
  import opened BibleVersion
  import opened Verse

  datatype MarkedVerse = MarkedVerse(verse: BibleVerse, visibility: bool, entityId: Option<int>)

  /** `MarkedVerse(verse, visibility=True, entity_id=None)`: the verse is stored as given.
      Visibility is a `bool` here, so the constructor's type check always passes. */
  function NewMarkedVerse(verse: BibleVerse, visibility: bool, entityId: Option<int>): (r: MarkedVerse)
    ensures r.verse == verse && r.visibility == visibility && r.entityId == entityId
  {
    MarkedVerse(verse, visibility, entityId)
  }

  /** `MarkedVerse.factory(...)`: builds the verse first, so a bad chapter or verse number
      fails with the verse's own error before any marked verse exists. */
  function Factory(version: Version, book: BibleBookInfo, chapterId: string, verseNumber: int,
                   visibility: bool, entityId: Option<int>): (r: Result<MarkedVerse>)
    ensures r.Ok? <==> NewVerse(version, book, chapterId, verseNumber).Ok?
    ensures r.Err? ==> r.error == NewVerse(version, book, chapterId, verseNumber).error
    ensures r.Ok? ==> r.value.verse == BibleVerse(version, book, chapterId, verseNumber)
                      && WellFormed(r.value.verse)
                      && r.value.visibility == visibility && r.value.entityId == entityId
  {
    var v := NewVerse(version, book, chapterId, verseNumber);
    if v.Err? then Err(v.error) else Ok(NewMarkedVerse(v.value, visibility, entityId))
  }

  /** The defaults: a factory-built marked verse is visible and has no id. */
  lemma FactoryDefaults(version: Version, book: BibleBookInfo, chapterId: string, verseNumber: int)
    requires chapterId != "" && verseNumber >= 1
    ensures Factory(version, book, chapterId, verseNumber, true, None)
            == Ok(MarkedVerse(BibleVerse(version, book, chapterId, verseNumber), true, None))
  {
  }
}
