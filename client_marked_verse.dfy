/** The browser client's marked verse: an optional id and a verse. */
module ClientMarkedVerse {
  import opened Wrappers
  import opened Strings
  import opened ClientVerse

  /** `MarkedVerse(id, verse)`: both stored as given; a verse not yet saved has no id. */
  datatype MarkedVerse = MarkedVerse(id: Option<string>, verse: Verse)

  /** `MarkedVerse.factory`: the id and a verse of the four given fields. */
  function Factory(id: Option<string>, versionId: string, bookId: string, chapterId: string,
                   verseNumber: int): (r: MarkedVerse)
    ensures r.id == id
    ensures r.verse == Verse(versionId, bookId, chapterId, verseNumber)
    ensures ToVersionedId(r.verse) == Join([versionId, bookId, chapterId, NumberText(verseNumber)], Separator)
  {
    MarkedVerse(id, Verse(versionId, bookId, chapterId, verseNumber))
  }

  /** `MarkedVerse.fromVersionedVerseId`: no id, and the verse read from the text; it throws
      on a malformed text as `Verse.fromVersionedVerseId` does. */
  function FromVersionedVerseId(s: string): (r: Result<MarkedVerse>)
    ensures r.Err? <==> ParseVersionedVerseId(s).None?
    ensures r.Err? ==> r.error == ClientVerse.FromVersionedVerseId(s).error
    ensures r.Ok? ==> r.value.id.None? && r.value.verse == ClientVerse.FromVersionedVerseId(s).value
  {
    var verse := ClientVerse.FromVersionedVerseId(s);
    if verse.Err? then Err(verse.error) else Ok(MarkedVerse(None, verse.value))
  }

  /** A well-formed id whose verse number is written without leading zeros comes back
      unchanged from the marked verse built from it. */
  lemma FromVersionedVerseIdRoundTrip(s: string)
    requires ParseVersionedVerseId(s).Some? && IsCanonicalDigits(Split(s, Separator)[3])
    ensures FromVersionedVerseId(s).Ok? && ToVersionedId(FromVersionedVerseId(s).value.verse) == s
  {
    PrintParsed(s);
  }
}
