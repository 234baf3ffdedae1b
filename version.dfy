/** A Bible version and the per-version structure its verses are ordered and measured by.
    The structure module itself is not part of this model: a structure is taken as given,
    a map from each book to its record (book, order, chapter count, verses per chapter),
    mirroring the frozen record `BibleVersionBookStructure`. */
module BibleVersion {
  import opened Wrappers
  import opened BookInfo

  /** One book's entry in a version structure; `verses` maps a chapter id to its verse count. */
  datatype BookStructure = BookStructure(book: BibleBookInfo, order: int, chapters: int, verses: map<string, int>)

  type VersionStructure = map<BibleBookInfo, BookStructure>

  /** The order values of a structure are pairwise distinct (one book per position). */
  predicate DistinctOrders(s: VersionStructure)
  {
    forall a, b :: a in s && b in s && a != b ==> s[a].order != s[b].order
  }

  datatype Version = Version(internalId: string, externalId: string, lang: string, name: string,
                             disabled: bool, structure: VersionStructure)

  /** `Version(...)`: every text field non-empty, checked in declaration order.
      The caller passes the structure, which defaults to the common Protestant one in the source. */
  function NewVersion(internalId: string, externalId: string, lang: string, name: string,
                      disabled: bool, structure: VersionStructure): (r: Result<Version>)
    ensures r.Ok? <==> internalId != "" && externalId != "" && lang != "" && name != ""
    ensures r.Ok? ==> r.value == Version(internalId, externalId, lang, name, disabled, structure)
    ensures internalId == "" ==> r == Err(ValueError("Internal ID must be a non-empty string"))
    ensures internalId != "" && externalId == "" ==> r == Err(ValueError("External ID must be a non-empty string"))
    ensures internalId != "" && externalId != "" && lang == "" ==> r == Err(ValueError("Language must be a non-empty string"))
    ensures internalId != "" && externalId != "" && lang != "" && name == "" ==>
      r == Err(ValueError("Name must be a non-empty string"))
  {
    if internalId == "" then Err(ValueError("Internal ID must be a non-empty string"))
    else if externalId == "" then Err(ValueError("External ID must be a non-empty string"))
    else if lang == "" then Err(ValueError("Language must be a non-empty string"))
    else if name == "" then Err(ValueError("Name must be a non-empty string"))
    else Ok(Version(internalId, externalId, lang, name, disabled, structure))
  }

  /** `Version.__eq__`: versions are equal when their internal ids are. */
  predicate SameVersion(a: Version, b: Version)
  {
    a.internalId == b.internalId
  }

  /** Equality ignores every field but the internal id, so it is an equivalence. */
  lemma SameVersionOnlyByInternalId(a: Version, b: Version, c: Version)
    ensures SameVersion(a, a)
    ensures SameVersion(a, b) ==> SameVersion(b, a)
    ensures SameVersion(a, b) && SameVersion(b, c) ==> SameVersion(a, c)
    ensures SameVersion(a, a.(externalId := b.externalId, lang := b.lang, name := b.name,
                               disabled := b.disabled, structure := b.structure))
  {
  }
}
