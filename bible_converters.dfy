/** The chapter response of the Bible API: the chapter's fields and hypermedia links to the
    chapter itself and to its neighbours. */
module BibleConverters {
  import opened Wrappers
  import opened Strings

  /** A neighbouring chapter as the passage service describes it. */
  datatype ChapterRef = ChapterRef(bookId: string, number: string)

  /** The fields of the passage service's chapter record that the response reads;
      `previous` and `next` are absent at the ends of the Bible. */
  datatype ChapterContent = ChapterContent(bookId: string, number: string, reference: string, content: string,
                                           previous: Option<ChapterRef>, next: Option<ChapterRef>)

  datatype Chapter = Chapter(versionId: string, bookId: string, chapterId: string, reference: string, content: string)

  datatype Link = Link(versionId: string, bookId: string, chapterId: string, href: string)

  datatype ChapterResponse = ChapterResponse(chapter: Chapter, links: map<string, Link>)

  /** The path of a chapter page: "/version/book/chapter". */
  function Href(versionId: string, bookId: string, number: string): string
  {
    "/" + versionId + "/" + bookId + "/" + number
  }

  function LinkTo(versionId: string, target: ChapterRef): (r: Link)
    ensures r.versionId == versionId && r.bookId == target.bookId && r.chapterId == target.number
    ensures r.href == Href(versionId, target.bookId, target.number)
  {
    Link(versionId, target.bookId, target.number, Href(versionId, target.bookId, target.number))
  }

  /** `build_chapter_content_hateoas`: always "self", then "prev" and "next" when the
      record names those chapters. */
  function ChapterLinks(versionId: string, c: ChapterContent): (r: map<string, Link>)
  {
    var links := map["self" := LinkTo(versionId, ChapterRef(c.bookId, c.number))];
    var withPrev := if c.previous.Some? then links["prev" := LinkTo(versionId, c.previous.value)] else links;
    if c.next.Some? then withPrev["next" := LinkTo(versionId, c.next.value)] else withPrev
  }

  /** The keys are "self", plus "prev" exactly when there is a previous chapter and "next"
      exactly when there is a next one; each link points into the given version, "self" at
      the chapter itself and the others at the neighbours. */
  lemma ChapterLinksShape(versionId: string, c: ChapterContent)
    ensures "self" in ChapterLinks(versionId, c)
    ensures ("prev" in ChapterLinks(versionId, c)) <==> c.previous.Some?
    ensures ("next" in ChapterLinks(versionId, c)) <==> c.next.Some?
    ensures forall key :: key in ChapterLinks(versionId, c) ==>
      key in {"self", "prev", "next"} && ChapterLinks(versionId, c)[key].versionId == versionId
    ensures ChapterLinks(versionId, c)["self"] == LinkTo(versionId, ChapterRef(c.bookId, c.number))
    ensures c.previous.Some? ==> ChapterLinks(versionId, c)["prev"] == LinkTo(versionId, c.previous.value)
    ensures c.next.Some? ==> ChapterLinks(versionId, c)["next"] == LinkTo(versionId, c.next.value)
  {
  }

  /** `build_chapter_content_response`. */
  function BuildChapterContentResponse(versionId: string, c: ChapterContent): (r: ChapterResponse)
    ensures r.chapter == Chapter(versionId, c.bookId, c.number, c.reference, c.content)
    ensures r.links == ChapterLinks(versionId, c)
  {
    ChapterResponse(Chapter(versionId, c.bookId, c.number, c.reference, c.content), ChapterLinks(versionId, c))
  }

  /** A link's path names its version, book and chapter: for slash-free ids, splitting the
      path on '/' gives them back after the leading empty piece. */
  lemma HrefRoundTrip(versionId: string, bookId: string, number: string)
    requires Free(versionId, '/') && Free(bookId, '/') && Free(number, '/')
    ensures Split(Href(versionId, bookId, number), '/') == ["", versionId, bookId, number]
  {
    var parts := ["", versionId, bookId, number];
    assert Free("", '/');
    assert Join(parts[3..], '/') == number;
    assert Join(parts[2..], '/') == bookId + "/" + number;
    assert Join(parts[1..], '/') == versionId + "/" + bookId + "/" + number;
    assert Join(parts, '/') == Href(versionId, bookId, number);
    SplitJoin(parts, '/');
  }
}
