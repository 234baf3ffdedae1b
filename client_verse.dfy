/** The browser client's verse: four fields and the "version.book.chapter.verse" text that
    identifies it in the page and in the mark index. */
module ClientVerse {
  import opened Wrappers
  import opened Strings

  const Separator := '.'

  /** `Verse(versionId, bookId, chapterId, verseNumber)`: the fields are stored as given. */
  datatype Verse = Verse(versionId: string, bookId: string, chapterId: string, verseNumber: int)

  /** What `parseVersionedVerseId` returns when the text is well formed. */
  datatype ParsedId = ParsedId(versionId: string, bookId: string, chapterId: string, verseNumber: nat)

  /** `parseVersionedVerseId`: four '.'-separated parts, none empty, the last all digits and
      read as a number; null (here `None`) otherwise. */
  function ParseVersionedVerseId(s: string): Option<ParsedId>
  {
    var parts := Split(s, Separator);
    if |parts| != 4 then None
    else if parts[0] == "" || parts[1] == "" || parts[2] == "" || parts[3] == "" then None
    else if !IsDigits(parts[3]) then None
    else Some(ParsedId(parts[0], parts[1], parts[2], DigitsValue(parts[3])))
  }

  /** The text a JavaScript integer prints as (`String(n)`, and `join` on a number). */
  function NumberText(n: int): string
  {
    IntToString(n)
  }

  /** `toVerseId`: book, chapter and verse joined by '.'. */
  function ToVerseId(v: Verse): string
  {
    Join([v.bookId, v.chapterId, NumberText(v.verseNumber)], Separator)
  }

  /** `toVersionedId`: version, book, chapter and verse joined by '.'. */
  function ToVersionedId(v: Verse): string
  {
    Join([v.versionId, v.bookId, v.chapterId, NumberText(v.verseNumber)], Separator)
  }

  /** `generateVersionedId`: a version id and a verse id joined by '.'. */
  function GenerateVersionedId(versionId: string, verseId: string): string
  {
    versionId + "." + verseId
  }

  /** `fromVersionedVerseId`: a malformed text makes the parse return null, and reading its
      fields throws. */
  function FromVersionedVerseId(s: string): (r: Result<Verse>)
    ensures r.Err? <==> ParseVersionedVerseId(s).None?
    ensures r.Err? ==> r.error == TypeError("Cannot read properties of null (reading 'versionId')")
    ensures r.Ok? ==> var p := ParseVersionedVerseId(s).value;
                      r.value == Verse(p.versionId, p.bookId, p.chapterId, p.verseNumber)
  {
    var parsed := ParseVersionedVerseId(s);
    if parsed.None? then Err(TypeError("Cannot read properties of null (reading 'versionId')"))
    else Ok(Verse(parsed.value.versionId, parsed.value.bookId, parsed.value.chapterId, parsed.value.verseNumber))
  }

  /** A parse succeeds exactly on four '.'-separated parts, none empty, the last all digits;
      the parts come back as the fields, the last read as a number. */
  lemma ParseAccepts(s: string)
    ensures var parts := Split(s, Separator);
      ParseVersionedVerseId(s).Some? <==>
        |parts| == 4 && parts[0] != "" && parts[1] != "" && parts[2] != "" && IsDigits(parts[3])
    ensures ParseVersionedVerseId(s).Some? ==>
      var parts := Split(s, Separator);
      var p := ParseVersionedVerseId(s).value;
      p.versionId == parts[0] && p.bookId == parts[1] && p.chapterId == parts[2]
      && DigitsValue(parts[3]) == p.verseNumber
      && (IsCanonicalDigits(parts[3]) ==> NumberText(p.verseNumber) == parts[3])
  {
    var parts := Split(s, Separator);
    if ParseVersionedVerseId(s).Some? && IsCanonicalDigits(parts[3]) {
      NatToStringOfDigitsValue(parts[3]);
    }
  }

  /** Joining the verse id onto the version id gives the versioned id. */
  lemma GeneratedIdIsVersionedId(v: Verse)
    ensures GenerateVersionedId(v.versionId, ToVerseId(v)) == ToVersionedId(v)
  {
  }

  lemma NaturalTextIsDotFree(n: nat)
    ensures Free(NumberText(n), Separator)
  {
  }

  /** Fields that can travel in a versioned id: non-empty, without '.'. */
  predicate Encodable(v: Verse)
  {
    v.versionId != "" && v.bookId != "" && v.chapterId != ""
    && Free(v.versionId, Separator) && Free(v.bookId, Separator) && Free(v.chapterId, Separator)
  }

  /** Printing then parsing gives back the four fields when the verse number is a natural
      number; a negative number prints with a '-' and is refused. */
  lemma ParsePrinted(v: Verse)
    requires Encodable(v)
    ensures v.verseNumber >= 0 ==>
      ParseVersionedVerseId(ToVersionedId(v)) == Some(ParsedId(v.versionId, v.bookId, v.chapterId, v.verseNumber))
    ensures v.verseNumber < 0 ==> ParseVersionedVerseId(ToVersionedId(v)).None?
  {
    var n := NumberText(v.verseNumber);
    var parts := [v.versionId, v.bookId, v.chapterId, n];
    if v.verseNumber >= 0 {
      NaturalTextIsDotFree(v.verseNumber);
      SplitJoin(parts, Separator);
      DigitsValueOfNatToString(v.verseNumber);
    } else {
      assert Free(n, Separator) by {
        forall k | 0 <= k < |n| ensures n[k] != Separator {
          if k > 0 { assert n[k] == n[1..][k - 1]; }
        }
      }
      SplitJoin(parts, Separator);
      assert !IsDigit(n[0]);
    }
  }

  /** Parsing then printing gives back the text exactly when its verse number has no
      superfluous leading zero: "kjv.john.3.016" parses, but prints back as "kjv.john.3.16". */
  lemma PrintParsed(s: string)
    requires ParseVersionedVerseId(s).Some?
    ensures var p := ParseVersionedVerseId(s).value;
      ToVersionedId(Verse(p.versionId, p.bookId, p.chapterId, p.verseNumber)) == s
      <==> IsCanonicalDigits(Split(s, Separator)[3])
  {
    var parts := Split(s, Separator);
    var p := ParseVersionedVerseId(s).value;
    var printed := [p.versionId, p.bookId, p.chapterId, NumberText(p.verseNumber)];
    JoinSplit(s, Separator);
    if IsCanonicalDigits(parts[3]) {
      NatToStringOfDigitsValue(parts[3]);
      assert printed == parts;
    } else {
      SplitPieces(s, Separator);
      if ToVersionedId(Verse(p.versionId, p.bookId, p.chapterId, p.verseNumber)) == s {
        NaturalTextIsDotFree(p.verseNumber);
        SplitJoin(printed, Separator);
        assert false;
      }
    }
  }

  /** A failed parse makes `fromVersionedVerseId` throw; a well-formed id round-trips. */
  lemma FromVersionedVerseIdExamples()
    ensures FromVersionedVerseId("").Err?
    ensures FromVersionedVerseId("kjv.john.3.16") == Ok(Verse("kjv", "john", "3", 16))
  {
    var v := Verse("kjv", "john", "3", 16);
    assert Encodable(v) by {
      assert forall k :: 0 <= k < |"kjv"| ==> "kjv"[k] != '.';
      assert forall k :: 0 <= k < |"john"| ==> "john"[k] != '.';
      assert forall k :: 0 <= k < |"3"| ==> "3"[k] != '.';
    }
    ParsePrinted(v);
    assert NumberText(16) == "16" by {
      assert NatToString(1) == "1";
      assert NatToString(16) == NatToString(1) + [DigitChar(6)];
    }
    assert ToVersionedId(v) == "kjv.john.3.16";
  }
}
