/** A mark: a highlight (a colour) or a note over a list of marked verses, owned by a user.
    The list of marked verses is the only state that changes after construction. */
module MarkModel {
  import opened Wrappers
  import opened Strings
  import opened BibleVersion
  import opened Verse
  import opened Reference
  import opened UserModel
  import opened MarkedVerseModel

  const MaxNoteLength := 1024

  /** `[0-9a-f]` matched ignoring case. */
  predicate IsHexDigit(c: char)
  {
    ('0' <= c <= '9') || ('a' <= c <= 'f') || ('A' <= c <= 'F')
  }

  predicate SixHexDigits(s: string)
  {
    |s| == 6 && forall k :: 0 <= k < 6 ==> IsHexDigit(s[k])
  }

  /** `#?[0-9a-f]{6}` matched against the whole of `s`. */
  predicate ColorCodeBody(s: string)
  {
    SixHexDigits(s) || (|s| == 7 && s[0] == '#' && SixHexDigits(s[1..]))
  }

  /** `re.match(r"^#?[0-9a-f]{6}$", s, re.IGNORECASE)`; `$` also matches before a final newline. */
  predicate ColorCodeMatches(s: string)
  {
    ColorCodeBody(s) || (|s| > 0 && s[|s| - 1] == '\n' && ColorCodeBody(s[..|s| - 1]))
  }

  /** The constructor's checks in order: user, colour, note (blank, then too long), verses. */
  function CheckMark(user: Option<User>, color: Option<string>, note: Option<string>,
                     markedVerses: seq<MarkedVerse>): Outcome
  {
    if user.None? then Fail(ValueError("Invalid user for mark"))
    else if color.Some? && !ColorCodeMatches(color.value) then Fail(ValueError("Invalid color for mark"))
    else if note.Some? && |Strip(note.value)| == 0 then
      Fail(ValueError("Invalid note text for mark"))
    else if note.Some? && |note.value| > MaxNoteLength then
      Fail(ValueError("Too long note text for mark"))
    else if |markedVerses| == 0 then Fail(ValueError("Mark without marked verses"))
    else Pass
  }

  /** A mark is accepted exactly when it has a user, a well-formed colour if any, a note with
      some non-whitespace and at most 1024 characters if any, and at least one marked verse;
      the first failing check names the error. */
  lemma CheckMarkAccepts(user: Option<User>, color: Option<string>, note: Option<string>,
                         markedVerses: seq<MarkedVerse>)
    ensures var r := CheckMark(user, color, note, markedVerses);
      && (r.Pass? <==>
            user.Some? && (color.Some? ==> ColorCodeMatches(color.value))
            && (note.Some? ==> !AllSpace(note.value) && |note.value| <= MaxNoteLength)
            && |markedVerses| > 0)
      && (user.None? ==> r == Fail(ValueError("Invalid user for mark")))
      && (user.Some? && color.Some? && !ColorCodeMatches(color.value) ==> r == Fail(ValueError("Invalid color for mark")))
      && (user.Some? && (color.Some? ==> ColorCodeMatches(color.value)) && note.Some? && AllSpace(note.value) ==>
            r == Fail(ValueError("Invalid note text for mark")))
      && ((user.Some? && (color.Some? ==> ColorCodeMatches(color.value)) && note.Some? && !AllSpace(note.value)
           && |note.value| > MaxNoteLength) ==> r == Fail(ValueError("Too long note text for mark")))
      && ((user.Some? && (color.Some? ==> ColorCodeMatches(color.value))
           && (note.Some? ==> !AllSpace(note.value) && |note.value| <= MaxNoteLength)
           && |markedVerses| == 0) ==> r == Fail(ValueError("Mark without marked verses")))
  {
    if note.Some? {
      StripEmptyIffAllSpace(note.value);
    }
  }

  /** The values a mark holds at one moment. */
  datatype MarkData = MarkData(entityId: Option<int>, user: User, color: Option<string>, note: Option<string>,
                               markedVerses: seq<MarkedVerse>, marked: Option<string>)

  function VersesOf(mvs: seq<MarkedVerse>): (r: seq<BibleVerse>)
    ensures |r| == |mvs| && forall k :: 0 <= k < |mvs| ==> r[k] == mvs[k].verse
  {
    seq(|mvs|, k requires 0 <= k < |mvs| => mvs[k].verse)
  }

  class Mark {
    const entityId: Option<int>
    const user: User
    const color: Option<string>
    const note: Option<string>
    var markedVerses: seq<MarkedVerse>
    const marked: Option<string>

    function Data(): MarkData
      reads this
    {
      MarkData(entityId, user, color, note, markedVerses, marked)
    }

    constructor Of(entityId: Option<int>, user: User, color: Option<string>, note: Option<string>,
                   markedVerses: seq<MarkedVerse>, marked: Option<string>)
      ensures Data() == MarkData(entityId, user, color, note, markedVerses, marked)
    {
      this.entityId := entityId;
      this.user := user;
      this.color := color;
      this.note := note;
      this.markedVerses := markedVerses;
      this.marked := marked;
    }

    /** `Mark(user, color, note, marked_verses, entity_id=None, marked=None)`. */
    static method Create(user: Option<User>, color: Option<string>, note: Option<string>,
                         markedVerses: seq<MarkedVerse>, entityId: Option<int>, marked: Option<string>)
      returns (r: Result<Mark>)
      ensures r.Err? <==> CheckMark(user, color, note, markedVerses).Fail?
      ensures r.Err? ==> r.error == CheckMark(user, color, note, markedVerses).error
      ensures r.Ok? ==> fresh(r.value) && user.Some?
                        && r.value.Data() == MarkData(entityId, user.value, color, note, markedVerses, marked)
    {
      var check := CheckMark(user, color, note, markedVerses);
      if check.Fail? {
        return Err(check.error);
      }
      var m := new Mark.Of(entityId, user.value, color, note, markedVerses, marked);
      r := Ok(m);
    }

    /** `add_marked_verse`: appends at the end and changes nothing else. */
    method AddMarkedVerse(mv: MarkedVerse)
      modifies this
      ensures markedVerses == old(markedVerses) + [mv]
    {
      markedVerses := markedVerses + [mv];
    }

    /** `to_reference`: a reference over the marked verses, in list order. */
    method ToReference() returns (r: Result<BibleReference>)
      requires forall k :: 0 <= k < |markedVerses| ==> Known(markedVerses[k].verse)
      ensures r.Err? <==> |markedVerses| == 0
      ensures r.Err? ==> r.error == ValueError("Bible reference without verses")
      ensures r.Ok? ==> fresh(r.value) && r.value.verses == VersesOf(markedVerses)
                        && AllNonEmpty(Runs(VersesOf(markedVerses)))
                        && r.value.intervals == IntervalsOf(Runs(VersesOf(markedVerses)))
    {
      r := BibleReference.Create(VersesOf(markedVerses));
    }
  }

  /** The colour pattern: an optional '#', six hexadecimal digits in either case, and
      nothing after them but an optional newline. */
  lemma ColorCodeExamples()
    ensures ColorCodeMatches("#ffaa00") && ColorCodeMatches("FFAA00") && ColorCodeMatches("#ffaa00\n")
    ensures !ColorCodeMatches("#ffaa0") && !ColorCodeMatches("##ffaa00") && !ColorCodeMatches("#ffaa0g")
  {
    assert !IsHexDigit('#') && !IsHexDigit('g');
    assert !SixHexDigits("#ffaa0") by { assert "#ffaa0"[0] == '#'; }
    assert !SixHexDigits("#ffaa0g"[1..]) by { assert "#ffaa0g"[1..][5] == 'g'; }
  }

  /** A matching colour code has six to eight characters. */
  lemma ColorCodeLength(s: string)
    requires ColorCodeMatches(s)
    ensures 6 <= |s| <= 8
  {
  }

  /** A note of whitespace only is refused whatever its length, and the length limit counts
      characters including surrounding whitespace. */
  lemma NoteExamples(user: User, mvs: seq<MarkedVerse>)
    requires |mvs| > 0
    ensures CheckMark(Some(user), None, Some(" \t\n"), mvs) == Fail(ValueError("Invalid note text for mark"))
    ensures CheckMark(Some(user), None, Some(seq(1025, k => 'a')), mvs) == Fail(ValueError("Too long note text for mark"))
    ensures CheckMark(Some(user), None, Some(" a "), mvs) == Pass
  {
    assert AllSpace(" \t\n");
    CheckMarkAccepts(Some(user), None, Some(" \t\n"), mvs);
    var long := seq(1025, k => 'a');
    assert !AllSpace(long) by { assert long[0] == 'a'; }
    StripEmptyIffAllSpace(long);
    assert !AllSpace(" a ") by { assert " a "[1] == 'a'; }
    CheckMarkAccepts(Some(user), None, Some(" a "), mvs);
  }
}
