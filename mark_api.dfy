/** The request checks of the mark API: a mark payload is either a highlight or a note, and
    the verses to hide arrive as one comma-separated query parameter. */
module MarkApi {
  import opened Wrappers
  import opened Strings

  /** The `mark` object of a creation payload; a field is present when it is not null, and
      its value (any JSON text) is kept as given. */
  datatype MarkPayload = MarkPayload(color: Option<string>, note: Option<string>)

  /** `validate_mark_payload`; a missing `mark` key reads as an empty object. */
  function ValidateMarkPayload(mark: Option<MarkPayload>): (r: Outcome)
    ensures r.Fail? ==> r.error == ValueError("Invalid mark payload")
  {
    var m := if mark.None? then MarkPayload(None, None) else mark.value;
    if (m.color.Some? && m.note.None?) || (m.color.None? && m.note.Some?) then Pass
    else Fail(ValueError("Invalid mark payload"))
  }

  /** Exactly one of colour and note must be present: a highlight or a note, never both and
      never neither; an absent `mark` is refused. */
  lemma ValidateMarkPayloadExclusive(mark: Option<MarkPayload>)
    ensures mark.None? ==> ValidateMarkPayload(mark).Fail?
    ensures mark.Some? ==>
      (ValidateMarkPayload(mark).Pass? <==> (mark.value.color.Some? != mark.value.note.Some?))
  {
  }

  /** Presence is "not null": an empty colour string still counts as a colour. */
  lemma EmptyColorIsPresent()
    ensures ValidateMarkPayload(Some(MarkPayload(Some(""), None))) == Pass
    ensures ValidateMarkPayload(Some(MarkPayload(Some(""), Some("")))) == Fail(ValueError("Invalid mark payload"))
  {
  }

  /** `validate_marked_verse_ids`: a missing or empty parameter aborts with 400. */
  function ValidateMarkedVerseIds(input: Option<string>): (r: Outcome)
    ensures r.Pass? <==> input.Some? && |input.value| > 0
    ensures r.Fail? ==> r.error == BadRequest("No marked verse IDs provided")
  {
    if input.None? || |input.value| == 0 then Fail(BadRequest("No marked verse IDs provided")) else Pass
  }

  /** The ids `hide_verse_highlights` passes on: the checked parameter split on ','. */
  function MarkedVerseIds(input: Option<string>): (r: Result<seq<string>>)
  {
    var check := ValidateMarkedVerseIds(input);
    if check.Fail? then Err(check.error) else Ok(Split(input.value, ','))
  }

  /** The split ids are comma-free, one more than the commas, and join back to the parameter;
      the request fails exactly when the parameter is missing or empty. */
  lemma MarkedVerseIdsSplit(input: Option<string>)
    ensures MarkedVerseIds(input).Err? <==> input.None? || |input.value| == 0
    ensures MarkedVerseIds(input).Err? ==> MarkedVerseIds(input).error == BadRequest("No marked verse IDs provided")
    ensures MarkedVerseIds(input).Ok? ==>
      var ids := MarkedVerseIds(input).value;
      Join(ids, ',') == input.value && |ids| == Occurrences(input.value, ',') + 1
      && forall k :: 0 <= k < |ids| ==> Free(ids[k], ',')
  {
    if input.Some? && |input.value| > 0 {
      JoinSplit(input.value, ',');
      SplitPieces(input.value, ',');
    }
  }

  /** Empty pieces are passed on as they are: "1,,2" gives three ids, the middle one empty. */
  lemma EmptyPiecesKept()
    ensures MarkedVerseIds(Some("1,,2")) == Ok(["1", "", "2"])
  {
    var s := "1,,2";
    assert Split(s[3..], ',') == ["2"] by {
      assert s[3..][1..] == "";
      assert [s[3]] + "" == "2";
    }
    assert Split(s[2..], ',') == ["", "2"] by { assert s[2..][1..] == s[3..]; }
    assert Split(s[1..], ',') == ["", "", "2"] by { assert s[1..][1..] == s[2..]; }
    assert Split(s, ',') == ["1", "", "2"] by { assert [s[0]] + "" == "1"; }
  }
}
