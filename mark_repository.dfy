/** `convert_rows`: the joined rows of a mark query (one row per marked verse, with its
    mark, version and user columns) grouped back into marks. Marks come out in the order
    their ids first appear; each row adds one marked verse to its mark. */
module MarkRepository {
  import opened Wrappers
  import opened BookInfo
  import opened BibleVersion
  import opened Verse
  import opened UserModel
  import opened MarkedVerseModel
  import opened MarkModel

  /** The columns `convert_rows` reads from a row. */
  datatype Row = Row(
    markId: int, markedVerseId: int,
    internalId: string, externalId: string, lang: string, name: string, disabled: bool,
    bookId: string, chapterId: string, verseNumber: int, visibility: bool,
    userId: int, displayName: string, username: string,
    color: Option<string>, note: Option<string>, marked: Option<string>)

  /** `parse_book` over a catalogue of book ids; the book module itself is not part of this
      model, and an id it does not know is an error here. */
  function ParseBook(catalogue: map<string, BibleBookInfo>, id: string): (r: Result<BibleBookInfo>)
    ensures r.Ok? <==> id in catalogue
    ensures r.Ok? ==> r.value == catalogue[id]
  {
    if id in catalogue then Ok(catalogue[id]) else Err(UnknownBook(id))
  }

  /** The marked verse of a row: version (with the default structure), then book, then the verse
      checks, in the order the arguments are evaluated. */
  function RowMarkedVerse(row: Row, catalogue: map<string, BibleBookInfo>, structure: VersionStructure): (r: Result<MarkedVerse>)
    ensures r.Ok? <==> NewVersion(row.internalId, row.externalId, row.lang, row.name, row.disabled, structure).Ok?
                       && row.bookId in catalogue && row.chapterId != "" && row.verseNumber >= 1
    ensures r.Ok? ==> r.value.entityId == Some(row.markedVerseId) && r.value.visibility == row.visibility
    ensures r.Ok? ==> r.value.verse.version.internalId == row.internalId && r.value.verse.book == catalogue[row.bookId]
                      && r.value.verse.chapterId == row.chapterId && r.value.verse.verseNumber == row.verseNumber
  {
    var version := NewVersion(row.internalId, row.externalId, row.lang, row.name, row.disabled, structure);
    if version.Err? then Err(version.error)
    else
      var book := ParseBook(catalogue, row.bookId);
      if book.Err? then Err(book.error)
      else Factory(version.value, book.value, row.chapterId, row.verseNumber, row.visibility, Some(row.markedVerseId))
  }

  /** The user of a row, without its password. */
  function RowUser(row: Row): Result<User>
  {
    NewUser(row.username, row.displayName, None, Some(row.userId), None)
  }

  /** The mark a row opens when its id has not been seen yet. */
  function RowMark(row: Row, mv: MarkedVerse): (r: Result<MarkData>)
    ensures r.Ok? ==> RowUser(row).Ok?
    ensures r.Ok? ==> r.value == MarkData(Some(row.markId), RowUser(row).value, row.color, row.note, [mv], row.marked)
  {
    var user := RowUser(row);
    if user.Err? then Err(user.error)
    else
      var check := CheckMark(Some(user.value), row.color, row.note, [mv]);
      if check.Fail? then Err(check.error)
      else Ok(MarkData(Some(row.markId), user.value, row.color, row.note, [mv], row.marked))
  }

  function EntityIds(gs: seq<MarkData>): (r: seq<Option<int>>)
    ensures |r| == |gs| && forall k :: 0 <= k < |gs| ==> r[k] == gs[k].entityId
  {
    seq(|gs|, k requires 0 <= k < |gs| => gs[k].entityId)
  }

  /** The position of the first `x` in `xs`: a dictionary lookup by key. */
  function IndexOf<T(==)>(xs: seq<T>, x: T): (r: Option<nat>)
    ensures r.Some? ==> r.value < |xs| && xs[r.value] == x && forall k :: 0 <= k < r.value ==> xs[k] != x
    ensures r.None? <==> x !in xs
    decreases |xs|
  {
    if |xs| == 0 then None
    else if xs[0] == x then Some(0)
    else
      var rest := IndexOf(xs[1..], x);
      if rest.Some? then Some(rest.value + 1) else None
  }

  /** One more row over the marks so far. */
  function AddRow(gs: seq<MarkData>, row: Row, catalogue: map<string, BibleBookInfo>, structure: VersionStructure)
    : Result<seq<MarkData>>
  {
    var mv := RowMarkedVerse(row, catalogue, structure);
    if mv.Err? then Err(mv.error)
    else
      var at := IndexOf(EntityIds(gs), Some(row.markId));
      if at.Some? then
        Ok(gs[at.value := gs[at.value].(markedVerses := gs[at.value].markedVerses + [mv.value])])
      else
        var added := RowMark(row, mv.value);
        if added.Err? then Err(added.error) else Ok(gs + [added.value])
  }

  /** The marks after each row in turn, as values; the first failing row decides the error. */
  function GroupRows(rows: seq<Row>, catalogue: map<string, BibleBookInfo>, structure: VersionStructure): (r: Result<seq<MarkData>>)
    decreases |rows|
  {
    if |rows| == 0 then Ok([])
    else
      var before := GroupRows(rows[..|rows| - 1], catalogue, structure);
      if before.Err? then before else AddRow(before.value, rows[|rows| - 1], catalogue, structure)
  }

  /** The loop of `convert_rows`: one `Mark` object per mark id, the later rows of a mark
      appended with `add_marked_verse`. */
  method ConvertRows(rows: seq<Row>, catalogue: map<string, BibleBookInfo>, structure: VersionStructure)
    returns (r: Result<seq<Mark>>)
    ensures r.Ok? <==> GroupRows(rows, catalogue, structure).Ok?
    ensures r.Err? ==> r.error == GroupRows(rows, catalogue, structure).error
    ensures r.Ok? ==> Mirrors(r.value, GroupRows(rows, catalogue, structure).value)
    ensures r.Ok? ==> forall m :: m in r.value ==> fresh(m)
  {
    var marks: seq<Mark> := [];
    var ids: seq<Option<int>> := [];
    ghost var groups: seq<MarkData> := [];
    ghost var made: set<Mark> := {};
    var i := 0;
    while i < |rows|
      invariant 0 <= i <= |rows|
      invariant GroupRowsUpTo(rows, i, catalogue, structure) == Ok(groups)
      invariant Tracks(marks, ids, groups)
      invariant fresh(made) && forall m :: m in marks ==> m in made
    {
      var step, after, made' := ConvertRow(marks, ids, groups, made, rows, i, catalogue, structure);
      if step.Err? {
        return Err(step.error);
      }
      marks, ids, groups, made := step.value.0, step.value.1, after, made';
      i := i + 1;
    }
    UpToAll(rows, catalogue, structure);
    r := Ok(marks);
  }

  /** The objects of `marks` are distinct and hold the values `groups`. */
  predicate Mirrors(marks: seq<Mark>, groups: seq<MarkData>)
    reads marks
  {
    |marks| == |groups|
    && (forall k :: 0 <= k < |marks| ==> marks[k].Data() == groups[k])
    && forall j, k :: 0 <= j < k < |marks| ==> marks[j] != marks[k]
  }

  /** `Mirrors`, and `ids` lists the mark ids in the same order: the keys of the source's dictionary. */
  predicate Tracks(marks: seq<Mark>, ids: seq<Option<int>>, groups: seq<MarkData>)
    reads marks
  {
    Mirrors(marks, groups) && ids == EntityIds(groups)
  }

  lemma MirrorsAppend(marks: seq<Mark>, groups: seq<MarkData>, m: Mark)
    requires Mirrors(marks, groups) && m !in marks
    ensures Mirrors(marks + [m], groups + [m.Data()])
  {
  }

  /** `add_marked_verse` on the mark at position `j`: only that mark changes. */
  method Extend(marks: seq<Mark>, ghost groups: seq<MarkData>, j: nat, mv: MarkedVerse) returns (ghost after: seq<MarkData>)
    requires j < |marks| && Mirrors(marks, groups)
    modifies marks[j]
    ensures after == groups[j := groups[j].(markedVerses := groups[j].markedVerses + [mv])]
    ensures Mirrors(marks, after)
  {
    marks[j].AddMarkedVerse(mv);
    after := groups[j := groups[j].(markedVerses := groups[j].markedVerses + [mv])];
    forall k | 0 <= k < |marks| ensures marks[k].Data() == after[k] {
      if k != j {
        assert marks[k] != marks[j];
      }
    }
  }

  /** One pass of the loop body: the row's marked verse goes to the mark with its id, or
      opens a new mark at the end. */
  method ConvertRow(marks: seq<Mark>, ids: seq<Option<int>>, ghost groups: seq<MarkData>, ghost made: set<Mark>,
                    rows: seq<Row>, i: nat, catalogue: map<string, BibleBookInfo>, structure: VersionStructure)
    returns (r: Result<(seq<Mark>, seq<Option<int>>)>, ghost after: seq<MarkData>, ghost made': set<Mark>)
    requires i < |rows| && GroupRowsUpTo(rows, i, catalogue, structure) == Ok(groups)
    requires Tracks(marks, ids, groups)
    requires forall m :: m in marks ==> m in made
    modifies made
    ensures r.Err? ==> GroupRows(rows, catalogue, structure) == Err(r.error)
    ensures r.Ok? ==> GroupRowsUpTo(rows, i + 1, catalogue, structure) == Ok(after)
                      && Tracks(r.value.0, r.value.1, after)
    ensures r.Ok? ==> made <= made' && fresh(made' - made) && forall m :: m in r.value.0 ==> m in made'
  {
    after, made' := groups, made;
    var row := rows[i];
    var mv := RowMarkedVerse(row, catalogue, structure);
    if mv.Err? {
      RowFails(rows, i, groups, mv.error, catalogue, structure);
      return Err(mv.error), after, made';
    }
    var at := IndexOf(ids, Some(row.markId));
    if at.Some? {
      AddRowExtends(groups, row, catalogue, structure, mv.value, at.value);
      RowAdds(rows, i, groups, groups[at.value := groups[at.value].(markedVerses := groups[at.value].markedVerses + [mv.value])], catalogue, structure);
      after := Extend(marks, groups, at.value, mv.value);
      assert ids == EntityIds(after);
      r := Ok((marks, ids));
    } else {
      var created := OpenMark(row, mv.value);
      AddRowOpens(groups, row, catalogue, structure, mv.value);
      if created.Err? {
        RowFails(rows, i, groups, created.error, catalogue, structure);
        return Err(created.error), after, made';
      }
      MirrorsAppend(marks, groups, created.value);
      after, made' := groups + [RowMark(row, mv.value).value], made + {created.value};
      RowAdds(rows, i, groups, after, catalogue, structure);
      assert ids + [Some(row.markId)] == EntityIds(after);
      r := Ok((marks + [created.value], ids + [Some(row.markId)]));
    }
  }

  /** The user, then the mark, of a row whose id has not been seen yet. */
  method OpenMark(row: Row, mv: MarkedVerse) returns (r: Result<Mark>)
    ensures r.Err? <==> RowMark(row, mv).Err?
    ensures r.Err? ==> r.error == RowMark(row, mv).error
    ensures r.Ok? ==> fresh(r.value) && r.value.Data() == RowMark(row, mv).value
  {
    var user := RowUser(row);
    if user.Err? {
      return Err(user.error);
    }
    r := Mark.Create(Some(user.value), row.color, row.note, [mv], Some(row.markId), row.marked);
  }

  lemma AddRowExtends(gs: seq<MarkData>, row: Row, catalogue: map<string, BibleBookInfo>, structure: VersionStructure,
                      mv: MarkedVerse, j: nat)
    requires RowMarkedVerse(row, catalogue, structure) == Ok(mv)
    requires IndexOf(EntityIds(gs), Some(row.markId)) == Some(j)
    ensures AddRow(gs, row, catalogue, structure) == Ok(gs[j := gs[j].(markedVerses := gs[j].markedVerses + [mv])])
  {
  }

  lemma AddRowOpens(gs: seq<MarkData>, row: Row, catalogue: map<string, BibleBookInfo>, structure: VersionStructure,
                    mv: MarkedVerse)
    requires RowMarkedVerse(row, catalogue, structure) == Ok(mv)
    requires IndexOf(EntityIds(gs), Some(row.markId)).None?
    ensures RowMark(row, mv).Err? ==> AddRow(gs, row, catalogue, structure) == Err(RowMark(row, mv).error)
    ensures RowMark(row, mv).Ok? ==> AddRow(gs, row, catalogue, structure) == Ok(gs + [RowMark(row, mv).value])
  {
  }

  /** `GroupRows` over the first `n` rows, counted by position. */
  function GroupRowsUpTo(rows: seq<Row>, n: nat, catalogue: map<string, BibleBookInfo>, structure: VersionStructure)
    : Result<seq<MarkData>>
    requires n <= |rows|
  {
    if n == 0 then Ok([])
    else
      var before := GroupRowsUpTo(rows, n - 1, catalogue, structure);
      if before.Err? then before else AddRow(before.value, rows[n - 1], catalogue, structure)
  }

  /** A row that fails decides the outcome of the whole grouping. */
  lemma RowFails(rows: seq<Row>, i: nat, groups: seq<MarkData>, e: Error,
                 catalogue: map<string, BibleBookInfo>, structure: VersionStructure)
    requires i < |rows| && GroupRowsUpTo(rows, i, catalogue, structure) == Ok(groups)
    requires AddRow(groups, rows[i], catalogue, structure) == Err(e)
    ensures GroupRows(rows, catalogue, structure) == Err(e)
  {
    UpToKeepsError(rows, i + 1, catalogue, structure);
    UpToAll(rows, catalogue, structure);
  }

  lemma RowAdds(rows: seq<Row>, i: nat, groups: seq<MarkData>, after: seq<MarkData>,
                catalogue: map<string, BibleBookInfo>, structure: VersionStructure)
    requires i < |rows| && GroupRowsUpTo(rows, i, catalogue, structure) == Ok(groups)
    requires AddRow(groups, rows[i], catalogue, structure) == Ok(after)
    ensures GroupRowsUpTo(rows, i + 1, catalogue, structure) == Ok(after)
  {
  }

  lemma {:induction false} GroupRowsIsUpTo(rows: seq<Row>, n: nat, catalogue: map<string, BibleBookInfo>, structure: VersionStructure)
    requires n <= |rows|
    ensures GroupRowsUpTo(rows, n, catalogue, structure) == GroupRows(rows[..n], catalogue, structure)
  {
    if n > 0 {
      GroupRowsIsUpTo(rows, n - 1, catalogue, structure);
      assert rows[..n][..n - 1] == rows[..n - 1];
    }
  }

  lemma UpToAll(rows: seq<Row>, catalogue: map<string, BibleBookInfo>, structure: VersionStructure)
    ensures GroupRowsUpTo(rows, |rows|, catalogue, structure) == GroupRows(rows, catalogue, structure)
  {
    GroupRowsIsUpTo(rows, |rows|, catalogue, structure);
    assert rows[..|rows|] == rows;
  }

  /** Once a row fails, every later position fails with the same error. */
  lemma {:induction false} UpToKeepsError(rows: seq<Row>, n: nat, catalogue: map<string, BibleBookInfo>, structure: VersionStructure)
    requires 0 < n <= |rows| && GroupRowsUpTo(rows, n, catalogue, structure).Err?
    ensures GroupRowsUpTo(rows, |rows|, catalogue, structure) == GroupRowsUpTo(rows, n, catalogue, structure)
    decreases |rows| - n
  {
    if n < |rows| {
      UpToKeepsError(rows, n + 1, catalogue, structure);
    }
  }

  // ---------------------------------------------------------------------------
  // What the grouping produces
  // ---------------------------------------------------------------------------

  function RowIds(rows: seq<Row>): (r: seq<int>)
    ensures |r| == |rows| && forall k :: 0 <= k < |rows| ==> r[k] == rows[k].markId
  {
    seq(|rows|, k requires 0 <= k < |rows| => rows[k].markId)
  }

  /** The distinct ids of a list, in order of first appearance. */
  function FirstAppearances(ids: seq<int>): (r: seq<Option<int>>)
    decreases |ids|
  {
    if |ids| == 0 then []
    else
      var before := FirstAppearances(ids[..|ids| - 1]);
      if Some(ids[|ids| - 1]) in before then before else before + [Some(ids[|ids| - 1])]
  }

  /** The marked verses of the rows that carry `id`, in row order. */
  function VersesForId(rows: seq<Row>, id: int, catalogue: map<string, BibleBookInfo>, structure: VersionStructure): seq<MarkedVerse>
    decreases |rows|
  {
    if |rows| == 0 then []
    else
      var row := rows[|rows| - 1];
      var mv := RowMarkedVerse(row, catalogue, structure);
      VersesForId(rows[..|rows| - 1], id, catalogue, structure) + (if row.markId == id && mv.Ok? then [mv.value] else [])
  }

  /** The first row that carries `id`. */
  function FirstRowWith(rows: seq<Row>, id: int): (r: Option<Row>)
    ensures r.Some? ==> r.value in rows && r.value.markId == id
    ensures r.None? <==> id !in RowIds(rows)
    decreases |rows|
  {
    if |rows| == 0 then None
    else
      var before := FirstRowWith(rows[..|rows| - 1], id);
      var last := rows[|rows| - 1];
      assert RowIds(rows) == RowIds(rows[..|rows| - 1]) + [last.markId];
      if before.Some? then before else if last.markId == id then Some(last) else None
  }

  /** No rows, no marks. */
  lemma NoRowsNoMarks(catalogue: map<string, BibleBookInfo>, structure: VersionStructure)
    ensures GroupRows([], catalogue, structure) == Ok([])
  {
  }

  /** One mark per distinct mark id, in order of first appearance. */
  lemma {:induction false} OneMarkPerId(rows: seq<Row>, catalogue: map<string, BibleBookInfo>, structure: VersionStructure)
    requires GroupRows(rows, catalogue, structure).Ok?
    ensures EntityIds(GroupRows(rows, catalogue, structure).value) == FirstAppearances(RowIds(rows))
    decreases |rows|
  {
    if |rows| > 0 {
      var init := rows[..|rows| - 1];
      OneMarkPerId(init, catalogue, structure);
      assert RowIds(init) == RowIds(rows)[..|rows| - 1];
      AddRowIds(GroupRows(init, catalogue, structure).value, rows[|rows| - 1], catalogue, structure);
    }
  }

  /** Every mark has an id, and no two marks share one. */
  lemma {:induction false} DistinctIds(rows: seq<Row>, catalogue: map<string, BibleBookInfo>, structure: VersionStructure)
    requires GroupRows(rows, catalogue, structure).Ok?
    ensures var gs := GroupRows(rows, catalogue, structure).value;
      (forall k :: 0 <= k < |gs| ==> gs[k].entityId.Some?)
      && forall j, k :: 0 <= j < k < |gs| ==> gs[j].entityId != gs[k].entityId
    decreases |rows|
  {
    if |rows| > 0 {
      var init := rows[..|rows| - 1];
      DistinctIds(init, catalogue, structure);
      var gs := GroupRows(init, catalogue, structure).value;
      AddRowIds(gs, rows[|rows| - 1], catalogue, structure);
      var ids := EntityIds(GroupRows(rows, catalogue, structure).value);
      assert forall k :: 0 <= k < |gs| ==> EntityIds(gs)[k].Some?;
      assert forall j, k :: 0 <= j < k < |gs| ==> EntityIds(gs)[j] != EntityIds(gs)[k];
    }
  }

  /** `AddRow` keeps the id list when the row's mark is known and appends its id otherwise. */
  lemma AddRowIds(gs: seq<MarkData>, row: Row, catalogue: map<string, BibleBookInfo>, structure: VersionStructure)
    requires AddRow(gs, row, catalogue, structure).Ok?
    ensures Some(row.markId) in EntityIds(gs) ==> EntityIds(AddRow(gs, row, catalogue, structure).value) == EntityIds(gs)
    ensures Some(row.markId) !in EntityIds(gs) ==>
      EntityIds(AddRow(gs, row, catalogue, structure).value) == EntityIds(gs) + [Some(row.markId)]
  {
  }

  /** Each mark holds exactly the marked verses of the rows with its id, in row order. */
  lemma {:induction false} MarkVerses(rows: seq<Row>, catalogue: map<string, BibleBookInfo>, structure: VersionStructure)
    requires GroupRows(rows, catalogue, structure).Ok?
    ensures var gs := GroupRows(rows, catalogue, structure).value;
      forall k :: 0 <= k < |gs| ==>
        gs[k].entityId.Some? && gs[k].markedVerses == VersesForId(rows, gs[k].entityId.value, catalogue, structure)
    decreases |rows|
  {
    DistinctIds(rows, catalogue, structure);
    if |rows| > 0 {
      var init := rows[..|rows| - 1];
      MarkVerses(init, catalogue, structure);
      DistinctIds(init, catalogue, structure);
      var gs := GroupRows(init, catalogue, structure).value;
      var gs' := GroupRows(rows, catalogue, structure).value;
      var row := rows[|rows| - 1];
      var at := IndexOf(EntityIds(gs), Some(row.markId));
      forall k | 0 <= k < |gs'|
        ensures gs'[k].markedVerses == VersesForId(rows, gs'[k].entityId.value, catalogue, structure)
      {
        if k < |gs| {
          assert gs'[k].entityId == gs[k].entityId;
          if at.Some? && k != at.value {
            assert EntityIds(gs)[k] != EntityIds(gs)[at.value];
          }
        } else {
          assert Some(row.markId) !in EntityIds(gs);
          OneMarkPerId(init, catalogue, structure);
          NotYetSeen(init, row.markId, catalogue, structure);
        }
      }
    }
  }

  /** The mark-level fields of each mark come from the first row with its id; no password is read. */
  lemma {:induction false} MarkFirstRow(rows: seq<Row>, catalogue: map<string, BibleBookInfo>, structure: VersionStructure)
    requires GroupRows(rows, catalogue, structure).Ok?
    ensures var gs := GroupRows(rows, catalogue, structure).value;
      forall k :: 0 <= k < |gs| ==>
        gs[k].entityId.Some? && FirstRowWith(rows, gs[k].entityId.value).Some?
        && var first := FirstRowWith(rows, gs[k].entityId.value).value;
           gs[k].color == first.color && gs[k].note == first.note && gs[k].marked == first.marked
           && gs[k].user == User(first.username, first.displayName, None, Some(first.userId), None)
    decreases |rows|
  {
    DistinctIds(rows, catalogue, structure);
    if |rows| > 0 {
      var init := rows[..|rows| - 1];
      MarkFirstRow(init, catalogue, structure);
      var gs := GroupRows(init, catalogue, structure).value;
      var gs' := GroupRows(rows, catalogue, structure).value;
      var row := rows[|rows| - 1];
      forall k | 0 <= k < |gs'|
        ensures FirstRowWith(rows, gs'[k].entityId.value).Some?
        ensures var first := FirstRowWith(rows, gs'[k].entityId.value).value;
           gs'[k].color == first.color && gs'[k].note == first.note && gs'[k].marked == first.marked
           && gs'[k].user == User(first.username, first.displayName, None, Some(first.userId), None)
      {
        if k < |gs| {
          assert gs'[k].entityId == gs[k].entityId;
          assert FirstRowWith(rows, gs[k].entityId.value) == FirstRowWith(init, gs[k].entityId.value);
        } else {
          assert Some(row.markId) !in EntityIds(gs);
          OneMarkPerId(init, catalogue, structure);
          NotYetSeen(init, row.markId, catalogue, structure);
          assert FirstRowWith(init, row.markId).None?;
        }
      }
    }
  }

  /** An id that no mark has yet appears in no earlier row. */
  lemma NotYetSeen(rows: seq<Row>, id: int, catalogue: map<string, BibleBookInfo>, structure: VersionStructure)
    requires GroupRows(rows, catalogue, structure).Ok?
    requires Some(id) !in FirstAppearances(RowIds(rows))
    ensures id !in RowIds(rows)
    ensures VersesForId(rows, id, catalogue, structure) == []
  {
    FirstAppearancesCover(RowIds(rows));
    NoRowsNoVerses(rows, id, catalogue, structure);
  }

  lemma {:induction false} FirstAppearancesCover(ids: seq<int>)
    ensures forall x :: x in ids <==> Some(x) in FirstAppearances(ids)
    decreases |ids|
  {
    if |ids| > 0 {
      FirstAppearancesCover(ids[..|ids| - 1]);
      assert ids == ids[..|ids| - 1] + [ids[|ids| - 1]];
    }
  }

  lemma {:induction false} NoRowsNoVerses(rows: seq<Row>, id: int, catalogue: map<string, BibleBookInfo>, structure: VersionStructure)
    requires id !in RowIds(rows)
    ensures VersesForId(rows, id, catalogue, structure) == []
    decreases |rows|
  {
    if |rows| > 0 {
      assert RowIds(rows[..|rows| - 1]) == RowIds(rows)[..|rows| - 1];
      NoRowsNoVerses(rows[..|rows| - 1], id, catalogue, structure);
    }
  }
}
