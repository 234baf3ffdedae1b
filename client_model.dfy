/** The browser client's state: the selected verses, the marks by id, and an index from each
    versioned verse id to the marks filed under it (highlights by colour, and notes). */
module ClientModel {
  import opened Wrappers
  import opened ClientVerse
  import opened ClientMarkedVerse
  import opened ClientMark
  import opened JsMaps
  import Helpers

  /** The marks filed under one verse: highlight marks by colour code, and note marks. */
  datatype MarksByType = MarksByType(highlights: map<string, seq<Mark>>, notes: seq<Mark>)

  type Index = map<string, MarksByType>

  /** `toggleVerseSelect` on the set of selected ids. */
  function Toggled(selection: set<string>, id: string): (r: set<string>)
    ensures id in r <==> id !in selection
    ensures forall other :: other != id ==> (other in r <==> other in selection)
  {
    if id in selection then selection - {id} else selection + {id}
  }

  /** Toggling the same id twice restores the selection. */
  lemma ToggleTwice(selection: set<string>, id: string)
    ensures Toggled(Toggled(selection, id), id) == selection
  {
  }

  // ---------------------------------------------------------------------------
  // Filing a mark under its verses (`addMark`)
  // ---------------------------------------------------------------------------

  /** The versioned ids of a mark's marked verses, in map order. */
  function VerseIds(mvs: seq<(string, MarkedVerse)>): (r: seq<string>)
    ensures |r| == |mvs| && forall k :: 0 <= k < |mvs| ==> r[k] == KeyOf(mvs[k].1)
  {
    seq(|mvs|, k requires 0 <= k < |mvs| => KeyOf(mvs[k].1))
  }

  /** One verse's entry after filing `mark` under it: appended to its colour's list when it
      has a colour, and to the notes when it has a note. */
  function FileMark(entry: Option<MarksByType>, mark: Mark): MarksByType
  {
    var base := if entry.None? then MarksByType(map[], []) else entry.value;
    var highlights :=
      if Truthy(mark.color) then
        var c := mark.color.value;
        base.highlights[c := (if c in base.highlights then base.highlights[c] else []) + [mark]]
      else base.highlights;
    var notes := if Truthy(mark.note) then base.notes + [mark] else base.notes;
    MarksByType(highlights, notes)
  }

  function AddAt(index: Index, vid: string, mark: Mark): Index
  {
    index[vid := FileMark(if vid in index then Some(index[vid]) else None, mark)]
  }

  /** The index after filing `mark` under each id of `vids`, in order. */
  function AddAtAll(index: Index, vids: seq<string>, mark: Mark): Index
    decreases |vids|
  {
    if |vids| == 0 then index else AddAt(AddAtAll(index, vids[..|vids| - 1], mark), vids[|vids| - 1], mark)
  }

  /** After filing, every verse of the mark is indexed and lists the mark under its colour
      (when it has one) and among the notes (when it has one). */
  lemma {:induction false} AddAtAllFiles(index: Index, vids: seq<string>, mark: Mark)
    ensures forall k :: 0 <= k < |vids| ==> vids[k] in AddAtAll(index, vids, mark)
    ensures Truthy(mark.color) ==> forall k :: 0 <= k < |vids| ==>
      mark.color.value in AddAtAll(index, vids, mark)[vids[k]].highlights
      && mark in AddAtAll(index, vids, mark)[vids[k]].highlights[mark.color.value]
    ensures Truthy(mark.note) ==> forall k :: 0 <= k < |vids| ==> mark in AddAtAll(index, vids, mark)[vids[k]].notes
    decreases |vids|
  {
    if |vids| > 0 {
      var init := vids[..|vids| - 1];
      AddAtAllFiles(index, init, mark);
      forall k | 0 <= k < |init| ensures vids[k] == init[k] { }
    }
  }

  /** Filing never drops anything: every verse indexed before still is, each colour list and
      the notes list only grow at the end, and verses the mark does not cover are untouched. */
  lemma {:induction false} AddAtAllKeeps(index: Index, vids: seq<string>, mark: Mark)
    ensures forall v :: v in index ==> v in AddAtAll(index, vids, mark)
    ensures forall v :: v in index ==>
      (forall c :: c in index[v].highlights ==>
         c in AddAtAll(index, vids, mark)[v].highlights
         && index[v].highlights[c] <= AddAtAll(index, vids, mark)[v].highlights[c])
      && index[v].notes <= AddAtAll(index, vids, mark)[v].notes
    ensures forall v :: v !in vids ==>
      (v in AddAtAll(index, vids, mark) <==> v in index)
      && (v in index ==> AddAtAll(index, vids, mark)[v] == index[v])
    decreases |vids|
  {
    if |vids| > 0 {
      var init := vids[..|vids| - 1];
      AddAtAllKeeps(index, init, mark);
      assert forall v :: v in init ==> v in vids;
    }
  }

  // ---------------------------------------------------------------------------
  // Collecting the marks of some verses (`getMarksInVerses`)
  // ---------------------------------------------------------------------------

  /** The colours highlighted in at least one of the verses. */
  function ColorsIn(index: Index, vids: set<string>): set<string>
  {
    set v, c | v in vids && v in index && c in index[v].highlights :: c
  }

  /** The marks of colour `c` over the verses. */
  function HighlightsIn(index: Index, vids: set<string>, c: string): set<Mark>
  {
    set v, m | v in vids && v in index && c in index[v].highlights && m in index[v].highlights[c] :: m
  }

  /** The per-colour union of the highlight marks of the verses. */
  function HighlightsOf(index: Index, vids: set<string>): map<string, set<Mark>>
  {
    map c | c in ColorsIn(index, vids) :: HighlightsIn(index, vids, c)
  }

  /** The union of the note marks of the verses. */
  function NotesOf(index: Index, vids: set<string>): set<Mark>
  {
    set v, m | v in vids && v in index && m in index[v].notes :: m
  }

  /** One verse's entry merged into the collected highlights: its colours are added, each
      with its marks. */
  function MergeHighlights(acc: map<string, set<Mark>>, entry: MarksByType): (r: map<string, set<Mark>>)
    ensures r.Keys == acc.Keys + entry.highlights.Keys
  {
    map c | c in acc.Keys + entry.highlights.Keys ::
      (if c in acc then acc[c] else {}) + ColorMarks(entry, c)
  }

  /** The marks of one verse's list of colour `c`, as a set (empty when it has no such list). */
  function ColorMarks(entry: MarksByType, c: string): set<Mark>
  {
    if c in entry.highlights then set m | m in entry.highlights[c] else {}
  }

  lemma ColorsStep(index: Index, done: set<string>, v: string)
    ensures ColorsIn(index, done + {v}) == ColorsIn(index, done) + (if v in index then index[v].highlights.Keys else {})
  {
  }

  lemma HighlightsStep(index: Index, done: set<string>, v: string, c: string)
    ensures HighlightsIn(index, done + {v}, c) ==
      HighlightsIn(index, done, c) + (if v in index then ColorMarks(index[v], c) else {})
  {
  }

  lemma NotesStep(index: Index, done: set<string>, v: string)
    ensures NotesOf(index, done + {v}) == NotesOf(index, done) + (if v in index then set m | m in index[v].notes else {})
  {
  }

  /** Collecting one more verse merges its entry into what was collected, and an unindexed
      verse adds nothing. */
  lemma CollectStep(index: Index, done: set<string>, v: string)
    ensures v in index ==> HighlightsOf(index, done + {v}) == MergeHighlights(HighlightsOf(index, done), index[v])
    ensures v !in index ==> HighlightsOf(index, done + {v}) == HighlightsOf(index, done)
  {
    if v in index {
      CollectIndexed(index, done, v);
    } else {
      CollectUnindexed(index, done, v);
    }
  }

  /** `CollectStep` for an indexed verse. */
  lemma CollectIndexed(index: Index, done: set<string>, v: string)
    requires v in index
    ensures HighlightsOf(index, done + {v}) == MergeHighlights(HighlightsOf(index, done), index[v])
  {
    var all := HighlightsOf(index, done + {v});
    var merged := MergeHighlights(HighlightsOf(index, done), index[v]);
    CollectIndexedKeys(index, done, v);
    forall c | c in merged ensures all[c] == merged[c] {
      CollectIndexedAt(index, done, v, c);
    }
    MapsAgree(all, merged);
  }

  /** `CollectIndexed` on the colours alone. */
  lemma CollectIndexedKeys(index: Index, done: set<string>, v: string)
    requires v in index
    ensures HighlightsOf(index, done + {v}).Keys == MergeHighlights(HighlightsOf(index, done), index[v]).Keys
  {
  }

  /** `CollectIndexed` at one colour. */
  lemma CollectIndexedAt(index: Index, done: set<string>, v: string, c: string)
    requires v in index && c in MergeHighlights(HighlightsOf(index, done), index[v])
    requires c in HighlightsOf(index, done + {v})
    ensures HighlightsOf(index, done + {v})[c] == MergeHighlights(HighlightsOf(index, done), index[v])[c]
  {
    HighlightsStep(index, done, v, c);
    if c !in ColorsIn(index, done) {
      NoColorNoHighlights(index, done, c);
    }
  }

  /** Two maps with the same keys and the same value at each key are equal. */
  lemma MapsAgree<K, V>(a: map<K, V>, b: map<K, V>)
    requires a.Keys == b.Keys && forall k :: k in a ==> a[k] == b[k]
    ensures a == b
  {
  }

  /** A colour no verse of the set has contributes no marks. */
  lemma NoColorNoHighlights(index: Index, vids: set<string>, c: string)
    requires c !in ColorsIn(index, vids)
    ensures HighlightsIn(index, vids, c) == {}
  {
  }

  /** `CollectStep` for a verse the index does not hold. */
  lemma CollectUnindexed(index: Index, done: set<string>, v: string)
    requires v !in index
    ensures HighlightsOf(index, done + {v}) == HighlightsOf(index, done)
  {
    var all := HighlightsOf(index, done + {v});
    var before := HighlightsOf(index, done);
    CollectUnindexedKeys(index, done, v);
    forall c | c in before ensures all[c] == before[c] {
      HighlightsStep(index, done, v, c);
    }
    MapsAgree(all, before);
  }

  /** `CollectUnindexed` on the colours alone. */
  lemma CollectUnindexedKeys(index: Index, done: set<string>, v: string)
    requires v !in index
    ensures HighlightsOf(index, done + {v}).Keys == HighlightsOf(index, done).Keys
  {
  }


  // ---------------------------------------------------------------------------
  // Removing marks from the index
  // ---------------------------------------------------------------------------

  /** `verseMarks.highlights.delete(color)` at one verse: the colour's whole list goes, and
      with it every other mark of that colour at that verse. */
  function RemoveColor(index: Index, vid: string, color: Option<string>): (r: Index)
    ensures r.Keys == index.Keys
    ensures forall v :: v in index && v != vid ==> r[v] == index[v]
    ensures vid in index ==> r[vid].notes == index[vid].notes
    ensures vid in index && color.Some? ==>
      color.value !in r[vid].highlights
      && forall c :: c != color.value ==> (c in r[vid].highlights <==> c in index[vid].highlights)
                                          && (c in index[vid].highlights ==> r[vid].highlights[c] == index[vid].highlights[c])
    ensures color.None? ==> r == index
  {
    if vid in index && color.Some? then
      index[vid := index[vid].(highlights := index[vid].highlights - {color.value})]
    else index
  }

  /** `notes.filter(mark => mark.id !== noteId)`. */
  function DropNotes(notes: seq<Mark>, noteId: string): (r: seq<Mark>)
    ensures forall k :: 0 <= k < |r| ==> r[k] in notes && r[k].id != Some(noteId)
    ensures forall k :: 0 <= k < |notes| && notes[k].id != Some(noteId) ==> notes[k] in r
    decreases |notes|
  {
    if |notes| == 0 then []
    else DropNotes(notes[..|notes| - 1], noteId)
         + (if notes[|notes| - 1].id != Some(noteId) then [notes[|notes| - 1]] else [])
  }

  /** A list without that note is left as it is. */
  lemma {:induction false} DropNotesAbsent(notes: seq<Mark>, noteId: string)
    requires forall k :: 0 <= k < |notes| ==> notes[k].id != Some(noteId)
    ensures DropNotes(notes, noteId) == notes
    decreases |notes|
  {
    if |notes| > 0 {
      DropNotesAbsent(notes[..|notes| - 1], noteId);
      assert notes == notes[..|notes| - 1] + [notes[|notes| - 1]];
    }
  }

  /** Filtering again changes nothing. */
  lemma DropNotesIdempotent(notes: seq<Mark>, noteId: string)
    ensures DropNotes(DropNotes(notes, noteId), noteId) == DropNotes(notes, noteId)
  {
    DropNotesAbsent(DropNotes(notes, noteId), noteId);
  }

  /** `filter` keeps the order of what it keeps: filtering a concatenation is concatenating
      the filtered parts. */
  lemma {:induction false} DropNotesAppend(a: seq<Mark>, b: seq<Mark>, noteId: string)
    ensures DropNotes(a + b, noteId) == DropNotes(a, noteId) + DropNotes(b, noteId)
    decreases |b|
  {
    if |b| > 0 {
      var init := b[..|b| - 1];
      DropNotesAppend(a, init, noteId);
      assert (a + b)[..|a + b| - 1] == a + init;
      assert (a + b)[|a + b| - 1] == b[|b| - 1];
    } else {
      assert a + b == a;
    }
  }

  /** `filter` keeps every other note exactly as often as it occurs, and drops every copy
      of the note. */
  lemma {:induction false} DropNotesCount(notes: seq<Mark>, noteId: string)
    ensures forall m: Mark ::
      multiset(DropNotes(notes, noteId))[m] == (if m.id != Some(noteId) then multiset(notes)[m] else 0)
    decreases |notes|
  {
    if |notes| > 0 {
      var init := notes[..|notes| - 1];
      DropNotesCount(init, noteId);
      assert notes == init + [notes[|notes| - 1]];
    }
  }

  /** The index with note `noteId` removed from the notes of the verses `vids`. */
  function DropNoteAt(index: Index, vids: set<string>, noteId: string): (r: Index)
    ensures r.Keys == index.Keys
  {
    map v | v in index :: if v in vids then index[v].(notes := DropNotes(index[v].notes, noteId)) else index[v]
  }

  /** Removing at one more verse is removing from that verse's current notes. */
  lemma DropNoteAtStep(index: Index, vids: set<string>, v: string, noteId: string)
    ensures var cur := DropNoteAt(index, vids, noteId);
      DropNoteAt(index, vids + {v}, noteId) ==
        if v in cur then cur[v := cur[v].(notes := DropNotes(cur[v].notes, noteId))] else cur
  {
    if v in index && v in vids {
      DropNotesIdempotent(index[v].notes, noteId);
    }
  }

  /** The versioned ids of the marked verses. */
  function Covered(mvs: seq<(string, MarkedVerse)>): set<string>
  {
    set k | 0 <= k < |mvs| :: KeyOf(mvs[k].1)
  }

  lemma CoveredStep(mvs: seq<(string, MarkedVerse)>, i: nat)
    requires i < |mvs|
    ensures Covered(mvs[..i + 1]) == Covered(mvs[..i]) + {KeyOf(mvs[i].1)}
  {
  }

  /** After removal no verse of `vids` lists the note, their notes are the filtered list
      (in order and with multiplicity, by DropNotesAppend and DropNotesCount), their
      highlights are untouched, and other verses are untouched. */
  lemma DropNoteAtSpec(index: Index, vids: set<string>, noteId: string)
    ensures forall v :: v in index && v in vids ==>
      DropNoteAt(index, vids, noteId)[v].notes == DropNotes(index[v].notes, noteId)
    ensures forall v :: v in index && v in vids ==>
      (forall k :: 0 <= k < |DropNoteAt(index, vids, noteId)[v].notes| ==> DropNoteAt(index, vids, noteId)[v].notes[k].id != Some(noteId))
      && DropNoteAt(index, vids, noteId)[v].highlights == index[v].highlights
    ensures forall v :: v in index && v !in vids ==> DropNoteAt(index, vids, noteId)[v] == index[v]
  {
  }

  // ---------------------------------------------------------------------------
  // The model
  // ---------------------------------------------------------------------------

  /** `find` on the values of a marked-verse map: the first with the given id. */
  function FindById(mvs: seq<(string, MarkedVerse)>, id: string): (r: Option<MarkedVerse>)
    ensures r.Some? ==>
      r.value.id == Some(id)
      && exists k :: 0 <= k < |mvs| && mvs[k].1 == r.value && forall j :: 0 <= j < k ==> mvs[j].1.id != Some(id)
    ensures r.None? ==> forall k :: 0 <= k < |mvs| ==> mvs[k].1.id != Some(id)
    decreases |mvs|
  {
    if |mvs| == 0 then None
    else if mvs[0].1.id == Some(id) then Some(mvs[0].1)
    else
      var r := FindById(mvs[1..], id);
      assert r.Some? ==> exists k :: 0 <= k < |mvs| && mvs[k].1 == r.value
                                     && forall j :: 0 <= j < k ==> mvs[j].1.id != Some(id) by {
        if r.Some? {
          var k :| 0 <= k < |mvs[1..]| && mvs[1..][k].1 == r.value
                   && forall j :: 0 <= j < k ==> mvs[1..][j].1.id != Some(id);
          assert mvs[k + 1] == mvs[1..][k];
          forall j | 0 <= j < k + 1 ensures mvs[j].1.id != Some(id) {
            if j > 0 {
              assert mvs[j] == mvs[1..][j - 1];
            }
          }
        }
      }
      r
  }

  function IdOf(m: Mark): Option<string>
  {
    m.id
  }

  class Model {
    /** The selected verses, by versioned id. */
    var selection: set<string>
    var marksById: map<Option<string>, Mark>
    /** `marksByTypeByVersionedVerseId`. */
    var index: Index

    constructor ()
      ensures selection == {} && marksById == map[] && index == map[]
    {
      selection := {};
      marksById := map[];
      index := map[];
    }

    /** The marks the delete operations may change: the one under the given id, if any. */
    function MarkAt(id: string): set<Mark>
      reads this
    {
      if Some(id) in marksById then {marksById[Some(id)]} else {}
    }

    method AddSelectedVerse(vid: string)
      modifies this
      ensures selection == old(selection) + {vid}
      ensures marksById == old(marksById) && index == old(index)
    {
      selection := selection + {vid};
    }

    method RemoveSelectedVerse(vid: string)
      modifies this
      ensures selection == old(selection) - {vid}
      ensures marksById == old(marksById) && index == old(index)
    {
      selection := selection - {vid};
    }

    /** `toggleVerseSelect`: adds the id when absent, removes it when present. */
    method ToggleVerseSelect(vid: string)
      modifies this
      ensures selection == Toggled(old(selection), vid)
      ensures marksById == old(marksById) && index == old(index)
    {
      if vid in selection {
        RemoveSelectedVerse(vid);
      } else {
        AddSelectedVerse(vid);
      }
    }

    /** `clearSelection`: the marks are left alone. */
    method ClearSelection()
      modifies this
      ensures selection == {}
      ensures marksById == old(marksById) && index == old(index)
    {
      selection := {};
    }

    /** `addMark`: registers the mark under its id, then files it under each of its verses,
        in map order. */
    method AddMark(mark: Mark)
      modifies this
      ensures marksById == old(marksById)[mark.id := mark]
      ensures index == AddAtAll(old(index), VerseIds(mark.markedVerses), mark)
      ensures selection == old(selection)
    {
      marksById := marksById[mark.id := mark];
      var vids := VerseIds(mark.markedVerses);
      var i := 0;
      while i < |mark.markedVerses|
        invariant 0 <= i <= |vids|
        invariant index == AddAtAll(old(index), vids[..i], mark)
        invariant marksById == old(marksById)[mark.id := mark] && selection == old(selection)
      {
        var vid := KeyOf(mark.markedVerses[i].1);
        var entry := if vid in index then Some(index[vid]) else None;
        index := index[vid := FileMark(entry, mark)];
        assert vids[..i + 1][..i] == vids[..i];
        i := i + 1;
      }
      assert vids[..i] == vids;
    }

    /** `setMarks`: a non-array (here `None`) changes nothing; otherwise both maps are
        cleared and the marks are added in order, so a later mark with the same id replaces
        an earlier one in `marksById`. */
    method SetMarks(marks: Option<seq<Mark>>)
      modifies this
      ensures marks.None? ==> marksById == old(marksById) && index == old(index)
      ensures marks.Some? ==>
        marksById == Helpers.AssociateBy(marks.value, IdOf) && index == IndexAll(Filing(marks.value), |marks.value|)
      ensures selection == old(selection)
    {
      if marks.None? {
        return;
      }
      var ms := marks.value;
      ghost var filing := Filing(ms);
      marksById := map[];
      index := map[];
      var i := 0;
      while i < |ms|
        invariant 0 <= i <= |ms|
        invariant marksById == Helpers.AssociateBy(ms[..i], IdOf)
        invariant index == IndexAll(filing, i)
        invariant selection == old(selection)
        invariant Filing(ms) == filing
      {
        assert filing[i] == (ms[i], VerseIds(ms[i].markedVerses));
        AddMark(ms[i]);
        SetMarksStep(ms, i);
        i := i + 1;
      }
      assert ms[..i] == ms;
    }

    /** `getMarksInVerses`: the per-colour union of the verses' highlight marks and the
        union of their note marks; the state is left as it is. */
    method GetMarksInVerses(vids: set<string>) returns (highlights: map<string, set<Mark>>, notes: set<Mark>)
      ensures highlights == HighlightsOf(index, vids) && notes == NotesOf(index, vids)
    {
      highlights := map[];
      notes := {};
      var rest := vids;
      while rest != {}
        invariant rest <= vids
        invariant highlights == HighlightsOf(index, vids - rest) && notes == NotesOf(index, vids - rest)
        decreases rest
      {
        var v :| v in rest;
        CollectStep(index, vids - rest, v);
        NotesStep(index, vids - rest, v);
        if v in index {
          highlights := MergeHighlights(highlights, index[v]);
          notes := notes + (set m | m in index[v].notes);
        }
        assert vids - (rest - {v}) == (vids - rest) + {v};
        rest := rest - {v};
      }
      assert vids - rest == vids;
    }

    /** `getSelectedMarks`: the marks of the selected verses. */
    method GetSelectedMarks() returns (highlights: map<string, set<Mark>>, notes: set<Mark>)
      ensures highlights == HighlightsOf(index, selection) && notes == NotesOf(index, selection)
    {
      highlights, notes := GetMarksInVerses(selection);
    }

    /** `deleteHighlightedVerseById`: an unknown mark, marked verse or index entry changes
        nothing; a mark with one marked verse is removed, and its colour entry at that verse
        with it; otherwise only that verse leaves the mark, and the colour entry at that
        verse goes. */
    method DeleteHighlightedVerseById(highlightedId: string, highlightedVerseId: string)
      modifies this, MarkAt(highlightedId)
      ensures selection == old(selection)
      ensures Some(highlightedId) !in old(marksById) ==> marksById == old(marksById) && index == old(index)
      ensures Some(highlightedId) in old(marksById) ==>
        var m := old(marksById)[Some(highlightedId)];
        var found := FindById(old(m.markedVerses), highlightedVerseId);
        if found.None? || KeyOf(found.value) !in old(index) then
          marksById == old(marksById) && index == old(index) && m.markedVerses == old(m.markedVerses)
        else if |old(m.markedVerses)| == 1 then
          marksById == old(marksById) - {Some(highlightedId)} && m.markedVerses == old(m.markedVerses)
          && index == RemoveColor(old(index), KeyOf(found.value), m.color)
        else
          marksById == old(marksById) && m.markedVerses == Delete(old(m.markedVerses), KeyOf(found.value))
          && index == RemoveColor(old(index), KeyOf(found.value), m.color)
    {
      if Some(highlightedId) !in marksById {
        return;
      }
      var m := marksById[Some(highlightedId)];
      var found := FindById(m.markedVerses, highlightedVerseId);
      if found.None? {
        return;
      }
      var vid := KeyOf(found.value);
      if vid !in index {
        return;
      }
      if |m.markedVerses| == 1 {
        // The `forEach` visits the one marked verse, which is the one just found.
        var only := KeyOf(m.markedVerses[0].1);
        assert only == vid;
        index := RemoveColor(index, only, m.color);
        marksById := marksById - {Some(highlightedId)};
      } else {
        DeleteUnique(m.markedVerses, vid);
        m.markedVerses := Delete(m.markedVerses, vid);
        index := RemoveColor(index, vid, m.color);
      }
    }

    /** `deleteNoteById`: removes the note from the notes of every verse it covers and then
        from `marksById`; an unknown id changes nothing. */
    method DeleteNoteById(noteId: string)
      modifies this
      ensures selection == old(selection)
      ensures Some(noteId) !in old(marksById) ==> marksById == old(marksById) && index == old(index)
      ensures Some(noteId) in old(marksById) ==>
        marksById == old(marksById) - {Some(noteId)}
        && index == DropNoteAt(old(index), Covered(old(marksById)[Some(noteId)].markedVerses), noteId)
    {
      if Some(noteId) !in marksById {
        return;
      }
      var m := marksById[Some(noteId)];
      var mvs := m.markedVerses;
      var i := 0;
      while i < |mvs|
        invariant 0 <= i <= |mvs|
        invariant index == DropNoteAt(old(index), Covered(mvs[..i]), noteId)
        invariant marksById == old(marksById) && selection == old(selection)
      {
        var vid := KeyOf(mvs[i].1);
        DropNoteAtStep(old(index), Covered(mvs[..i]), vid, noteId);
        if vid in index {
          index := index[vid := index[vid].(notes := DropNotes(index[vid].notes, noteId))];
        }
        CoveredStep(mvs, i);
        i := i + 1;
      }
      assert mvs[..i] == mvs;
      marksById := marksById - {Some(noteId)};
    }
  }

  /** Each mark with the ids of the verses it is filed under. */
  function Filing(marks: seq<Mark>): (r: seq<(Mark, seq<string>)>)
    reads marks
    ensures |r| == |marks| && forall k :: 0 <= k < |marks| ==> r[k] == (marks[k], VerseIds(marks[k].markedVerses))
  {
    seq(|marks|, k requires 0 <= k < |marks| reads marks => (marks[k], VerseIds(marks[k].markedVerses)))
  }

  /** The index `setMarks` builds from the first `n` marks: each filed in order, starting
      from nothing. */
  function IndexAll(filing: seq<(Mark, seq<string>)>, n: nat): Index
    requires n <= |filing|
  {
    if n == 0 then map[] else AddAtAll(IndexAll(filing, n - 1), filing[n - 1].1, filing[n - 1].0)
  }

  /** Adding one more mark: it is registered last under its id and filed last. */
  lemma SetMarksStep(ms: seq<Mark>, i: nat)
    requires i < |ms|
    ensures Helpers.AssociateBy(ms[..i + 1], IdOf) == Helpers.AssociateBy(ms[..i], IdOf)[ms[i].id := ms[i]]
  {
    assert ms[..i + 1][..i] == ms[..i];
  }
}
