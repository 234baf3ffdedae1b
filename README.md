# biblemark: scripture references and verse marks, in Dafny

biblemark is a Bible reading site. A signed-in user highlights verses in a colour or attaches a
note to them. Both kinds of mark cover one or more verses of one version. This project models the
core of that system and proves properties of the model:

- **Scripture references** (server, Python).
  - Books, versions and verses, and the order verses take inside one version.
  - Intervals of verses.
  - The reference builder, which cuts a verse list into runs of consecutive verses.
  - The formatter, which sorts the intervals in place and prints them as "John 3:16-18,20;4".
- **Marks** (server, Python).
  - Users, marked verses and marks, with the checks their constructors make.
  - Grouping joined database rows back into mark objects.
  - The JSON serialisation of marks, the creation response and the chapter response.
  - The request checks of the mark and user controllers.
  - The page block of paginated listings.
- **The browser client** (JavaScript).
  - The client-side verse, marked verse and mark, and the text id "version.book.chapter.verse".
  - The client's `Map`s, as insertion-ordered association lists.
  - The model object: verse selection, marks by id, and an index from each verse to the marks
    filed under it. Adding, listing and deleting marks update that index.
  - Application start-up: the configuration laid over the defaults, its validation, and the
    location read from the page path.

One module per source file. Shared modules:

- `Wrappers` defines `Option`, `Result` and `Outcome`, and the errors the code raises or throws.
- `Strings` defines the text operations the code borrows from its languages: Python's string
  order, `str(int)`, `split`, `strip`, and JavaScript's `split`/`join` and `+digits`.

Objects whose fields the source changes in place are classes:

- `Mark` (server): `add_marked_verse`, and the creation response's filter.
- `BibleReference`: the formatter sorts its intervals.
- The client `Mark`: `deleteHighlightedVerseById` removes marked verses from it, and the index
  shares it by reference.
- The client `Model`.

Loops that update variables are methods with invariants:

- the reference builder;
- the formatter's group loop;
- `convert_rows`;
- the loops of the client model.

Each method is proved against a function of its inputs. The properties that matter are proved
about that function.

## Model

| member | source | states |
|---|---|---|
| BookInfo.NewBibleBookInfo | biblemark/model/bible_book_info.py:9-14 | a book record is accepted exactly when id and English name are both non-empty; the id is checked first, each failure with its own message |
| BibleVersion.NewVersion | biblemark/model/bible_version.py:14-30 | a version is accepted exactly when internal id, external id, language and name are non-empty; the first empty one, in that order, names the error |
| BibleVersion.SameVersionOnlyByInternalId | biblemark/model/bible_version.py:42-43 | version equality is an equivalence that ignores every field but the internal id |
| Verse.NewVerse | biblemark/model/bible_verse.py:16-20 | a verse is accepted exactly when its chapter id is non-empty and its number is at least 1; the chapter is checked first |
| Verse.VerseIdFields | biblemark/model/bible_verse.py:27-31 | the verse id and versioned id are dot-joined fields that a split on '.' gives back (for dot-free book, chapter and version ids) |
| Verse.SiblingsShareChapter | biblemark/model/bible_verse.py:33-39 | a next sibling is in the same version, book and chapter, and is not the same verse |
| Verse.SiblingComesAfter | biblemark/model/bible_verse.py:33-39 | the next sibling of a verse is after it under `<`, and the verse is not after its sibling |
| Verse.Less | biblemark/model/bible_verse.py:49-66 | `<` raises exactly across versions, with the source's message; otherwise it orders by book order, then chapter id as text, then verse number |
| Verse.LessIrreflexive | biblemark/model/bible_verse.py:41-66 | a verse is never before a verse equal to it (version, book, chapter, number) |
| Verse.LessStrictTotal | biblemark/model/bible_verse.py:49-66 | within one version and structure with distinct book orders, two different verses are ordered exactly one way |
| Strings.TenBeforeTwo | biblemark/model/bible_verse.py:57-63 | chapter ids compared as text put "10" before "2" |
| Strings.LexLessTotal | biblemark/model/bible_verse.py:62 | Python's string `<` orders any two distinct texts one way or the other |
| Strings.LexLessTransitive | biblemark/model/bible_verse.py:62 | Python's string `<` is transitive |
| Strings.IntToStringInjective | biblemark/model/bible_verse.py:28 | distinct verse numbers print as distinct texts |
| MarkedVerseModel.NewMarkedVerse | biblemark/model/marked_verse.py:8-14 | the marked verse holds the verse, visibility and id it was given |
| MarkedVerseModel.Factory | biblemark/model/marked_verse.py:16-18 | the factory fails exactly when the verse constructor does, with its error; otherwise the marked verse holds that well-formed verse, the visibility and the id |
| MarkedVerseModel.FactoryDefaults | biblemark/model/marked_verse.py:17 | a factory-built marked verse with the defaults is visible and has no id |
| UserModel.NewUser | biblemark/model/user.py:5-18 | a user is accepted exactly when the username matches the word-character pattern and the name is non-empty; the username is checked first |
| UserModel.UsernameExamples | biblemark/model/user.py:5-9 | the pattern accepts "john_doe42" and one trailing newline; it rejects the empty text, spaces, dots and two newlines |
| UserModel.UsernameShape | biblemark/model/user.py:5-9 | in an accepted username every character but the last is a word character, and the last is one or a newline |
| MarkModel.CheckMarkAccepts | biblemark/model/mark.py:23-37 | a mark passes exactly when it has a user, a matching colour if any, a non-blank note of at most 1024 characters if any, and a marked verse; the first failing check, in the order user, colour, blank note, long note, no verses, names the error |
| MarkModel.ColorCodeExamples | biblemark/model/mark.py:10 | the colour pattern takes an optional '#', six hex digits in either case and an optional final newline |
| MarkModel.ColorCodeLength | biblemark/model/mark.py:10 | an accepted colour code has six to eight characters |
| MarkModel.NoteExamples | biblemark/model/mark.py:30-34 | a whitespace-only note is refused, 1025 characters are too long, and surrounding whitespace counts toward the limit |
| MarkModel.Mark.Create | biblemark/model/mark.py:13-43 | construction fails exactly when the checks fail, with their error; otherwise a fresh mark holds the given values |
| MarkModel.Mark.AddMarkedVerse | biblemark/model/mark.py:45-46 | the marked verse is appended at the end and nothing else changes |
| MarkModel.Mark.ToReference | biblemark/model/mark.py:48-49 | the reference fails exactly on an empty list; otherwise it holds the marked verses' verses in order and the intervals of their runs |
| Interval.NewInterval | biblemark/model/bible_verse_interval.py:14-27 | an interval is accepted exactly when both ends share a version and the right end is not before the left; each failure has its own message |
| Interval.ConstructedIsOrdered | biblemark/model/bible_verse_interval.py:20-24 | a constructed interval lies in one version and never runs backwards |
| Interval.SameChapterIsSameBook | biblemark/model/bible_verse_interval.py:29-49 | a single-verse interval is in one chapter, and one chapter is one book |
| Interval.SameChapterShapes | biblemark/model/bible_verse_interval.py:51-73 | inside one chapter exactly one of "partial" and "full" holds, "full" means both ends aligned, and no cross-chapter shape holds |
| Interval.CrossChapterShapes | biblemark/model/bible_verse_interval.py:51-73 | across chapters neither same-chapter shape holds, at most one cross shape does, and none does exactly when neither end is aligned |
| Interval.ToIdFields | biblemark/model/bible_verse_interval.py:75-78 | the interval id splits at '-' into one verse id for a single verse and two otherwise |
| Interval.OrderIgnoresRight | biblemark/model/bible_verse_interval.py:80-87 | `<` and `>` compare left verses only, while `==` also compares the right ones |
| Interval.OrderOnlyByLeft | biblemark/model/bible_verse_interval.py:80-87 | intervals with equal left verses compare alike under `<` and `>`, whatever their right verses |
| Reference.RunsCover | biblemark/model/bible_reference.py:17-29 | the runs are non-empty and concatenate to the input verses, in order |
| Reference.RunsFlatten | biblemark/model/bible_reference.py:17-29 | concatenating the runs gives back the input verses, in order: no verse is lost, repeated or moved |
| Reference.RunsAreChains | biblemark/model/bible_reference.py:24 | each run is a chain of next siblings |
| Reference.RunsAreMaximal | biblemark/model/bible_reference.py:24-26 | a new run starts exactly where a verse is not the next sibling of the one before |
| Reference.RunCount | biblemark/model/bible_reference.py:24-29 | there is one run more than there are adjacent non-sibling pairs |
| Reference.IntervalEndsAreInputs | biblemark/model/bible_reference.py:25-29 | both ends of every built interval are input verses |
| Reference.LastRunEndsInput | biblemark/model/bible_reference.py:29 | the last interval closes at the last input verse |
| Reference.ChainEnds | biblemark/model/bible_verse.py:33-39 | a sibling chain stays in one version, book and chapter, and its last number is the first plus its length minus one |
| Reference.BuiltIntervalsInOneChapter | biblemark/model/bible_reference.py:17-29 | every built interval lies in one chapter of one version and spans as many verse numbers as its run has verses |
| Reference.InChapterIntervalOk | biblemark/model/bible_verse_interval.py:20-24 | an interval inside one chapter that does not run backwards is accepted, so the builder never fails on it |
| Reference.ScanIntervals | biblemark/model/bible_reference.py:14-29 | the builder's loop returns exactly the intervals of the runs of the verses |
| Reference.BibleReference.Create | biblemark/model/bible_reference.py:7-29 | an empty verse list is refused with the source's message; otherwise a fresh reference keeps the list and the intervals of its runs, in input order |
| Formatter.FormatNumbering | biblemark/model/bible_reference_formatter.py:107-155 | one verse prints as chapter:verse; inside a chapter a whole chapter prints as its id, otherwise as a verse range; across chapters each end prints as a chapter id when aligned and in full otherwise |
| Formatter.FormatInterval | biblemark/model/bible_reference_formatter.py:73-105 | inside one book: the book name, a space and the numbering; across books: both ends in full, joined by the cross-book delimiter |
| Formatter.IntervalStartsWithBookAndChapter | biblemark/model/bible_reference_formatter.py:93-105 | every printed interval starts with the book name and chapter id of its left verse |
| Formatter.KeyOrderIsIntervalLess | biblemark/model/bible_verse_interval.py:83-84 | for intervals of one version, the sort key order is exactly the intervals' `<` |
| Formatter.SortByLeftSorts | biblemark/model/bible_reference_formatter.py:43 | the sort leaves no interval strictly before the one in front of it, and is a permutation |
| Formatter.InsertSorted | biblemark/model/bible_reference_formatter.py:43 | inserting into a sorted list keeps it sorted |
| Formatter.Step | biblemark/model/bible_reference_formatter.py:51-68 | each later interval adds a separator and its text, preceded by " (previous version id)" when the version changes; the separator is the verse-group one exactly when it continues the previous chapter; the text is the bare verse number or range inside that chapter, the numbering inside the same book, and the full interval otherwise |
| Formatter.Groups | biblemark/model/bible_reference_formatter.py:45-50 | the first interval is printed in full with the default delimiters, whatever the caller passed |
| Formatter.NoVersionNote | biblemark/model/bible_reference_formatter.py:51-68 | for intervals of one version no version note is printed, and every interval after the first adds exactly two groups |
| Formatter.RenderEnds | biblemark/model/bible_reference_formatter.py:40-71 | the text starts with the first interval printed in full; it is exactly that for one interval, and otherwise ends with the last interval's own text, never with a separator |
| Formatter.RenderGroups | biblemark/model/bible_reference_formatter.py:40-71 | the group loop and join produce the text of the sorted intervals |
| Formatter.PreparedForSort | biblemark/model/bible_reference_formatter.py:43 | intervals of one version can all be ordered by one structure, and the sorted list can still be printed |
| Formatter.FormatText | biblemark/model/bible_reference_formatter.py:19-71 | formatting fails exactly when the intervals span more than one version, with the comparison error; a non-empty reference otherwise prints non-empty text |
| Formatter.Format | biblemark/model/bible_reference_formatter.py:19-71 | the intervals are sorted in place and printed; across versions the call fails and leaves them unchanged; an empty list prints "" |
| Formatter.ExampleVerseList | biblemark/model/bible_reference_formatter.py:53-58 | verses 1, 3 and 5-6 of John 3 print as "John 3:1,3,5-6" |
| Formatter.ExampleChapterChange | biblemark/model/bible_reference_formatter.py:51-61 | "John 3:16-18,20;4": a new chapter of the same book follows ";" with no space and a whole chapter prints as its id |
| Formatter.ExampleWholeChapters | biblemark/model/bible_reference_formatter.py:135-143 | a whole chapter prints as "John 3", two whole chapters as "John 3—4" |
| Formatter.ExamplePartialToFull | biblemark/model/bible_reference_formatter.py:149-151 | from verse 2 to the end of the next chapter prints as "John 3:2—4" |
| Formatter.ExampleOneVerse | biblemark/model/bible_reference_formatter.py:127-129 | a single verse prints as "John 3:16" |
| Formatter.FirstIntervalUsesDefaults | biblemark/model/bible_reference_formatter.py:47 | the caller's delimiters apply only after the first interval |
| MarkRepository.ParseBook | biblemark/repository/mark_repository.py:236 | a book id parses exactly when the catalogue knows it, to the catalogue's book |
| MarkRepository.RowMarkedVerse | biblemark/repository/mark_repository.py:227-240 | a row's marked verse exists exactly when its version, book and verse columns pass their checks, and it carries the row's fields |
| MarkRepository.RowMark | biblemark/repository/mark_repository.py:245-257 | a row opens a mark with its id, colour, note, time, its user without password, and the one marked verse |
| MarkRepository.ConvertRows | biblemark/repository/mark_repository.py:223-259 | the loop fails exactly when the grouping does, with its error; otherwise it returns distinct fresh mark objects holding the grouped marks in order |
| MarkRepository.ConvertRow | biblemark/repository/mark_repository.py:227-257 | one row either extends the mark with its id or opens a new one at the end; a failing row decides the outcome; it changes only marks created earlier in the loop and adds at most new ones |
| MarkRepository.OpenMark | biblemark/repository/mark_repository.py:245-257 | the new mark object holds the row's mark values, or the user or mark error |
| MarkRepository.Extend | biblemark/repository/mark_repository.py:243 | adding a marked verse changes only that mark |
| MarkRepository.AddRowExtends | biblemark/repository/mark_repository.py:242-243 | a row whose id is known appends its marked verse to that mark |
| MarkRepository.AddRowOpens | biblemark/repository/mark_repository.py:244-257 | a row whose id is new adds its mark at the end, or fails with the mark's error |
| MarkRepository.NoRowsNoMarks | biblemark/repository/mark_repository.py:223-259 | no rows give no marks |
| MarkRepository.OneMarkPerId | biblemark/repository/mark_repository.py:242-259 | there is one mark per distinct mark id, in order of first appearance |
| MarkRepository.DistinctIds | biblemark/repository/mark_repository.py:242-259 | every mark has an id, and no two marks share one |
| MarkRepository.AddRowIds | biblemark/repository/mark_repository.py:242-259 | a row with a known mark id leaves the id list unchanged; a row with a new id appends it |
| MarkRepository.MarkVerses | biblemark/repository/mark_repository.py:226-257 | each mark holds exactly the marked verses of the rows with its id, in row order |
| MarkRepository.MarkFirstRow | biblemark/repository/mark_repository.py:245-257 | a mark's colour, note, time and user come from the first row with its id, and no password is read |
| MarkRepository.UpToKeepsError | biblemark/repository/mark_repository.py:226-243 | once a row fails, the whole grouping fails with that error |
| MarkConverters.IdTextInjective | biblemark/converter/mark_converters.py:25 | distinct ids, and a missing id, stringify to distinct texts |
| MarkConverters.SerializeMarkedVerse | biblemark/converter/mark_converters.py:29-37 | an entry holds the stringified id and the verse's version, book, chapter and number |
| MarkConverters.SerializedVersesMirror | biblemark/converter/mark_converters.py:29-37 | one entry per marked verse, in order, each with the verse's fields |
| MarkConverters.SerializedVersesDetermineFields | biblemark/converter/mark_converters.py:29-37 | two lists serialise alike only when they agree entry by entry on id and verse fields |
| MarkConverters.ReferenceText | biblemark/converter/mark_converters.py:28 | no verses fail with the reference error; otherwise the text is the formatter's text of the built intervals |
| MarkConverters.Serialize | biblemark/converter/mark_converters.py:23-39 | serialisation fails exactly when the reference cannot be printed; otherwise the fields pass through and the verses are serialised in order |
| MarkConverters.SerializeOutcomes | biblemark/converter/mark_converters.py:23-39 | an empty mark fails; a non-empty one fails exactly when its verses span two versions, and otherwise has a non-empty reference |
| MarkConverters.SerializeMark | biblemark/converter/mark_converters.py:23-39 | the method returns the serialisation of the mark's values |
| MarkConverters.SerializeEnrichedMark | biblemark/converter/mark_converters.py:17-20 | the serialised mark with the passages beside it, or the serialisation error |
| MarkConverters.FilterAt | biblemark/converter/mark_converters.py:8-13 | the filter keeps only verses at the location, and never adds any |
| MarkConverters.FilterAtMembers | biblemark/converter/mark_converters.py:8-13 | a marked verse survives exactly when it is in the list and at the location |
| MarkConverters.FilterAtAppend | biblemark/converter/mark_converters.py:8-13 | the filter keeps relative order |
| MarkConverters.FilterAtIdempotent | biblemark/converter/mark_converters.py:8-13 | filtering twice is filtering once |
| MarkConverters.FilterAtExtremes | biblemark/converter/mark_converters.py:8-13 | all at the location keeps all; none at the location keeps none |
| MarkConverters.FilteredReferenceFailsOnlyWhenEmpty | biblemark/converter/mark_converters.py:7-14 | after the filter the version error cannot occur: the response fails only when no verse is left |
| MarkConverters.BuildMarkCreationResponse | biblemark/converter/mark_converters.py:7-14 | the mark's verses are replaced by those at the location, nothing else changes, and the result is their serialisation, failing exactly when none is left |
| BibleConverters.LinkTo | biblemark/converter/bible_converters.py:16-21 | a link carries the version, book and chapter and their path |
| BibleConverters.ChapterLinksShape | biblemark/converter/bible_converters.py:14-40 | "self" is always present; "prev" and "next" exactly when the record has those chapters; every link points into the version |
| BibleConverters.BuildChapterContentResponse | biblemark/converter/bible_converters.py:1-11 | the chapter block copies the record's fields under the version, beside its links |
| BibleConverters.HrefRoundTrip | biblemark/converter/bible_converters.py:20 | a chapter path splits on '/' back into version, book and chapter |
| Pagination.FloorDiv | biblemark/converter/pagination_converter.py:10 | Python's floor division: the quotient rounds toward negative infinity |
| Pagination.CeilDivBounds | biblemark/converter/pagination_converter.py:10 | the ceiling of a division by a positive size is the least q with a <= q * size |
| Pagination.BuildPaginatedResponse | biblemark/converter/pagination_converter.py:5-14 | a zero size divides by zero; otherwise the page block holds size, total, number and page count, beside the content |
| Pagination.TotalPagesBounds | biblemark/converter/pagination_converter.py:10 | there is at least one page, exactly one for no elements, and otherwise the fewest pages that hold every element |
| Pagination.TotalPagesExamples | biblemark/converter/pagination_converter.py:10 | 95 elements at 30 a page take 4 pages, 90 take 3, none take 1 |
| MarkApi.ValidateMarkPayload | biblemark/controller/api/mark_api_controller.py:13-26 | a refused payload fails with "Invalid mark payload" |
| MarkApi.ValidateMarkPayloadExclusive | biblemark/controller/api/mark_api_controller.py:13-26 | a payload passes exactly when exactly one of colour and note is present; a missing mark is refused |
| MarkApi.EmptyColorIsPresent | biblemark/controller/api/mark_api_controller.py:21-22 | presence means "not null", so an empty colour still counts |
| MarkApi.ValidateMarkedVerseIds | biblemark/controller/api/mark_api_controller.py:29-31 | the parameter passes exactly when present and non-empty; otherwise a 400 with the source's description |
| MarkApi.MarkedVerseIdsSplit | biblemark/controller/api/mark_api_controller.py:67-70 | the ids are comma-free, one more than the commas, and join back to the parameter |
| MarkApi.EmptyPiecesKept | biblemark/controller/api/mark_api_controller.py:70 | "1,,2" gives three ids, the middle one empty |
| MarkWeb.PageSizeArgument | biblemark/controller/web/mark_web_controller.py:23 | an absent size gives 30, a given one is kept |
| MarkWeb.ValidatePageSize | biblemark/controller/web/mark_web_controller.py:15-17 | a size passes exactly when it is 1, 5, 10, 30, 50 or 100 |
| MarkWeb.PageNumberRange | biblemark/controller/web/mark_web_controller.py:26-41 | the zero-based page is never negative, is 0 for page 1 or below, p - 1 otherwise, and displays back as the requested page |
| MarkWeb.PageRequest | biblemark/controller/web/mark_web_controller.py:23-26 | a listing request succeeds exactly when its size is allowed, with a positive size and the zero-based page |
| MarkWeb.PageSizeExamples | biblemark/controller/web/mark_web_controller.py:12-26 | no parameters give size 30, page 0; sizes 20 and 0 are refused |
| UserWeb.RegistrationOutcomes | biblemark/controller/web/user_web_controller.py:11-23 | a form is accepted exactly when every field is filled and the passwords agree; a missing field is reported before a mismatch |
| UserWeb.RequiredBeforeMismatch | biblemark/controller/web/user_web_controller.py:17-21 | an empty confirmation is reported as missing, not as a mismatch |
| Helpers.AssociateByEntries | biblemark/utils/helpers.py:19-22 | the keys are exactly the items' keys, and each holds the last item with that key |
| Helpers.AssociateBySize | biblemark/utils/helpers.py:19-22 | the dictionary has at most as many entries as items, and exactly as many if and only if the keys are distinct |
| ClientVerse.FromVersionedVerseId | biblemark/static/js/spa/model/verse.js:22-25 | the call throws exactly when the parse returns null; otherwise the verse holds the parsed fields |
| ClientVerse.ParseAccepts | biblemark/static/js/spa/model/verse.js:31-54 | a parse succeeds exactly on four '.'-separated non-empty parts whose last is all digits, and returns them, the last read as a number |
| ClientVerse.ParsePrinted | biblemark/static/js/spa/model/verse.js:31-82 | printing then parsing gives back the fields for a natural verse number; a negative one is refused |
| ClientVerse.PrintParsed | biblemark/static/js/spa/model/verse.js:31-82 | parsing then printing gives back the text exactly when the verse number has no leading zero |
| ClientVerse.GeneratedIdIsVersionedId | biblemark/static/js/spa/model/verse.js:68-84 | joining a version id onto a verse id gives the versioned id |
| ClientVerse.FromVersionedVerseIdExamples | biblemark/static/js/spa/model/verse.js:22-54 | "" throws and "kjv.john.3.16" reads back as its four fields |
| ClientMarkedVerse.Factory | biblemark/static/js/spa/model/markedVerse.js:22-23 | the marked verse has the given id, and its verse holds the four given fields and prints as them |
| ClientMarkedVerse.FromVersionedVerseId | biblemark/static/js/spa/model/markedVerse.js:29-30 | no id, the verse read from the text, and the verse's error on a malformed text |
| ClientMarkedVerse.FromVersionedVerseIdRoundTrip | biblemark/static/js/spa/model/markedVerse.js:29-30 | a canonical id comes back unchanged from the marked verse built from it |
| ClientMark.Normalize | biblemark/static/js/spa/model/mark.js:22-27 | a falsy colour or note becomes null, a truthy one is kept |
| ClientMark.Mark.Factory | biblemark/static/js/spa/model/mark.js:51-52 | an unsaved mark has no id, reference or time, normalised colour and note, and the given marked verses |
| ClientMark.Mark.FromMarkResponse | biblemark/static/js/spa/model/mark.js:58-77 | id and reference are copied, colour, note and time normalised, and the marked verses keyed by versioned id in response order |
| ClientMark.EntriesOfDistinct | biblemark/static/js/spa/model/mark.js:65-74 | the reduced map never holds a key twice and has no more entries than the response |
| ClientMark.EntriesOfKeys | biblemark/static/js/spa/model/mark.js:65-74 | its keys are exactly the versioned ids of the response entries |
| ClientMark.EntriesOfLastWins | biblemark/static/js/spa/model/mark.js:73 | a versioned id holds the last entry filed under it |
| ClientMark.ClientKeyIsServerVersionedId | biblemark/static/js/spa/model/mark.js:66-73 | the key the client files a serialised marked verse under is the server's versioned id of that verse |
| JsMaps.GetFinds | biblemark/static/js/spa/model/model.js:160 | `get` finds a key exactly when an entry carries it, with that entry's value |
| JsMaps.SetSpec | biblemark/static/js/spa/model/mark.js:73 | after `set` the key holds the new value, other keys keep theirs, a present key stays in place and a new key goes last |
| JsMaps.DeleteSpec | biblemark/static/js/spa/model/model.js:234 | after `delete` the key is gone, other keys keep their values, and an absent key changes nothing |
| JsMaps.DeleteUnique | biblemark/static/js/spa/model/model.js:234 | `delete` keeps the keys distinct |
| JsMaps.UniqueKeysDistinct | biblemark/static/js/spa/model/mark.js:10 | the recursive and the pairwise statement of "no key twice" agree |
| ClientModel.Toggled | biblemark/static/js/spa/model/model.js:95-99 | toggling flips the id's membership and leaves every other id alone |
| ClientModel.ToggleTwice | biblemark/static/js/spa/model/model.js:95-99 | toggling twice restores the selection |
| ClientModel.Model.AddSelectedVerse | biblemark/static/js/spa/model/model.js:84-86 | the id joins the selection; the marks are untouched |
| ClientModel.Model.RemoveSelectedVerse | biblemark/static/js/spa/model/model.js:91-93 | the id leaves the selection; the marks are untouched |
| ClientModel.Model.ToggleVerseSelect | biblemark/static/js/spa/model/model.js:95-99 | the selection is toggled at the id; the marks are untouched |
| ClientModel.Model.ClearSelection | biblemark/static/js/spa/model/model.js:101-103 | the selection is emptied; the marks are untouched |
| ClientModel.VerseIds | biblemark/static/js/spa/model/model.js:150-156 | the ids a mark is filed under are its marked verses' versioned ids, in map order |
| ClientModel.AddAtAllFiles | biblemark/static/js/spa/model/model.js:150-166 | after filing, every verse of the mark is indexed and lists the mark under its colour and among the notes, as it has them |
| ClientModel.AddAtAllKeeps | biblemark/static/js/spa/model/model.js:158-165 | filing drops nothing: lists only grow at the end, and verses the mark does not cover are untouched |
| ClientModel.Model.AddMark | biblemark/static/js/spa/model/model.js:142-167 | the mark is registered under its id and filed under each of its verses in map order; the selection is untouched |
| ClientModel.Model.SetMarks | biblemark/static/js/spa/model/model.js:125-137 | a non-array changes nothing; otherwise both maps are rebuilt from the marks in order, a later mark replacing an earlier one with its id |
| ClientModel.SetMarksStep | biblemark/static/js/spa/model/model.js:134-136 | each added mark is registered last under its id |
| ClientModel.MergeHighlights | biblemark/static/js/spa/model/model.js:182-187 | merging a verse's entry adds its colours to those collected |
| ClientModel.CollectStep | biblemark/static/js/spa/model/model.js:177-190 | collecting one more verse merges its entry, and an unindexed verse adds nothing |
| ClientModel.Model.GetMarksInVerses | biblemark/static/js/spa/model/model.js:173-193 | the result is the per-colour union of the verses' highlight marks and the union of their note marks; the state is unchanged |
| ClientModel.Model.GetSelectedMarks | biblemark/static/js/spa/model/model.js:118-120 | the marks of the selected verses |
| ClientModel.FindById | biblemark/static/js/spa/model/model.js:208 | `find` returns the first marked verse of the map, in map order, with that id, and none exactly when no marked verse has it |
| ClientModel.RemoveColor | biblemark/static/js/spa/model/model.js:223-236 | deleting a colour at a verse removes that colour's whole list there and touches nothing else |
| ClientModel.Model.DeleteHighlightedVerseById | biblemark/static/js/spa/model/model.js:200-237 | unknown mark, marked verse or index entry: nothing changes; a one-verse mark is removed with its colour at that verse; otherwise the verse leaves the mark and the colour goes at that verse |
| ClientModel.DropNotes | biblemark/static/js/spa/model/model.js:251 | the filter keeps exactly the notes with another id |
| ClientModel.DropNotesAbsent | biblemark/static/js/spa/model/model.js:251 | a list without the note is unchanged |
| ClientModel.DropNotesIdempotent | biblemark/static/js/spa/model/model.js:251 | filtering again changes nothing |
| ClientModel.DropNotesAppend | biblemark/static/js/spa/model/model.js:251 | the filter keeps the order of the notes it keeps: it distributes over concatenation |
| ClientModel.DropNotesCount | biblemark/static/js/spa/model/model.js:251 | every other note is kept exactly as often as it occurs, and every copy of the note is dropped |
| ClientModel.DropNoteAt | biblemark/static/js/spa/model/model.js:246-255 | removing a note keeps the set of indexed verses |
| ClientModel.DropNoteAtSpec | biblemark/static/js/spa/model/model.js:246-255 | afterwards a covered verse's notes are its filtered list, with no copy of the note, their highlights are untouched, and other verses are untouched |
| ClientModel.Model.DeleteNoteById | biblemark/static/js/spa/model/model.js:242-261 | an unknown id changes nothing; otherwise the note leaves every verse it covers and then the marks by id |
| ClientApp.Property | biblemark/static/js/spa/app.js:77-89 | destructuring throws exactly on null or undefined; an object gives its field, and anything else undefined |
| ClientApp.MergeConfig | biblemark/static/js/spa/app.js:58 | every key the user gives replaces the default whole, and the other defaults stay |
| ClientApp.IsValidColor | biblemark/static/js/spa/app.js:86-89 | a colour is valid exactly when it is an object with a truthy code matching '#' and six hex digits and a non-empty name; null or undefined throws |
| ClientApp.EveryValidColorSpec | biblemark/static/js/spa/app.js:91 | `every` holds exactly when each entry is valid, and throws exactly when a null or undefined entry comes before any invalid one |
| ClientApp.ValidateConfig | biblemark/static/js/spa/app.js:70-94 | the base URL error occurs exactly when it is not a non-empty string; the location error exactly when the URL is fine and the location is not |
| ClientApp.ValidateConfigPasses | biblemark/static/js/spa/app.js:70-94 | a configuration passes exactly when URL, location and one to five valid colours are all present |
| ClientApp.ValidateColorsOutcome | biblemark/static/js/spa/app.js:91-93 | a wrong-length or non-array colour list fails with "Invalid colors"; a thrown type error needs a null or undefined entry |
| ClientApp.DefaultConfigIsValid | biblemark/static/js/spa/app.js:42-58 | the defaults pass, and so does a configuration setting only a non-empty base URL |
| ClientApp.BaseUrlOnlyIsValid | biblemark/static/js/spa/app.js:42-58 | any configuration whose only key is a non-empty base URL passes validation once merged over the defaults |
| ClientApp.ColorCodeExamples | biblemark/static/js/spa/app.js:11 | the code pattern ignores case and demands the '#'; an array of one code prints as that code yet is not a valid colour |
| ClientApp.GetLocation | biblemark/static/js/spa/app.js:96-104 | the second to fourth path segments, each falling back to the default when empty or missing |
| ClientApp.GetLocationOfHref | biblemark/static/js/spa/app.js:96-104 | a chapter page path the server links to opens at that chapter, whatever the defaults |
| ClientApp.GetLocationDefaults | biblemark/static/js/spa/app.js:96-104 | "/" gives the default location, "/ESV" the default book and chapter in ESV |
| ClientApp.StartApp | biblemark/static/js/spa/app.js:41-68 | start-up fails exactly when the merged configuration fails validation, with its error; otherwise it holds the merged configuration and the location read from the path |

## Left out

- Type checks (`isinstance`, `typeof`, `instanceof`) that the Dafny types make moot. The two `instanceof` guards of `addMark` are also no-ops as written (`!mark instanceof Mark` is always false).
- The module of book ids and the module of version structures are not part of this model. A structure is a map given by the caller. A lookup of a book or chapter the structure lacks is a precondition (`Known`, `Renderable`, `Serializable`), because how those modules fail is not visible.
- Formatter.Format: when the sort raises, Python may leave the list partly reordered; the model leaves it unchanged.
- Formatter.SortByLeft: stated as sorted and a permutation. Stability holds by construction (insertion after every equal key), but no separate lemma states it.
- Formatter.FormatText, MarkConverters.Serialize: require every lookup of the formatter to succeed, and an internal id to mean one structure. The source would raise on a missing book or chapter instead. `Renderable` asks for the chapter-end lookup of the numbering for every interval, even one printed as a continuation of the previous chapter, where the source prints only verse numbers and looks nothing up.
- Pagination.BuildPaginatedResponse: `ceil` of a float division is modelled as exact integer ceiling; the float rounding of very large totals is not modelled.
- JavaScript numbers are integers here: `NaN`, fractions and precision loss are not modelled.
- ClientMark.Mark: the marking time stays text; `new Date(marked)` is not modelled.
- `date` in `biblemark/utils/helpers.py` (datetime parsing and formatting) and the module-level cache and process manager are not modelled.
- MarkApi.ValidateMarkPayload: a JSON `null` under `"mark"` makes the source raise `AttributeError`; the model takes the `mark` object as present or absent only.
- The client's colour and verse order inside the index, the insertion order of `marksById` (`ClientModel.Model.marksById`), and the order of `getMarksInVerses` results, are not kept: Dafny maps and sets are unordered. The marked-verse `Map` of a mark does keep insertion order.
- ClientApp.StartApp: a non-object configuration (spread of a string or array) is not modelled. `window.location.pathname` is taken as a parameter.
- ClientApp.DefaultLocation: requires the validated location. The source reads the fields without a check, after validation.
- Database access is not modelled: the counts, the paginated and chapter queries, `fetch_mark_by_id`, `save_mark`, `delete_mark_by_id` and the soft deletes. Only `convert_rows`, which turns their rows into marks, is modelled.
- Flask routing, templates, flash messages, sessions and authentication are not modelled. The controllers appear through their request checks and the values they compute.
- The view-state fields of the client model are not modelled (`title`, `content`, `versions`, `books`, `chapters`, `prev`, `next` and the current ids). Nothing in the core reads them.
- `getSelection` and `getMarksByTypeByVersionedVerseId` are plain getters of public fields, so they are not modelled.
- Console logging, the views, the HTTP client and the controller that `App` wires together are not modelled.
