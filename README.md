# Personal library catalog, modelled in Dafny

`app.py` is a menu-driven catalog of book records. It loads the catalog from a
file when it starts, then loops over a six-item menu:

1. add a book;
2. remove every book with a given title;
3. search by title or author, case-insensitively;
4. list the catalog;
5. print statistics;
6. quit.

Every change is saved at once by rewriting the whole file.

The model has two modules:

- `Text` (`text.dfy`) holds the two string primitives the program relies on:
  - `Lower`, the ASCII part of Python's `str.lower`;
  - `Contains`, Python's `t in s`, proved equal to the substring relation
    `OccursIn`.
- `App` (`app.dfy`) holds the rest of the program:
  - The `Book` record.
  - `Filter`, one definition shared by both list comprehensions (the one in
    `remove_book` and the one in `search_library`).
  - The search, statistics and display functions.
  - The class `Shell`. Its field `library` is `main`'s list. Its field
    `persisted` is what the file holds. Its methods are `load_library`
    (the constructor), `save_library`, `add_book`, `remove_book` and the menu
    loop `Run`.

Each line the program reads with `input()` is an element of a `seq<string>`
passed in. The printed output is a sequence of `Message` values.

`Run` is proved against `Session`, a pure function that runs the menu loop on a
`Store(library, persisted)`. The lemmas about `Session` state what each menu
choice does and what a whole run can and cannot do.

Each operation therefore appears twice:
- the imperative form (`Shell.AddBook`, `Shell.RemoveBook`, `Shell.Run`,
  `DisplayBooks`, `SearchLibrary`) follows the program's loops and updates;
- the pure form (`AddStep`, `RemoveStep`, `SearchStep`, `Step`, `Session`,
  `DisplayReport`, `SearchReport`) is what lemmas can talk about, since a lemma
  cannot call a method.

`Run`, `DisplayBooks` and `SearchLibrary` are proved equal to `Session`,
`DisplayReport` and `SearchReport`. `AddBook` and `RemoveBook` state their new
state directly. The proof of `Run` checks those states against `AddStep` and
`RemoveStep`.

`remove_book` saves a filtered copy of the catalog but never changes `main`'s
`library`, which keeps the removed records (`app.py:41-44`). The next
`add_book` appends to that list and saves it (`app.py:34-35`), so the removed
records are written back to the file.

The model keeps this behaviour:

- `Shell.RemoveBook` leaves `library` unchanged.
- `LibraryOnlyGrows` proves that `main`'s list never loses a record.
- `RemoveThenAdd` and `RemovedRecordsComeBack` prove that a removed title
  reappears in the file after the next add.

## Model

| member | source | states |
|---|---|---|
| Text.Contains | app.py:57 | Python's `t in s`, tried position by position; its meaning, the substring relation in both directions, is proved by Text.ContainsIff |
| App.NewBook | app.py:25-33 | the record `add_book` builds; its read flag is characterised by Text.LowerIsYes and its use by App.ChooseAdd and App.Shell.AddBook |
| App.FieldValue | app.py:57 | `book[search_by]` for the two accepted selectors; the search results it selects are characterised by App.Matches |
| App.Line | app.py:61-62 | the text of one listed or found record, title, author, year and read status; each listing and search report carries one per record, by App.Entries |
| App.Stats.Percent | app.py:81 | `perc_read`; its range and its extremes are proved by App.StatisticsPercent |
| App.DisplayReport | app.py:67-75 | the output of `display_books`; its content is proved by App.DisplayReportMeaning and its printing loop by App.DisplayBooks |
| App.SearchReport | app.py:50-64 | the output of `search_library`; its content is proved by App.SearchReportMeaning and App.SearchIgnoresCase, and its printing loop by App.SearchLibrary |
| App.Session | app.py:89-116 | `main`'s loop over the lines read; each choice is characterised by the App.Choose lemmas, whole runs by App.QuitNeedsSix, App.LibraryOnlyGrows and App.PersistedComesFromLibrary, and App.Shell.Run is proved equal to it |
| Text.LowerChar | app.py:25 | an upper-case ASCII letter becomes its lower-case letter; any other character is kept; the result is never upper case |
| Text.Lower | app.py:51 | `lower()` keeps the length and lower-cases each character in place |
| Text.LowerIdempotent | app.py:51-52 | lower-casing an already lower-cased answer changes nothing |
| Text.LowerIsYes | app.py:25 | the read answer counts as "yes" exactly when it is y, e, s in any mix of cases |
| Text.ContainsIff | app.py:57 | the `in` test on strings holds exactly when the term occurs as a contiguous block of the field |
| Text.EmptyOccursEverywhere | app.py:57 | the empty term is contained in every field |
| App.Filter | app.py:41 | a comprehension is never longer than its input |
| App.FilterMembers | app.py:41 | a comprehension keeps exactly the records satisfying its condition |
| App.FilterKeepsOrder | app.py:41 | a comprehension's result is a subsequence of its input (catalog order kept) |
| App.FilterCount | app.py:41 | a kept record keeps all its copies; a dropped record keeps none |
| App.FilterShorter | app.py:41-43 | the comprehension is shorter than its input exactly when some record fails the condition |
| App.FilterAll | app.py:41 | when every record passes, the comprehension returns its input |
| App.FilterAppend | app.py:41 | the comprehension of a concatenation is the concatenation of the comprehensions |
| App.FilterDropsOne | app.py:41 | a comprehension that rejects exactly one record returns the others in order |
| App.WithoutTitle | app.py:41 | `updated_library` holds exactly the records whose title differs from the given one (exact match) |
| App.RemovalProperties | app.py:41-44 | the filtered catalog keeps order and all copies of the others, drops every record with the title, and is shorter exactly when some record had that title |
| App.RemovalOfAbsentTitle | app.py:41-47 | removing a title no record has leaves the catalog unchanged |
| App.RemovalOfUniqueTitle | app.py:41-44 | removing a title exactly one record has cuts out that record and nothing else, one record fewer |
| App.ParseField | app.py:51-54 | the selector is accepted exactly when its lower-cased form is "title" or "author", and then names that field |
| App.ParseFieldCaseInsensitive | app.py:51-52 | the selector's case does not matter, and each field name selects its own field |
| App.Matches | app.py:57 | `results` holds exactly the records whose chosen field, lower-cased, contains the lower-cased term |
| App.SearchProperties | app.py:56-57 | the results keep catalog order and every copy of a matching record, match by substring occurrence, and an empty term matches the whole catalog |
| App.ReadCount | app.py:80 | the read count is at most the total, equals it exactly when every record is read, and is 0 exactly when none is |
| App.ReadCountIsFilter | app.py:80 | the read count is the number of records marked read |
| App.Statistics | app.py:79-80 | the total is the catalog length; the read count is at most the total, equals it exactly when every record is read, and is 0 exactly when none is |
| App.StatisticsPercent | app.py:81 | the percentage lies in 0..100, is 0 for an empty catalog, is 100 exactly when a non-empty catalog is all read, and is 0 exactly when nothing is read |
| App.StatisticsCountsRead | app.py:80 | the reported read count is the number of records marked read |
| App.PercentBounds | app.py:81 | the ratio of a part to its whole, times 100, lies in 0..100 and hits the ends exactly for none and all |
| App.Entries | app.py:60-62 | one entry per record, in order, each carrying that record's line |
| App.DisplayReportMeaning | app.py:67-75 | the listing is the empty notice alone exactly for an empty catalog, otherwise a heading followed by one line per record in order |
| App.SearchReportMeaning | app.py:50-64 | an invalid selector yields only its notice; otherwise the no-match notice with the lower-cased term appears exactly when no record's field contains it, and else one line per match in order |
| App.DisplayBooks | app.py:67-75 | the printing loop produces the listing of the catalog |
| App.SearchLibrary | app.py:50-64 | the printing loop produces the search report, the term being ignored when the selector is rejected |
| App.SearchIgnoresCase | app.py:51-57 | a search depends only on the lower-cased selector and term |
| App.AddStep | app.py:20-35 | add needs five answers; with them it appends one record and saves the whole list; without them nothing changes |
| App.RemoveStep | app.py:39-47 | remove reads one title, never changes `main`'s list, and saves only records it already had |
| App.SearchStep | app.py:50-57 | search never changes the catalog or the file, and stops with nothing printed when the input runs out |
| App.Step | app.py:100-116 | every iteration that goes on consumes at least one input line, so the loop over a finite input ends |
| App.OnlySixQuits | app.py:112-114 | one iteration ends the loop by quitting exactly when the choice read is "6"; any other stop is the input running out, with nothing printed |
| App.QuitEndsWithGoodbye | app.py:112-114 | a run that quits has the goodbye as its last message |
| App.ChooseAdd | app.py:102-103 | "1" appends the record built from the next five lines and saves the catalog |
| App.ChooseRemoveFound | app.py:104-105 | "2" with a title some record has saves the catalog without those records and keeps `main`'s list as it was |
| App.ChooseRemoveMissing | app.py:104-105 | "2" with a title no record has reports it not found and changes nothing |
| App.ChooseSearch | app.py:106-107 | "3" with a rejected selector reports it and reads the next line as a menu choice; with an accepted one it reads the term and prints the report; nothing changes |
| App.ChooseDisplay | app.py:108-109 | "4" prints the listing and changes nothing |
| App.ChooseStatistics | app.py:110-111 | "5" prints the statistics and changes nothing |
| App.ChooseQuitOrUnknown | app.py:112-116 | "6" ends the run whatever follows; any line that is not a menu choice is reported and the loop goes on unchanged |
| App.QuitNeedsSix | app.py:91-114 | a run ends by quitting only if some line read was "6" (any line, menu choice or answer; that only the choice "6" quits is stated by App.ChooseQuitOrUnknown) |
| App.UnknownChoicesKeepRunning | app.py:115-116 | a run of unknown choices prints one notice per line, changes nothing and ends only when the input runs out |
| App.StepFrame | app.py:102-105 | one iteration only appends to `main`'s list, and the file then holds records of that list or of the old file |
| App.LibraryOnlyGrows | app.py:89-116 | over a whole run `main`'s list only grows: the starting list is a prefix of the final one |
| App.PersistedComesFromLibrary | app.py:89-116 | at the end of a run, every record in the file was in the starting file or is in `main`'s list |
| App.RemoveFoundSavesFiltered | app.py:41-45 | removing a present title saves a file with no record of that title and leaves `main`'s list unchanged |
| App.RemoveThenAdd | app.py:34-35 | after a remove, the next add saves `main`'s unfiltered list plus the new record |
| App.RemovedRecordsComeBack | app.py:34-44 | a removed title reappears in the file after the next add |
| App.AddThenList | app.py:102-109 | adding a record to an empty catalog and listing it prints the heading and exactly that record's line |
| App.RejectedSelector | app.py:51-54 | a rejected selector is reported, nothing changes, and the next line is a menu choice, not a search term |
| App.Shell.constructor | app.py:8-12 | the catalog is the file's records, or empty when there is no file, and agrees with the file |
| App.Shell.SaveLibrary | app.py:15-17 | the file is overwritten with exactly the given records |
| App.Shell.AddBook | app.py:20-35 | the record is appended at the end, its read flag is the "yes" test, and the file then holds the whole list |
| App.Shell.RemoveBook | app.py:39-47 | `main`'s list is unchanged; the result is true exactly when some record has the title, and then the file holds the list without those records; otherwise the file is untouched |
| App.Shell.Run | app.py:88-116 | the loop's final state, transcript and ending are those of `Session` on the same input |

## Left out

- File I/O and JSON. The file is the field `persisted`. A missing file gives an empty catalog, the same as a file holding an empty list. A malformed file, which the program does not catch, is not modelled.
- Records are typed, so the model has no malformed records. In the program, a record missing a key raises `KeyError`. A non-string title or author makes `.lower()` raise `AttributeError` in a search (`app.py:57`). A non-boolean `read` value is counted by its truth value (`app.py:61`, `app.py:74`, `app.py:80`). The model has none of these cases.
- Prompts, the menu text and the decorated `print` output are not modelled. Each message is a `Message` value that carries the data it prints.
- Console input is a sequence of lines passed in. When it runs out, the program raises `EOFError`, whether at the menu prompt (`app.py:100`) or in the middle of an operation. The model ends the run with `InputExhausted` instead. The catalog is left as it was before that operation. `KeyboardInterrupt` is not modelled.
- Text.Lower: lower-cases only ASCII letters, because Python's Unicode case mapping is not modelled.
- App.StatisticsPercent: the percentage is an exact `real`, not a floating-point number, and the two-decimal rounding of the printout is left out.
