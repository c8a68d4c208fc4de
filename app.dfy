/** The personal library catalog: book records, the five menu operations over
    the in-memory catalog, the backing file they save to, and the menu loop
    that dispatches to them. */
module App {
  import opened Text

  datatype Option<T> = None | Some(value: T)

  /** One book record; the backing file holds a list of these. */
  datatype Book = Book(title: string, author: string, year: string, genre: string, read: bool)

  /** The record `add_book` builds from its five answers: the read status is
      true only when the last answer lower-cases to "yes". */
  function NewBook(title: string, author: string, year: string, genre: string, readAnswer: string): Book
  {
    Book(title, author, year, genre, Lower(readAnswer) == "yes")
  }

  // ---------------------------------------------------------------------------
  // List comprehensions
  // ---------------------------------------------------------------------------

  /** `[b for b in s if keep(b)]`. */
  function Filter(s: seq<Book>, keep: Book -> bool): (r: seq<Book>)
    ensures |r| <= |s|
  {
    if s == [] then []
    else if keep(s[0]) then [s[0]] + Filter(s[1..], keep)
    else Filter(s[1..], keep)
  }

  /** A comprehension keeps exactly the records that satisfy its condition. */
  lemma {:induction false} FilterMembers(s: seq<Book>, keep: Book -> bool)
    ensures forall b :: b in Filter(s, keep) <==> b in s && keep(b)
    decreases |s|
  {
    if s != [] {
      FilterMembers(s[1..], keep);
      assert s == [s[0]] + s[1..];
    }
  }

  /** `r` is `s` with some elements deleted and the rest kept in their order. */
  ghost predicate IsSubsequence(r: seq<Book>, s: seq<Book>)
    decreases |s|
  {
    if r == [] then true
    else if s == [] then false
    else if r[0] == s[0] then IsSubsequence(r[1..], s[1..])
    else IsSubsequence(r, s[1..])
  }

  /** A comprehension keeps the catalog order. */
  lemma {:induction false} FilterKeepsOrder(s: seq<Book>, keep: Book -> bool)
    ensures IsSubsequence(Filter(s, keep), s)
    decreases |s|
  {
    if s != [] {
      FilterKeepsOrder(s[1..], keep);
      var tail := Filter(s[1..], keep);
      if keep(s[0]) {
        assert Filter(s, keep)[1..] == tail;
      } else if tail != [] {
        FilterMembers(s[1..], keep);
        assert tail[0] in tail;
      }
    }
  }

  /** A comprehension keeps every copy of a kept record and no copy of a dropped one. */
  lemma {:induction false} FilterCount(s: seq<Book>, keep: Book -> bool, b: Book)
    ensures multiset(Filter(s, keep))[b] == if keep(b) then multiset(s)[b] else 0
    decreases |s|
  {
    if s != [] {
      FilterCount(s[1..], keep, b);
      assert s == [s[0]] + s[1..];
    }
  }

  /** A comprehension shortens its input exactly when some record is dropped. */
  lemma {:induction false} FilterShorter(s: seq<Book>, keep: Book -> bool)
    ensures |Filter(s, keep)| < |s| <==> exists i :: 0 <= i < |s| && !keep(s[i])
    decreases |s|
  {
    if s != [] {
      FilterShorter(s[1..], keep);
      if exists i :: 0 <= i < |s[1..]| && !keep(s[1..][i]) {
        var i :| 0 <= i < |s[1..]| && !keep(s[1..][i]);
        assert !keep(s[i + 1]);
      }
      if exists i :: 0 <= i < |s| && !keep(s[i]) {
        var i :| 0 <= i < |s| && !keep(s[i]);
        if i > 0 {
          assert !keep(s[1..][i - 1]);
        }
      }
    }
  }

  /** A comprehension that keeps every record returns its input. */
  lemma {:induction false} FilterAll(s: seq<Book>, keep: Book -> bool)
    requires forall i :: 0 <= i < |s| ==> keep(s[i])
    ensures Filter(s, keep) == s
    decreases |s|
  {
    if s != [] {
      FilterAll(s[1..], keep);
    }
  }

  /** A comprehension over a concatenation is the concatenation of the comprehensions. */
  lemma {:induction false} FilterAppend(a: seq<Book>, b: seq<Book>, keep: Book -> bool)
    ensures Filter(a + b, keep) == Filter(a, keep) + Filter(b, keep)
    decreases |a|
  {
    if a == [] {
      assert a + b == b;
    } else {
      var ab := a + b;
      assert ab[0] == a[0] && ab[1..] == a[1..] + b;
      var head := if keep(a[0]) then [a[0]] else [];
      calc {
        Filter(ab, keep);
        head + Filter(a[1..] + b, keep);
        { FilterAppend(a[1..], b, keep); }
        head + (Filter(a[1..], keep) + Filter(b, keep));
        (head + Filter(a[1..], keep)) + Filter(b, keep);
        Filter(a, keep) + Filter(b, keep);
      }
    }
  }

  /** A comprehension that drops exactly one record returns the others, in order. */
  lemma FilterDropsOne(before: seq<Book>, x: Book, after: seq<Book>, keep: Book -> bool)
    requires forall i :: 0 <= i < |before| ==> keep(before[i])
    requires forall i :: 0 <= i < |after| ==> keep(after[i])
    requires !keep(x)
    ensures Filter(before + [x] + after, keep) == before + after
  {
    assert Filter(before, keep) == before by {
      FilterAll(before, keep);
    }
    assert Filter(after, keep) == after by {
      FilterAll(after, keep);
    }
    assert Filter([x], keep) == [] by {
      assert [x] != [] && [x][0] == x && [x][1..] == [];
      assert Filter([x][1..], keep) == [];
    }
    calc {
      Filter(before + [x] + after, keep);
      { FilterAppend(before + [x], after, keep); }
      Filter(before + [x], keep) + Filter(after, keep);
      { FilterAppend(before, [x], keep); }
      before + [] + after;
      { assert before + [] == before; }
      before + after;
    }
  }

  // ---------------------------------------------------------------------------
  // Remove
  // ---------------------------------------------------------------------------

  /** `updated_library` of `remove_book`: the records whose title differs from
      `title` (exact, case-sensitive comparison). */
  function WithoutTitle(library: seq<Book>, title: string): (r: seq<Book>)
    ensures forall b :: b in r <==> b in library && b.title != title
  {
    FilterMembers(library, (b: Book) => b.title != title);
    Filter(library, (b: Book) => b.title != title)
  }

  /** The filtered catalog keeps the order and every copy of the other records,
      drops every record with that title, and is shorter exactly when some
      record had that title. */
  lemma RemovalProperties(library: seq<Book>, title: string)
    ensures IsSubsequence(WithoutTitle(library, title), library)
    ensures forall b :: multiset(WithoutTitle(library, title))[b] ==
              if b.title == title then 0 else multiset(library)[b]
    ensures |WithoutTitle(library, title)| < |library| <==>
              exists i :: 0 <= i < |library| && library[i].title == title
  {
    var keep := (b: Book) => b.title != title;
    FilterKeepsOrder(library, keep);
    forall b: Book
      ensures multiset(WithoutTitle(library, title))[b] ==
                if b.title == title then 0 else multiset(library)[b]
    {
      FilterCount(library, keep, b);
    }
    FilterShorter(library, keep);
  }

  /** Removing a title nobody has returns the catalog unchanged. */
  lemma RemovalOfAbsentTitle(library: seq<Book>, title: string)
    requires forall i :: 0 <= i < |library| ==> library[i].title != title
    ensures WithoutTitle(library, title) == library
  {
    FilterAll(library, (b: Book) => b.title != title);
  }

  /** Removing a title exactly one record has deletes that record and keeps
      the others in order, so the saved catalog is one shorter. */
  lemma RemovalOfUniqueTitle(library: seq<Book>, title: string, k: int)
    requires 0 <= k < |library| && library[k].title == title
    requires forall i :: 0 <= i < |library| && i != k ==> library[i].title != title
    ensures WithoutTitle(library, title) == library[..k] + library[k + 1..]
    ensures |WithoutTitle(library, title)| == |library| - 1
  {
    var keep := (b: Book) => b.title != title;
    var before, after := library[..k], library[k + 1..];
    forall i | 0 <= i < |before|
      ensures keep(before[i])
    {
      assert before[i] == library[i];
    }
    forall i | 0 <= i < |after|
      ensures keep(after[i])
    {
      assert after[i] == library[k + 1 + i];
    }
    assert library == before + [library[k]] + after;
    FilterDropsOne(before, library[k], after, keep);
  }

  // ---------------------------------------------------------------------------
  // Search
  // ---------------------------------------------------------------------------

  /** The two record fields a search may look at. */
  datatype Field = Title | Author

  /** The key of the field in a record, and the selector answer naming it. */
  function FieldName(f: Field): string
  {
    match f
    case Title => "title"
    case Author => "author"
  }

  function FieldValue(b: Book, f: Field): string
  {
    match f
    case Title => b.title
    case Author => b.author
  }

  /** The selector check of `search_library`: the answer, lower-cased, must be
      one of the two field names. */
  function ParseField(searchBy: string): (f: Option<Field>)
    ensures f.Some? ==> Lower(searchBy) == FieldName(f.value)
    ensures f.None? ==> forall g :: Lower(searchBy) != FieldName(g)
  {
    var key := Lower(searchBy);
    if key == "title" then Some(Title)
    else if key == "author" then Some(Author)
    else None
  }

  /** The selector is case-insensitive, and each field name selects its field. */
  lemma ParseFieldCaseInsensitive(searchBy: string, f: Field)
    ensures ParseField(Lower(searchBy)) == ParseField(searchBy)
    ensures ParseField(FieldName(f)) == Some(f)
  {
    LowerIdempotent(searchBy);
    LowerIdempotent(FieldName(f));
  }

  /** `results` of `search_library`, for a search term already lower-cased to
      `needle`: the records whose chosen field, lower-cased, contains it. */
  function Matches(library: seq<Book>, f: Field, needle: string): (r: seq<Book>)
    ensures forall b :: b in r <==> b in library && Contains(Lower(FieldValue(b, f)), needle)
  {
    FilterMembers(library, (b: Book) => Contains(Lower(FieldValue(b, f)), needle));
    Filter(library, (b: Book) => Contains(Lower(FieldValue(b, f)), needle))
  }

  /** The search results are the catalog, in order, restricted to the records
      whose lower-cased field has the needle as a substring (every copy of
      each); the empty needle matches every record. */
  lemma SearchProperties(library: seq<Book>, f: Field, needle: string)
    ensures IsSubsequence(Matches(library, f, needle), library)
    ensures forall b :: multiset(Matches(library, f, needle))[b] ==
              if OccursIn(needle, Lower(FieldValue(b, f))) then multiset(library)[b] else 0
    ensures needle == "" ==> Matches(library, f, needle) == library
  {
    var keep := (b: Book) => Contains(Lower(FieldValue(b, f)), needle);
    FilterKeepsOrder(library, keep);
    forall b: Book
      ensures multiset(Matches(library, f, needle))[b] ==
                if OccursIn(needle, Lower(FieldValue(b, f))) then multiset(library)[b] else 0
    {
      FilterCount(library, keep, b);
      ContainsIff(Lower(FieldValue(b, f)), needle);
    }
    if needle == "" {
      forall i | 0 <= i < |library|
        ensures keep(library[i])
      {
        EmptyOccursEverywhere(Lower(FieldValue(library[i], f)));
      }
      FilterAll(library, keep);
    }
  }

  // ---------------------------------------------------------------------------
  // Statistics
  // ---------------------------------------------------------------------------

  /** `sum(1 for book in library if book["read"])`. */
  function ReadCount(library: seq<Book>): (n: nat)
    ensures n <= |library|
    ensures n == |library| <==> forall i :: 0 <= i < |library| ==> library[i].read
    ensures n == 0 <==> forall i :: 0 <= i < |library| ==> !library[i].read
  {
    if library == [] then 0
    else
      assert forall i :: 0 < i < |library| ==> library[i] == library[1..][i - 1];
      (if library[0].read then 1 else 0) + ReadCount(library[1..])
  }

  /** The figures `display_statistics` prints. */
  datatype Stats = Stats(total: nat, readBooks: nat)
  {
    /** `perc_read`: the share read as a percentage, 0 for an empty catalog. */
    function Percent(): real
    {
      if total > 0 then (readBooks as real / total as real) * 100.0 else 0.0
    }
  }

  /** What `display_statistics` reports: the number of records and the number
      of them marked read. */
  function Statistics(library: seq<Book>): (s: Stats)
    ensures s.total == |library| && s.readBooks <= s.total
    ensures s.readBooks == s.total <==> forall i :: 0 <= i < |library| ==> library[i].read
    ensures s.readBooks == 0 <==> forall i :: 0 <= i < |library| ==> !library[i].read
  {
    Stats(|library|, ReadCount(library))
  }

  /** The percentage read lies between 0 and 100, is 0 for an empty catalog,
      is 100 exactly when a non-empty catalog is all read, and is 0 exactly
      when nothing is read. */
  lemma StatisticsPercent(library: seq<Book>)
    ensures 0.0 <= Statistics(library).Percent() <= 100.0
    ensures library == [] ==> Statistics(library).Percent() == 0.0
    ensures Statistics(library).Percent() == 100.0 <==>
              library != [] && forall i :: 0 <= i < |library| ==> library[i].read
    ensures Statistics(library).Percent() == 0.0 <==> forall i :: 0 <= i < |library| ==> !library[i].read
  {
    var s := Statistics(library);
    PercentBounds(s.readBooks, s.total);
  }

  /** The count of read records is the length of the comprehension keeping them. */
  lemma {:induction false} ReadCountIsFilter(library: seq<Book>)
    ensures ReadCount(library) == |Filter(library, (b: Book) => b.read)|
    decreases |library|
  {
    if library != [] {
      ReadCountIsFilter(library[1..]);
    }
  }

  /** The reported read count is the number of records marked read. */
  lemma StatisticsCountsRead(library: seq<Book>)
    ensures Statistics(library).readBooks == |Filter(library, (b: Book) => b.read)|
  {
    ReadCountIsFilter(library);
  }

  lemma PercentBounds(part: nat, whole: nat)
    requires part <= whole
    ensures whole > 0 ==> 0.0 <= (part as real / whole as real) * 100.0 <= 100.0
    ensures whole > 0 ==> ((part as real / whole as real) * 100.0 == 100.0 <==> part == whole)
    ensures whole > 0 ==> ((part as real / whole as real) * 100.0 == 0.0 <==> part == 0)
  {
    if whole > 0 {
      var q := part as real / whole as real;
      assert q * whole as real == part as real;
      assert 0.0 <= q <= 1.0;
    }
  }

  // ---------------------------------------------------------------------------
  // Console output
  // ---------------------------------------------------------------------------

  /** The text printed for one record in a listing or a search result. */
  function Line(b: Book): string
  {
    b.title + " by " + b.author + " (" + b.year + ") - " + (if b.read then "read" else "not read")
  }

  /** What the program prints, one value per message (decorations left out). */
  datatype Message =
    | Added(title: string)
    | Removed(title: string)
    | NotFound(title: string)
    | InvalidSearchType
    | NoMatches(term: string)
    | CollectionHeading
    | LibraryEmpty
    | Entry(line: string)
    | Report(stats: Stats)
    | Goodbye
    | InvalidChoice

  /** One entry per record, in the order given. */
  function Entries(books: seq<Book>): (r: seq<Message>)
    ensures |r| == |books|
    ensures forall i :: 0 <= i < |books| ==> r[i] == Entry(Line(books[i]))
  {
    if books == [] then [] else [Entry(Line(books[0]))] + Entries(books[1..])
  }

  /** The output of `display_books` for a given catalog. */
  function DisplayReport(library: seq<Book>): seq<Message>
  {
    if library == [] then [LibraryEmpty] else [CollectionHeading] + Entries(library)
  }

  /** The output of `search_library` for a given catalog and the two answers. */
  function SearchReport(library: seq<Book>, searchBy: string, term: string): seq<Message>
  {
    match ParseField(searchBy)
    case None => [InvalidSearchType]
    case Some(f) =>
      var results := Matches(library, f, Lower(term));
      if results == [] then [NoMatches(Lower(term))] else Entries(results)
  }

  /** The listing is the empty-catalog notice alone, or a heading followed by
      one line per record in catalog order. */
  lemma DisplayReportMeaning(library: seq<Book>)
    ensures library == [] <==> DisplayReport(library) == [LibraryEmpty]
    ensures library != [] ==>
              |DisplayReport(library)| == |library| + 1 && DisplayReport(library)[0] == CollectionHeading &&
              forall i :: 0 <= i < |library| ==> DisplayReport(library)[i + 1] == Entry(Line(library[i]))
  {
    if library != [] {
      assert DisplayReport(library)[0] != LibraryEmpty;
    }
  }

  /** An invalid selector yields only its notice; otherwise the report is a
      no-match notice naming the lower-cased term exactly when no record's
      chosen field contains it, and else one line per matching record, in
      catalog order. */
  lemma SearchReportMeaning(library: seq<Book>, searchBy: string, term: string)
    ensures ParseField(searchBy).None? ==> SearchReport(library, searchBy, term) == [InvalidSearchType]
    ensures ParseField(searchBy).Some? ==>
              var f := ParseField(searchBy).value;
              var results := Matches(library, f, Lower(term));
              (SearchReport(library, searchBy, term) == [NoMatches(Lower(term))] <==>
                 forall b :: b in library ==> !OccursIn(Lower(term), Lower(FieldValue(b, f)))) &&
              (results != [] ==>
                 |SearchReport(library, searchBy, term)| == |results| &&
                 forall i :: 0 <= i < |results| ==> SearchReport(library, searchBy, term)[i] == Entry(Line(results[i])))
  {
    match ParseField(searchBy)
    case None =>
    case Some(f) =>
      var needle := Lower(term);
      var results := Matches(library, f, needle);
      forall b | b in library
        ensures b in results <==> OccursIn(needle, Lower(FieldValue(b, f)))
      {
        ContainsIff(Lower(FieldValue(b, f)), needle);
      }
      if results != [] {
        assert results[0] in results;
      }
  }

  /** `display_books`: a notice for an empty catalog, otherwise a heading and
      one line per record, in catalog order. */
  method DisplayBooks(library: seq<Book>) returns (out: seq<Message>)
    ensures out == DisplayReport(library)
  {
    if library == [] {
      return [LibraryEmpty];
    }
    out := [CollectionHeading];
    for i := 0 to |library|
      invariant |out| == i + 1 && out[0] == CollectionHeading
      invariant forall j :: 0 <= j < i ==> out[j + 1] == Entry(Line(library[j]))
    {
      out := out + [Entry(Line(library[i]))];
    }
    assert out == [CollectionHeading] + Entries(library);
  }

  /** `search_library`: an invalid selector is reported without searching and
      the term is ignored; otherwise the matching records are listed in
      catalog order, or a no-match notice naming the lower-cased term. */
  method SearchLibrary(library: seq<Book>, searchBy: string, term: string) returns (out: seq<Message>)
    ensures out == SearchReport(library, searchBy, term)
  {
    var field := ParseField(searchBy);
    if field.None? {
      return [InvalidSearchType];
    }
    var needle := Lower(term);
    var results := Matches(library, field.value, needle);
    if results == [] {
      return [NoMatches(needle)];
    }
    out := [];
    for i := 0 to |results|
      invariant |out| == i
      invariant forall j :: 0 <= j < i ==> out[j] == Entry(Line(results[j]))
    {
      out := out + [Entry(Line(results[i]))];
    }
    assert out == Entries(results);
  }

  // ---------------------------------------------------------------------------
  // The menu loop, as a function of the lines read
  // ---------------------------------------------------------------------------

  /** The in-memory catalog of `main` and the records the backing file holds. */
  datatype Store = Store(library: seq<Book>, persisted: seq<Book>)

  /** Quit: menu choice "6". InputExhausted: a prompt found no line left. */
  datatype Ending = Quit | InputExhausted

  datatype StepResult =
    | Next(store: Store, out: seq<Message>, rest: seq<string>)
    | Stop(out: seq<Message>, ending: Ending)

  datatype Outcome = Outcome(store: Store, transcript: seq<Message>, ending: Ending)

  /** `add_book` reading its five answers from `args`. */
  function AddStep(st: Store, args: seq<string>): (r: StepResult)
    ensures r.Stop? <==> |args| < 5
    ensures r.Stop? ==> r == Stop([], InputExhausted)
    ensures r.Next? ==> |r.rest| < |args| && st.library <= r.store.library
    ensures r.Next? ==> r.store.persisted == r.store.library && |r.store.library| == |st.library| + 1
  {
    if |args| < 5 then Stop([], InputExhausted)
    else
      var library := st.library + [NewBook(args[0], args[1], args[2], args[3], args[4])];
      Next(Store(library, library), [Added(args[0])], args[5..])
  }

  /** `remove_book` reading its title from `args`. */
  function RemoveStep(st: Store, args: seq<string>): (r: StepResult)
    ensures r.Stop? <==> args == []
    ensures r.Stop? ==> r == Stop([], InputExhausted)
    ensures r.Next? ==> |r.rest| < |args| && r.store.library == st.library
    ensures r.Next? ==> forall b :: b in r.store.persisted ==> b in st.library || b in st.persisted
  {
    if |args| < 1 then Stop([], InputExhausted)
    else
      var updated := WithoutTitle(st.library, args[0]);
      if |updated| < |st.library| then Next(Store(st.library, updated), [Removed(args[0])], args[1..])
      else Next(st, [NotFound(args[0])], args[1..])
  }

  /** `search_library` reading its selector, and its term once the selector is
      accepted, from `args`. */
  function SearchStep(st: Store, args: seq<string>): (r: StepResult)
    ensures r.Next? ==> |r.rest| < |args| && r.store == st
    ensures r.Stop? ==> r == Stop([], InputExhausted)
  {
    if |args| < 1 then Stop([], InputExhausted)
    else if ParseField(args[0]).None? then Next(st, [InvalidSearchType], args[1..])
    else if |args| < 2 then Stop([], InputExhausted)
    else Next(st, SearchReport(st.library, args[0], args[1]), args[2..])
  }

  /** One iteration of the menu loop: read a choice, run the chosen operation
      on the following lines, and return the new store, what was printed and
      the lines not yet read. */
  function Step(st: Store, input: seq<string>): (r: StepResult)
    requires input != []
    ensures r.Next? ==> |r.rest| < |input|
  {
    var choice, args := input[0], input[1..];
    if choice == "1" then AddStep(st, args)
    else if choice == "2" then RemoveStep(st, args)
    else if choice == "3" then SearchStep(st, args)
    else if choice == "4" then Next(st, DisplayReport(st.library), args)
    else if choice == "5" then Next(st, [Report(Statistics(st.library))], args)
    else if choice == "6" then Stop([Goodbye], Quit)
    else Next(st, [InvalidChoice], args)
  }

  /** Only the choice "6" ends the loop by quitting; the other stops are the
      input running out, with nothing printed. */
  lemma OnlySixQuits(st: Store, input: seq<string>)
    requires input != []
    ensures (Step(st, input).Stop? && Step(st, input).ending == Quit) <==> input[0] == "6"
    ensures Step(st, input).Stop? && input[0] != "6" ==> Step(st, input) == Stop([], InputExhausted)
  {
  }

  function After(out: seq<Message>, o: Outcome): Outcome
  {
    Outcome(o.store, out + o.transcript, o.ending)
  }

  lemma AfterAfter(first: seq<Message>, second: seq<Message>, o: Outcome)
    ensures After(first, After(second, o)) == After(first + second, o)
  {
    assert first + (second + o.transcript) == (first + second) + o.transcript;
  }

  /** The whole run of the menu loop on the given lines of input. */
  function Session(st: Store, input: seq<string>): Outcome
    decreases |input|
  {
    if input == [] then Outcome(st, [], InputExhausted)
    else
      match Step(st, input)
      case Stop(out, ending) => Outcome(st, out, ending)
      case Next(st', out, rest) => After(out, Session(st', rest))
  }

  // ---------------------------------------------------------------------------
  // Properties of the menu loop
  // ---------------------------------------------------------------------------

  /** Choice "1": the five following lines are the answers of `add_book`; the
      record is appended and the whole catalog saved. */
  lemma ChooseAdd(st: Store, answers: seq<string>, rest: seq<string>)
    requires |answers| == 5
    ensures var library := st.library + [NewBook(answers[0], answers[1], answers[2], answers[3], answers[4])];
            Session(st, ["1"] + answers + rest) == After([Added(answers[0])], Session(Store(library, library), rest))
  {
    var input := ["1"] + answers + rest;
    assert input[1..] == answers + rest && (answers + rest)[5..] == rest;
  }

  /** Choice "2" with a title some record has: the file gets the catalog
      without those records and `main`'s catalog stays as it was. */
  lemma ChooseRemoveFound(st: Store, t: string, rest: seq<string>)
    requires exists i :: 0 <= i < |st.library| && st.library[i].title == t
    ensures Session(st, ["2", t] + rest) ==
              After([Removed(t)], Session(Store(st.library, WithoutTitle(st.library, t)), rest))
  {
    var input := ["2", t] + rest;
    assert input[1..] == [t] + rest && ([t] + rest)[1..] == rest;
    RemovalProperties(st.library, t);
  }

  /** Choice "2" with a title no record has: "not found" and nothing changes. */
  lemma ChooseRemoveMissing(st: Store, t: string, rest: seq<string>)
    requires forall i :: 0 <= i < |st.library| ==> st.library[i].title != t
    ensures Session(st, ["2", t] + rest) == After([NotFound(t)], Session(st, rest))
  {
    var input := ["2", t] + rest;
    assert input[1..] == [t] + rest && ([t] + rest)[1..] == rest;
    RemovalProperties(st.library, t);
  }

  /** Choice "3": a rejected selector is reported and the next line is read as
      a menu choice again; an accepted one reads the term from the next line
      and prints the search report; nothing changes either way. */
  lemma ChooseSearch(st: Store, selector: string, rest: seq<string>)
    ensures ParseField(selector).None? ==>
              Session(st, ["3", selector] + rest) == After([InvalidSearchType], Session(st, rest))
    ensures ParseField(selector).Some? && rest != [] ==>
              Session(st, ["3", selector] + rest) ==
                After(SearchReport(st.library, selector, rest[0]), Session(st, rest[1..]))
    ensures ParseField(selector).Some? && rest == [] ==>
              Session(st, ["3", selector]) == Outcome(st, [], InputExhausted)
  {
    var input := ["3", selector] + rest;
    assert input[1..] == [selector] + rest && ([selector] + rest)[1..] == rest;
    if rest != [] {
      assert ([selector] + rest)[2..] == rest[1..];
    }
  }

  /** Choice "4" prints the listing and changes nothing. */
  lemma ChooseDisplay(st: Store, rest: seq<string>)
    ensures Session(st, ["4"] + rest) == After(DisplayReport(st.library), Session(st, rest))
  {
    assert (["4"] + rest)[1..] == rest;
  }

  /** Choice "5" prints the statistics and changes nothing. */
  lemma ChooseStatistics(st: Store, rest: seq<string>)
    ensures Session(st, ["5"] + rest) == After([Report(Statistics(st.library))], Session(st, rest))
  {
    assert (["5"] + rest)[1..] == rest;
  }

  /** Choice "6" ends the run at once, whatever lines follow; any line that is
      not one of the six choices is reported and the loop goes on. */
  lemma ChooseQuitOrUnknown(st: Store, choice: string, rest: seq<string>)
    ensures Session(st, ["6"] + rest) == Outcome(st, [Goodbye], Quit)
    ensures choice !in {"1", "2", "3", "4", "5", "6"} ==>
              Session(st, [choice] + rest) == After([InvalidChoice], Session(st, rest))
  {
    assert ([choice] + rest)[1..] == rest;
  }

  /** A run ends by quitting only if some line read was "6". */
  lemma {:induction false} QuitNeedsSix(st: Store, input: seq<string>)
    ensures Session(st, input).ending == Quit ==> "6" in input
    decreases |input|
  {
    if input != [] {
      match Step(st, input)
      case Stop(_, _) =>
      case Next(st', _, rest) =>
        QuitNeedsSix(st', rest);
        assert rest == input[|input| - |rest|..];
        if "6" in rest {
          var k :| 0 <= k < |rest| && rest[k] == "6";
          assert input[|input| - |rest| + k] == "6";
        }
    }
  }

  /** A run that quits has printed the goodbye as its last message. */
  lemma {:induction false} QuitEndsWithGoodbye(st: Store, input: seq<string>)
    ensures var o := Session(st, input);
            o.ending == Quit ==> |o.transcript| > 0 && o.transcript[|o.transcript| - 1] == Goodbye
    decreases |input|
  {
    if input != [] {
      match Step(st, input)
      case Stop(_, _) =>
      case Next(st', out, rest) =>
        QuitEndsWithGoodbye(st', rest);
        var t := Session(st', rest).transcript;
        assert Session(st, input).transcript == out + t;
    }
  }

  /** A run of unknown choices changes nothing, prints one invalid-choice
      notice per line and only stops when the input runs out. */
  lemma {:induction false} UnknownChoicesKeepRunning(st: Store, input: seq<string>)
    requires forall k :: 0 <= k < |input| ==> input[k] !in {"1", "2", "3", "4", "5", "6"}
    ensures Session(st, input).store == st
    ensures Session(st, input).ending == InputExhausted
    ensures |Session(st, input).transcript| == |input|
    ensures forall k :: 0 <= k < |input| ==> Session(st, input).transcript[k] == InvalidChoice
    decreases |input|
  {
    if input != [] {
      assert input[0] !in {"1", "2", "3", "4", "5", "6"};
      UnknownChoicesKeepRunning(st, input[1..]);
      assert forall k :: 0 < k < |input| ==> Session(st, input).transcript[k] == Session(st, input[1..]).transcript[k - 1];
    }
  }

  /** One step keeps the catalog as a prefix of the new one, and the new file
      holds only records of the new catalog or of the old file. */
  lemma StepFrame(st: Store, input: seq<string>)
    requires input != [] && Step(st, input).Next?
    ensures st.library <= Step(st, input).store.library
    ensures forall b :: b in Step(st, input).store.persisted ==>
              b in Step(st, input).store.library || b in st.persisted
  {
  }

  /** `main`'s in-memory catalog never loses a record: every run ends with the
      starting catalog as a prefix of the final one. */
  lemma {:induction false} LibraryOnlyGrows(st: Store, input: seq<string>)
    ensures st.library <= Session(st, input).store.library
    decreases |input|
  {
    if input != [] {
      match Step(st, input)
      case Stop(_, _) =>
      case Next(st', _, rest) =>
        StepFrame(st, input);
        LibraryOnlyGrows(st', rest);
    }
  }

  /** Whatever the file holds at the end of a run was in the starting file or
      is still in `main`'s catalog. */
  lemma {:induction false} PersistedComesFromLibrary(st: Store, input: seq<string>)
    ensures forall b :: b in Session(st, input).store.persisted ==>
              b in Session(st, input).store.library || b in st.persisted
    decreases |input|
  {
    if input != [] {
      match Step(st, input)
      case Stop(_, _) =>
      case Next(st', _, rest) =>
        StepFrame(st, input);
        PersistedComesFromLibrary(st', rest);
        LibraryOnlyGrows(st', rest);
        var final := Session(st', rest).store.library;
        forall b | b in st'.library
          ensures b in final
        {
          var k :| 0 <= k < |st'.library| && st'.library[k] == b;
          assert final[k] == b;
        }
    }
  }

  /** Choosing "2" with a title some record has saves the catalog without any
      record of that title, while `main`'s catalog keeps them. */
  lemma RemoveFoundSavesFiltered(st: Store, t: string)
    requires exists i :: 0 <= i < |st.library| && st.library[i].title == t
    ensures var removed := Session(st, ["2", t]);
            removed == Outcome(Store(st.library, WithoutTitle(st.library, t)), [Removed(t)], InputExhausted) &&
            forall b :: b in removed.store.persisted ==> b.title != t
  {
    ChooseRemoveFound(st, t, []);
    assert ["2", t] + [] == ["2", t];
  }

  /** Removing a title and then adding a record: the add saves `main`'s
      catalog, which never lost the removed records. */
  lemma RemoveThenAdd(st: Store, t: string, answers: seq<string>)
    requires exists i :: 0 <= i < |st.library| && st.library[i].title == t
    requires |answers| == 5
    ensures var library := st.library + [NewBook(answers[0], answers[1], answers[2], answers[3], answers[4])];
            Session(st, ["2", t, "1"] + answers) ==
              Outcome(Store(library, library), [Removed(t), Added(answers[0])], InputExhausted)
  {
    var st1 := Store(st.library, WithoutTitle(st.library, t));
    var library := st.library + [NewBook(answers[0], answers[1], answers[2], answers[3], answers[4])];
    var added := Session(st1, ["1"] + answers);
    assert added == After([Added(answers[0])], Outcome(Store(library, library), [], InputExhausted)) by {
      ChooseAdd(st1, answers, []);
      assert ["1"] + answers + [] == ["1"] + answers;
    }
    assert Session(st, ["2", t, "1"] + answers) == After([Removed(t)], added) by {
      ChooseRemoveFound(st, t, ["1"] + answers);
      assert ["2", t] + (["1"] + answers) == ["2", t, "1"] + answers;
    }
  }

  /** `remove_book` saves the filtered catalog but leaves `main`'s list as it
      was, so the next `add_book` writes the removed records back to the file. */
  lemma RemovedRecordsComeBack(st: Store, t: string, answers: seq<string>)
    requires exists i :: 0 <= i < |st.library| && st.library[i].title == t
    requires |answers| == 5
    ensures exists b :: b in Session(st, ["2", t, "1"] + answers).store.persisted && b.title == t
  {
    RemoveThenAdd(st, t, answers);
    var library := st.library + [NewBook(answers[0], answers[1], answers[2], answers[3], answers[4])];
    var i :| 0 <= i < |st.library| && st.library[i].title == t;
    assert library[i] in library && library[i].title == t;
  }

  /** Adding a record to an empty catalog and listing it prints the heading
      and exactly that record's line; quitting then ends the run. */
  lemma AddThenList(answers: seq<string>)
    requires |answers| == 5
    ensures var book := NewBook(answers[0], answers[1], answers[2], answers[3], answers[4]);
            Session(Store([], []), ["1"] + answers + ["4", "6"]) ==
              Outcome(Store([book], [book]), [Added(answers[0]), CollectionHeading, Entry(Line(book)), Goodbye], Quit)
  {
    var book := NewBook(answers[0], answers[1], answers[2], answers[3], answers[4]);
    var st := Store([book], [book]);
    var listed := Session(st, ["4", "6"]);
    assert listed == Outcome(st, [CollectionHeading, Entry(Line(book)), Goodbye], Quit) by {
      ChooseDisplay(st, ["6"]);
      ChooseQuitOrUnknown(st, "6", []);
      assert DisplayReport([book]) == [CollectionHeading, Entry(Line(book))];
    }
    assert Session(Store([], []), ["1"] + answers + ["4", "6"]) == After([Added(answers[0])], listed) by {
      ChooseAdd(Store([], []), answers, ["4", "6"]);
      assert [] + [book] == [book];
    }
  }

  /** A rejected selector is reported, nothing changes, and the line after it
      is read as a menu choice rather than as a search term. */
  lemma RejectedSelector(st: Store, selector: string, line: string)
    requires ParseField(selector).None?
    requires line !in {"1", "2", "3", "4", "5", "6"}
    ensures Session(st, ["3", selector]) == Outcome(st, [InvalidSearchType], InputExhausted)
    ensures Session(st, ["3", selector, line]) == Outcome(st, [InvalidSearchType, InvalidChoice], InputExhausted)
  {
    ChooseSearch(st, selector, []);
    assert ["3", selector] + [] == ["3", selector];
    ChooseSearch(st, selector, [line]);
    ChooseQuitOrUnknown(st, line, []);
    assert [line] + [] == [line];
  }

  /** Only the lower-cased answers matter to a search: the selector and the
      term may be typed in any case. */
  lemma SearchIgnoresCase(library: seq<Book>, searchBy: string, term: string)
    ensures SearchReport(library, searchBy, term) == SearchReport(library, Lower(searchBy), Lower(term))
  {
    ParseFieldCaseInsensitive(searchBy, Title);
    assert ParseField(Lower(searchBy)) == ParseField(searchBy);
    LowerIdempotent(term);
    assert Lower(Lower(term)) == Lower(term);
  }

  // ---------------------------------------------------------------------------
  // The program state
  // ---------------------------------------------------------------------------

  /** `main`'s catalog list together with the backing file's contents. */
  class Shell {
    var library: seq<Book>
    var persisted: seq<Book>

    function State(): Store
      reads this
    {
      Store(library, persisted)
    }

    /** `load_library`: the file's records, or an empty catalog when there is no file. */
    constructor (file: Option<seq<Book>>)
      ensures library == (if file.Some? then file.value else [])
      ensures persisted == library
    {
      library := if file.Some? then file.value else [];
      persisted := library;
    }

    /** `save_library`: the file is overwritten with the given records. */
    method SaveLibrary(books: seq<Book>)
      modifies this`persisted
      ensures persisted == books
    {
      persisted := books;
    }

    /** `add_book`: appends one record and saves the whole catalog. */
    method AddBook(title: string, author: string, year: string, genre: string, readAnswer: string)
      modifies this
      ensures library == old(library) + [Book(title, author, year, genre, Lower(readAnswer) == "yes")]
      ensures persisted == library
    {
      library := library + [NewBook(title, author, year, genre, readAnswer)];
      SaveLibrary(library);
    }

    /** `remove_book`: saves the catalog without the records titled `title`
        when there were any; the in-memory catalog is left as it was. */
    method RemoveBook(title: string) returns (removed: bool)
      modifies this`persisted
      ensures library == old(library)
      ensures removed <==> exists i :: 0 <= i < |library| && library[i].title == title
      ensures removed ==> persisted == WithoutTitle(library, title)
      ensures removed ==> forall b :: b in persisted ==> b.title != title
      ensures !removed ==> persisted == old(persisted)
    {
      var updated := WithoutTitle(library, title);
      RemovalProperties(library, title);
      removed := |updated| < |library|;
      if removed {
        SaveLibrary(updated);
      }
    }

    /** `main`'s loop, reading its answers from `input`, one line per prompt. */
    method Run(input: seq<string>) returns (transcript: seq<Message>, ending: Ending)
      modifies this
      ensures Outcome(State(), transcript, ending) == Session(old(State()), input)
    {
      transcript := [];
      var lines := input;
      while true
        invariant Session(old(State()), input) == After(transcript, Session(State(), lines))
        decreases |lines|
      {
        if lines == [] {
          ending := InputExhausted;
          break;
        }
        ghost var st, before := State(), transcript;
        var choice, args := lines[0], lines[1..];
        var out: seq<Message>, rest: seq<string>;
        if choice == "1" {
          if |args| < 5 {
            ending := InputExhausted;
            break;
          }
          AddBook(args[0], args[1], args[2], args[3], args[4]);
          out, rest := [Added(args[0])], args[5..];
        } else if choice == "2" {
          if |args| < 1 {
            ending := InputExhausted;
            break;
          }
          RemovalProperties(library, args[0]);
          var removed := RemoveBook(args[0]);
          out, rest := [if removed then Removed(args[0]) else NotFound(args[0])], args[1..];
        } else if choice == "3" {
          if |args| < 1 {
            ending := InputExhausted;
            break;
          }
          // The search term is only asked for once the selector is accepted.
          var term, used := "", 1;
          if ParseField(args[0]).Some? {
            if |args| < 2 {
              ending := InputExhausted;
              break;
            }
            term, used := args[1], 2;
          }
          out := SearchLibrary(library, args[0], term);
          rest := args[used..];
        } else if choice == "4" {
          out := DisplayBooks(library);
          rest := args;
        } else if choice == "5" {
          out, rest := [Report(Statistics(library))], args;
        } else if choice == "6" {
          transcript := transcript + [Goodbye];
          ending := Quit;
          break;
        } else {
          out, rest := [InvalidChoice], args;
        }
        assert Step(st, lines) == Next(State(), out, rest);
        transcript := transcript + out;
        AfterAfter(before, out, Session(State(), rest));
        lines := rest;
      }
    }
  }
}
