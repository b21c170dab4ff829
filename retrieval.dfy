/**
 * `retrieve_semantic_recs`: the query-time refinement of vector-search hits
 * against the metadata table. The similarity search itself is a parameter
 * (`search(query, k)` returns the raw text of the ranked hits, each
 * `"<isbn> <description>"`); everything after it follows the code branch
 * for branch, except that emotion scores are integers rather than floats and
 * the descending sort breaks ties in one fixed way.
 */
module Retrieval {
  import opened Wrappers
  import opened Seqs
  import opened PyText
  import opened Books

  /** `tone_mapping`, as written: "Disturbing" names the column "digust". */
  const ToneMapping: map<string, string> := map[
    "Happy" := "joy",
    "Surprising" := "surprise",
    "Angry" := "anger",
    "Suspenseful" := "fear",
    "Sad" := "sadness",
    "Disturbing" := "digust"
  ]

  /** The emotion score columns of `books_with_emotions.csv`. */
  const EmotionColumns: set<string> := {"joy", "surprise", "anger", "fear", "sadness", "disgust"}

  /**
   * The six tones of the drop-down are mapped, and every one of them except
   * "Disturbing" names an emotion column of the dataset.
   */
  lemma ToneMappingTargets()
    ensures ToneMapping.Keys == {"Happy", "Surprising", "Angry", "Suspenseful", "Sad", "Disturbing"}
    ensures forall tone :: tone in ToneMapping ==> (ToneMapping[tone] in EmotionColumns <==> tone != "Disturbing")
  {
  }

  const DefaultInitialTopK := 150
  const DefaultFinalTopK := 50

  /** The user-facing warning that accompanies a result, as a status rather than a UI call. */
  datatype Notice =
    | NoNotice
    | NoSemanticMatches  // "No semantic matches found for your query. ..."
    | FiltersTooStrict   // "No books matched your specific filters. ..."

  /** The returned dataframe's rows and the warning shown with it. */
  datatype Recs = Recs(rows: seq<Book>, notice: Notice)

  // ---------------------------------------------------------------------
  // Reading the ISBN of a hit
  // ---------------------------------------------------------------------

  /** `hit.strip('"').split()[0]`, or `None` where indexing raises. */
  function LeadingToken(hit: string): (r: Option<string>)
    ensures r.Some? ==> IsWord(r.value)
  {
    var ws := Words(StripChar(hit, '"'));
    if ws == [] then None else Some(ws[0])
  }

  /** `int(hit.strip('"').split()[0])`. */
  function IsbnOf(hit: string): Result<int, HitError> {
    match LeadingToken(hit)
    case None => Failure(NoLeadingToken)
    case Some(token) =>
      match ParseInt(token)
      case None => Failure(NotAnInteger(token))
      case Some(n) => Success(n)
  }

  /**
   * A list comprehension `[parse(hit) for hit in hits]` whose element
   * expression may raise: all values in order, or the first exception.
   */
  function ParseEach(hits: seq<string>, parse: string -> Result<int, HitError>): (r: Result<seq<int>, Error>)
    ensures r.Success? <==> forall j :: 0 <= j < |hits| ==> parse(hits[j]).Success?
    ensures r.Success? ==>
              |r.value| == |hits| && forall j :: 0 <= j < |hits| ==> parse(hits[j]) == Success(r.value[j])
    ensures r.Failure? ==>
              && r.error.MalformedHit?
              && r.error.index < |hits|
              && r.error.hit == hits[r.error.index]
              && parse(hits[r.error.index]) == Failure(r.error.reason)
              && forall j :: 0 <= j < r.error.index ==> parse(hits[j]).Success?
  {
    if hits == [] then Success([])
    else
      match parse(hits[0])
      case Failure(reason) => Failure(MalformedHit(0, hits[0], reason))
      case Success(isbn) =>
        match ParseEach(hits[1..], parse)
        case Failure(e) => Failure(e.(index := e.index + 1))
        case Success(isbns) => Success([isbn] + isbns)
  }

  /** The leading token of a hit whose quote-stripped text is a word followed by whitespace-led text. */
  lemma LeadingTokenOfStripped(hit: string, w: string, t: string)
    requires StripChar(hit, '"') == w + t
    requires IsWord(w) && (t == [] || IsSpace(t[0]))
    ensures LeadingToken(hit) == Some(w)
  {
    WordsCons(w, t);
  }

  /**
   * The leading token of `q + w + rest` is `w` when `q` is a run of quotes,
   * `w` a word without a quote at either end, and `rest` empty or starting
   * with whitespace.
   */
  lemma LeadingTokenOfTagged(q: string, w: string, rest: string)
    requires forall i :: 0 <= i < |q| ==> q[i] == '"'
    requires IsWord(w) && w[0] != '"' && w[|w| - 1] != '"'
    requires rest == [] || IsSpace(rest[0])
    ensures LeadingToken(q + (w + rest)) == Some(w)
  {
    StripCharAroundWord('"', q, w, rest);
    var r := StripChar(q + (w + rest), '"');
    LeadingTokenOfStripped(q + (w + rest), w, rest[..|r| - |w|]);
  }

  /** How the tagged line groups: the quote, then the ISBN followed by the rest. */
  lemma TaggedLineShape(q: string, w: string, description: string)
    ensures q + w + " " + description + q == q + (w + (" " + description + q))
  {
  }

  /**
   * A hit in the indexed form, `"<isbn13> <description>"`, optionally wrapped
   * in double quotes, yields the ISBN it was tagged with, whatever the
   * description holds.
   */
  lemma IsbnOfTaggedLine(isbn: nat, description: string, quoted: bool)
    ensures var q := if quoted then "\"" else "";
            IsbnOf(q + ShowNat(isbn) + " " + description + q) == Success(isbn)
  {
    var q := if quoted then "\"" else "";
    var w := ShowNat(isbn);
    var rest := " " + description + q;
    TaggedLineShape(q, w, description);
    assert IsWord(w);
    LeadingTokenOfTagged(q, w, rest);
    ParseIntShowInt(isbn);
  }

  /** `[int(rec.page_content.strip('"').split()[0]) for rec in recs]`. */
  function ParseIsbns(hits: seq<string>): Result<seq<int>, Error> {
    ParseEach(hits, IsbnOf)
  }

  // ---------------------------------------------------------------------
  // The refinement stages
  // ---------------------------------------------------------------------

  /** The mask `books["isbn13"].isin(isbns)`. */
  function Listed(isbns: seq<int>): Book -> bool {
    (b: Book) => b.isbn13 in isbns
  }

  /** `books[books["isbn13"].isin(isbns)]`. */
  function Join(rows: seq<Book>, isbns: seq<int>): (r: seq<Book>)
    ensures forall b :: b in r <==> b in rows && b.isbn13 in isbns
    ensures forall b :: multiset(r)[b] == if b.isbn13 in isbns then multiset(rows)[b] else 0
  {
    Filter(rows, Listed(isbns))
  }

  /** `category and category != "All"`: the category filter applies. */
  predicate CategoryActive(category: Option<string>) {
    category.Some? && category.value != "" && category.value != "All"
  }

  /** The mask `book_recs["simple_categories"] == category`. */
  function InCategory(category: Option<string>): Book -> bool {
    (b: Book) => b.category == category
  }

  /** `book_recs[book_recs["simple_categories"] == category]`, when the filter applies. */
  function ByCategory(rows: seq<Book>, category: Option<string>): (r: seq<Book>)
    ensures |r| <= |rows|
    ensures CategoryActive(category) ==> forall b :: b in r <==> b in rows && b.category == category
    ensures !CategoryActive(category) ==> r == rows
  {
    if CategoryActive(category) then Filter(rows, InCategory(category)) else rows
  }

  /**
   * The emotion column the tone filters and sorts on: only when a tone other
   * than "All" is given, `tone_mapping` knows it, and the table has the column.
   */
  function ToneColumn(columns: set<string>, tone: Option<string>): (r: Option<string>)
    ensures r.Some? ==> && tone.Some? && tone.value in ToneMapping
                        && r.value == ToneMapping[tone.value] && r.value in columns
  {
    if tone.Some? && tone.value != "" && tone.value != "All" && tone.value in ToneMapping
       && ToneMapping[tone.value] != "" && ToneMapping[tone.value] in columns
    then Some(ToneMapping[tone.value])
    else None
  }

  /** `row[column] > 0`; a NaN score fails the comparison. */
  predicate PositiveIn(b: Book, column: string) {
    column in b.emotions && b.emotions[column] > 0
  }

  /** The mask `book_recs[column] > 0`. */
  function Positive(column: string): Book -> bool {
    (b: Book) => PositiveIn(b, column)
  }

  /** The sort key. Only rows that passed `PositiveIn` are sorted, so the default is never used. */
  function Score(b: Book, column: string): int {
    if column in b.emotions then b.emotions[column] else 0
  }

  /** Non-increasing order of the score in `column`. */
  predicate SortedByScore(rows: seq<Book>, column: string) {
    forall i, j :: 0 <= i < j < |rows| ==> Score(rows[i], column) >= Score(rows[j], column)
  }

  /** A row scoring at least the head of a sorted list can go in front of it. */
  lemma SortedCons(x: Book, rows: seq<Book>, column: string)
    requires SortedByScore(rows, column)
    requires rows == [] || Score(x, column) >= Score(rows[0], column)
    ensures SortedByScore([x] + rows, column)
  {
    var r := [x] + rows;
    forall i, j | 0 <= i < j < |r| ensures Score(r[i], column) >= Score(r[j], column) {
      assert r[j] == rows[j - 1];
      if i > 0 {
        assert r[i] == rows[i - 1];
      }
    }
  }

  /** Puts `b` into rows sorted by score, keeping them sorted. */
  function InsertByScore(b: Book, rows: seq<Book>, column: string): (r: seq<Book>)
    requires SortedByScore(rows, column)
    ensures SortedByScore(r, column)
    ensures multiset(r) == multiset(rows) + multiset{b}
    ensures r != [] && (r[0] == b || (rows != [] && r[0] == rows[0]))
  {
    if rows == [] || Score(b, column) >= Score(rows[0], column) then
      SortedCons(b, rows, column);
      [b] + rows
    else
      assert rows == [rows[0]] + rows[1..];
      var rest := InsertByScore(b, rows[1..], column);
      assert rest[0] == b || rest[0] == rows[1];
      SortedCons(rows[0], rest, column);
      [rows[0]] + rest
  }

  /**
   * `sort_values(by=column, ascending=False)`. pandas does not promise a
   * stable order of ties; this is one admissible order, and nothing below
   * depends on how ties fall.
   */
  function SortByScore(rows: seq<Book>, column: string): (r: seq<Book>)
    ensures SortedByScore(r, column)
    ensures multiset(r) == multiset(rows)
  {
    if rows == [] then []
    else
      assert rows == [rows[0]] + rows[1..];
      InsertByScore(rows[0], SortByScore(rows[1..], column), column)
  }

  /** The tone stage: keep the rows with a positive score and sort them by it, when a column applies. */
  function ByTone(rows: seq<Book>, column: Option<string>): (r: seq<Book>)
    ensures |r| <= |rows|
    ensures column.Some? ==> multiset(r) == multiset(Filter(rows, Positive(column.value)))
    ensures column.Some? ==> && SortedByScore(r, column.value)
                             && forall b :: b in r <==> b in rows && PositiveIn(b, column.value)
    ensures column.None? ==> r == rows
  {
    if column.Some? then
      var f := Filter(rows, Positive(column.value));
      var r := SortByScore(f, column.value);
      assert |r| == |multiset(r)| == |multiset(f)| == |f|;
      assert forall b :: b in r <==> b in multiset(f);
      r
    else rows
  }

  /**
   * The dataframe steps after the ISBNs are known: join, filter by category
   * and tone, truncate, and fall back to the truncated join when nothing is
   * left.
   */
  function Select(books: Table, isbns: seq<int>, category: Option<string>, tone: Option<string>,
                  finalTopK: int): Recs
  {
    var joined := Join(books.rows, isbns);
    var refined := Head(ByTone(ByCategory(joined, category), ToneColumn(books.columns, tone)), finalTopK);
    if refined == [] then Recs(Head(joined, finalTopK), FiltersTooStrict)
    else Recs(refined, NoNotice)
  }

  /** Everything after the similarity search, given its hits. */
  function Refine(books: Table, hits: seq<string>, category: Option<string>, tone: Option<string>,
                  finalTopK: int): Result<Recs, Error>
  {
    if hits == [] then Success(Recs([], NoSemanticMatches))
    else
      match ParseIsbns(hits)
      case Failure(e) => Failure(e)
      case Success(isbns) => Success(Select(books, isbns, category, tone, finalTopK))
  }

  /** `retrieve_semantic_recs(query, category, tone, initial_top_k, final_top_k)`. */
  function Retrieve(books: Table, search: (string, int) -> seq<string>, query: string,
                    category: Option<string>, tone: Option<string>,
                    initialTopK: int, finalTopK: int): Result<Recs, Error>
  {
    // `not query or query.strip() == ""`: the empty string is blank too
    if IsBlank(query) then Success(Recs([], NoNotice))
    else Refine(books, search(query, initialTopK), category, tone, finalTopK)
  }

  // ---------------------------------------------------------------------
  // Properties
  // ---------------------------------------------------------------------

  /**
   * A blank query yields an empty result without a warning, and the search
   * is never consulted: any two searches give the same answer.
   */
  lemma BlankQuerySkipsSearch(books: Table, search1: (string, int) -> seq<string>,
                              search2: (string, int) -> seq<string>, query: string,
                              category: Option<string>, tone: Option<string>,
                              initialTopK: int, finalTopK: int)
    requires IsBlank(query)
    ensures Retrieve(books, search1, query, category, tone, initialTopK, finalTopK)
         == Retrieve(books, search2, query, category, tone, initialTopK, finalTopK)
         == Success(Recs([], NoNotice))
  {
  }

  /** No hits: an empty result with the "no semantic matches" warning. */
  lemma RefineWithoutHits(books: Table, category: Option<string>, tone: Option<string>, finalTopK: int)
    ensures Refine(books, [], category, tone, finalTopK) == Success(Recs([], NoSemanticMatches))
  {
  }

  /**
   * A malformed hit is not skipped: the whole call fails, naming the first
   * malformed hit in rank order and why its ISBN could not be read.
   */
  lemma RefineMalformedHit(books: Table, hits: seq<string>, category: Option<string>,
                           tone: Option<string>, finalTopK: int, j: nat)
    requires j < |hits| && IsbnOf(hits[j]).Failure?
    ensures var r := Refine(books, hits, category, tone, finalTopK);
            && r.Failure? && r.error.MalformedHit?
            && r.error.index <= j
            && r.error.hit == hits[r.error.index]
            && IsbnOf(hits[r.error.index]) == Failure(r.error.reason)
            && forall i :: 0 <= i < r.error.index ==> IsbnOf(hits[i]).Success?
  {
    assert ParseIsbns(hits).Failure?;
  }

  /** When every hit parses, the rows are selected by the ISBNs of all hits, in rank order. */
  lemma RefineParsedHits(books: Table, hits: seq<string>, category: Option<string>,
                         tone: Option<string>, finalTopK: int)
    requires hits != [] && forall j :: 0 <= j < |hits| ==> IsbnOf(hits[j]).Success?
    ensures exists isbns: seq<int> ::
              && |isbns| == |hits|
              && (forall j :: 0 <= j < |hits| ==> IsbnOf(hits[j]) == Success(isbns[j]))
              && Refine(books, hits, category, tone, finalTopK) == Success(Select(books, isbns, category, tone, finalTopK))
  {
    var isbns := ParseIsbns(hits).value;
    assert Refine(books, hits, category, tone, finalTopK) == Success(Select(books, isbns, category, tone, finalTopK));
  }

  /** The stages after the join only drop and reorder rows. */
  lemma StagesDrawFromJoin(joined: seq<Book>, category: Option<string>, column: Option<string>, finalTopK: int)
    ensures multiset(Head(ByTone(ByCategory(joined, category), column), finalTopK))
         <= multiset(ByCategory(joined, category))
         <= multiset(joined)
  {
    var c := ByCategory(joined, category);
    var t := ByTone(c, column);
    HeadSubMultiset(t, finalTopK);
    if column.Some? {
      var f := Filter(c, Positive(column.value));
      assert multiset(t) == multiset(f);
    }
  }

  /** Every selected row comes from the join, at most as often as the join holds it. */
  lemma SelectDrawsFromJoin(books: Table, isbns: seq<int>, category: Option<string>,
                            tone: Option<string>, finalTopK: int)
    ensures multiset(Select(books, isbns, category, tone, finalTopK).rows) <= multiset(Join(books.rows, isbns))
  {
    var joined := Join(books.rows, isbns);
    StagesDrawFromJoin(joined, category, ToneColumn(books.columns, tone), finalTopK);
    HeadSubMultiset(joined, finalTopK);
  }

  /** The result never holds more than `final_top_k` rows, on either path. */
  lemma SelectBounded(books: Table, isbns: seq<int>, category: Option<string>,
                      tone: Option<string>, finalTopK: int)
    requires finalTopK >= 0
    ensures |Select(books, isbns, category, tone, finalTopK).rows| <= finalTopK
  {
  }

  /**
   * Every selected row is a table row whose `isbn13` is one of the ISBNs, and
   * no row is selected more often than the table holds it, however often its
   * ISBN occurs.
   */
  lemma SelectRowsMatchIsbns(books: Table, isbns: seq<int>, category: Option<string>,
                             tone: Option<string>, finalTopK: int)
    ensures var rows := Select(books, isbns, category, tone, finalTopK).rows;
            && (forall b :: b in rows ==> b in books.rows && b.isbn13 in isbns)
            && (forall b :: multiset(rows)[b] <= multiset(books.rows)[b])
  {
    var rows := Select(books, isbns, category, tone, finalTopK).rows;
    var joined := Join(books.rows, isbns);
    SelectDrawsFromJoin(books, isbns, category, tone, finalTopK);
    forall b | b in rows ensures b in books.rows && b.isbn13 in isbns {
      assert b in multiset(joined);
    }
    forall b ensures multiset(rows)[b] <= multiset(books.rows)[b] {
      assert multiset(rows)[b] <= multiset(joined)[b];
    }
  }

  /** Every returned row is a table row whose `isbn13` is the ISBN of some hit. */
  lemma RefineRowsComeFromHits(books: Table, hits: seq<string>, category: Option<string>,
                               tone: Option<string>, finalTopK: int)
    requires Refine(books, hits, category, tone, finalTopK).Success?
    ensures forall b :: b in Refine(books, hits, category, tone, finalTopK).value.rows ==>
              b in books.rows && exists j :: 0 <= j < |hits| && IsbnOf(hits[j]) == Success(b.isbn13)
  {
    if hits != [] {
      var isbns := ParseIsbns(hits).value;
      SelectRowsMatchIsbns(books, isbns, category, tone, finalTopK);
      forall b | b in Select(books, isbns, category, tone, finalTopK).rows
        ensures exists j :: 0 <= j < |hits| && IsbnOf(hits[j]) == Success(b.isbn13)
      {
        var j :| 0 <= j < |isbns| && isbns[j] == b.isbn13;
        assert IsbnOf(hits[j]) == Success(b.isbn13);
      }
    }
  }

  /** Unless the fallback fired, every selected row has exactly the requested category. */
  lemma SelectHonoursCategory(books: Table, isbns: seq<int>, category: Option<string>,
                              tone: Option<string>, finalTopK: int)
    requires CategoryActive(category)
    requires Select(books, isbns, category, tone, finalTopK).notice != FiltersTooStrict
    ensures forall b :: b in Select(books, isbns, category, tone, finalTopK).rows ==> b.category == category
  {
    var joined := Join(books.rows, isbns);
    var c := ByCategory(joined, category);
    var rows := Head(ByTone(c, ToneColumn(books.columns, tone)), finalTopK);
    StagesDrawFromJoin(joined, category, ToneColumn(books.columns, tone), finalTopK);
    forall b | b in rows ensures b.category == category {
      assert b in multiset(c);
    }
  }

  /**
   * `r` is the head of some ordering of the rows scoring positive in `column`
   * that is non-increasing in that score: the top `k` positive rows by score.
   */
  ghost predicate TopByScore(r: seq<Book>, rows: seq<Book>, column: string, k: int) {
    exists t :: SortedByScore(t, column) && multiset(t) == multiset(Filter(rows, Positive(column))) && r == Head(t, k)
  }

  /**
   * The tone stage followed by `head`: the rows are the top `final_top_k`
   * rows scoring positive, by descending score. Hence every row scores
   * strictly positive, the rows are in non-increasing order of the score,
   * and they are drawn from the stage's input.
   */
  lemma ToneStageHonoured(rows: seq<Book>, column: string, finalTopK: int)
    ensures var r := Head(ByTone(rows, Some(column)), finalTopK);
            && (forall b :: b in r ==> PositiveIn(b, column))
            && SortedByScore(r, column)
            && multiset(r) <= multiset(rows)
            && TopByScore(r, rows, column, finalTopK)
  {
    var t := ByTone(rows, Some(column));
    var r := Head(t, finalTopK);
    ToneStageIsTop(rows, column, finalTopK);
    HeadSubMultiset(t, finalTopK);
    PositiveRowsDrawn(rows, column);
    HeadSortedByScore(t, column, finalTopK);
    forall b | b in r ensures PositiveIn(b, column) {
      assert b in multiset(r);
    }
  }

  /** The tone stage followed by `head` is the top of the positive rows by score. */
  lemma ToneStageIsTop(rows: seq<Book>, column: string, finalTopK: int)
    ensures TopByScore(Head(ByTone(rows, Some(column)), finalTopK), rows, column, finalTopK)
  {
    var t := ByTone(rows, Some(column));
    assert SortedByScore(t, column) && multiset(t) == multiset(Filter(rows, Positive(column)));
  }

  /** The positive rows are drawn from the rows. */
  lemma PositiveRowsDrawn(rows: seq<Book>, column: string)
    ensures multiset(Filter(rows, Positive(column))) <= multiset(rows)
  {
    var f := Filter(rows, Positive(column));
    forall x ensures multiset(f)[x] <= multiset(rows)[x] {
    }
  }

  /** `head` keeps rows sorted by score. */
  lemma HeadSortedByScore(t: seq<Book>, column: string, k: int)
    requires SortedByScore(t, column)
    ensures SortedByScore(Head(t, k), column)
  {
    var r := Head(t, k);
    forall i, j | 0 <= i < j < |r| ensures Score(r[i], column) >= Score(r[j], column) {
      assert r[i] == t[i] && r[j] == t[j];
    }
  }

  /**
   * When the tone selects an emotion column the table has, and the fallback
   * did not fire: the rows are the top `final_top_k` rows of the
   * category-filtered join that score strictly positive in that column, by
   * descending score.
   */
  lemma SelectHonoursTone(books: Table, isbns: seq<int>, category: Option<string>,
                          tone: Option<string>, finalTopK: int)
    requires ToneColumn(books.columns, tone).Some?
    requires Select(books, isbns, category, tone, finalTopK).notice != FiltersTooStrict
    ensures var column := ToneColumn(books.columns, tone).value;
            var rows := Select(books, isbns, category, tone, finalTopK).rows;
            && (forall b :: b in rows ==> PositiveIn(b, column))
            && SortedByScore(rows, column)
            && multiset(rows) <= multiset(ByCategory(Join(books.rows, isbns), category))
            && TopByScore(rows, ByCategory(Join(books.rows, isbns), category), column, finalTopK)
  {
    var column := ToneColumn(books.columns, tone);
    var c := ByCategory(Join(books.rows, isbns), category);
    assert Select(books, isbns, category, tone, finalTopK).rows == Head(ByTone(c, column), finalTopK);
    ToneStageHonoured(c, column.value, finalTopK);
  }

  /** A tone that selects no column (unknown, "All", or naming a column the table lacks) changes nothing. */
  lemma UnmappedToneIgnored(books: Table, isbns: seq<int>, category: Option<string>,
                            tone: Option<string>, finalTopK: int)
    requires ToneColumn(books.columns, tone).None?
    ensures Select(books, isbns, category, tone, finalTopK) == Select(books, isbns, category, None, finalTopK)
  {
  }

  /**
   * Because of the "digust" entry, "Disturbing" filters and sorts nothing on
   * any table without a column of that misspelt name, such as one with the
   * "disgust" column.
   */
  lemma DisturbingToneIgnored(books: Table, isbns: seq<int>, category: Option<string>, finalTopK: int)
    requires "digust" !in books.columns
    ensures Select(books, isbns, category, Some("Disturbing"), finalTopK)
         == Select(books, isbns, category, None, finalTopK)
  {
    assert ToneColumn(books.columns, Some("Disturbing")).None?;
  }

  /** Each tone in the table selects its column when the table has it. */
  lemma MappedToneSelectsColumn(columns: set<string>, tone: string)
    requires tone in ToneMapping && ToneMapping[tone] in columns
    ensures ToneColumn(columns, Some(tone)) == Some(ToneMapping[tone])
  {
  }

  /**
   * The fallback fires exactly when filtering and truncating leave nothing,
   * and then the result is the first `final_top_k` rows of the unfiltered
   * join: non-empty whenever the join is non-empty and `final_top_k > 0`.
   */
  lemma SelectFallback(books: Table, isbns: seq<int>, category: Option<string>,
                       tone: Option<string>, finalTopK: int)
    ensures var r := Select(books, isbns, category, tone, finalTopK);
            var joined := Join(books.rows, isbns);
            var refined := Head(ByTone(ByCategory(joined, category), ToneColumn(books.columns, tone)), finalTopK);
            && (r.notice == FiltersTooStrict <==> refined == [])
            && (r.notice == FiltersTooStrict ==> r.rows == Head(joined, finalTopK))
            && (r.notice != FiltersTooStrict ==> r.rows == refined && r.notice == NoNotice)
            && (joined != [] && finalTopK > 0 ==> r.rows != [])
  {
  }

  /**
   * The result is empty exactly when `head(final_top_k)` of the join is:
   * when no table row is listed, when `final_top_k` is 0, or when it is
   * negative enough to drop every listed row.
   */
  lemma SelectEmptyExactly(books: Table, isbns: seq<int>, category: Option<string>,
                           tone: Option<string>, finalTopK: int)
    ensures Select(books, isbns, category, tone, finalTopK).rows == []
        <==> Head(Join(books.rows, isbns), finalTopK) == []
  {
    var joined := Join(books.rows, isbns);
    var t := ByTone(ByCategory(joined, category), ToneColumn(books.columns, tone));
    if Head(joined, finalTopK) == [] {
      HeadEmptyOfShorter(t, joined, finalTopK);
    }
  }

  /**
   * On the fallback path the rows keep table order: they are table rows at
   * strictly increasing positions, namely the first `final_top_k` table rows
   * whose ISBN is listed.
   */
  lemma FallbackKeepsTableOrder(books: Table, isbns: seq<int>, category: Option<string>,
                                tone: Option<string>, finalTopK: int)
    requires Select(books, isbns, category, tone, finalTopK).notice == FiltersTooStrict
    ensures var rows := Select(books, isbns, category, tone, finalTopK).rows;
            && SubsequenceOf(rows, books.rows)
            && rows == Head(Filter(books.rows, Listed(isbns)), finalTopK)
  {
    var positions := KeptPositions(books.rows, Listed(isbns));
    FilterKeepsOrder(books.rows, Listed(isbns));
    HeadEmbeds(positions, Filter(books.rows, Listed(isbns)), books.rows, finalTopK);
  }

  /** A row is listed and, when the category filter applies, in the category. */
  function Matches(isbns: seq<int>, category: Option<string>): Book -> bool {
    (b: Book) => b.isbn13 in isbns && (!CategoryActive(category) || b.category == category)
  }

  lemma CategoryFilterOfJoin(rows: seq<Book>, isbns: seq<int>, category: Option<string>)
    requires CategoryActive(category)
    ensures Filter(Filter(rows, Listed(isbns)), InCategory(category)) == Filter(rows, Matches(isbns, category))
  {
    FilterFusion(rows, Listed(isbns), InCategory(category), Matches(isbns, category));
  }

  lemma JoinMatchesWithoutCategory(rows: seq<Book>, isbns: seq<int>, category: Option<string>)
    requires !CategoryActive(category)
    ensures Filter(rows, Listed(isbns)) == Filter(rows, Matches(isbns, category))
  {
    FilterCongruence(rows, Listed(isbns), Matches(isbns, category));
  }

  /** Joining and then filtering by category keeps exactly the matching rows, in table order. */
  lemma ByCategoryOfJoin(rows: seq<Book>, isbns: seq<int>, category: Option<string>)
    ensures ByCategory(Join(rows, isbns), category) == Filter(rows, Matches(isbns, category))
  {
    if CategoryActive(category) {
      CategoryFilterOfJoin(rows, isbns, category);
    } else {
      JoinMatchesWithoutCategory(rows, isbns, category);
    }
  }

  /**
   * Without a tone column the rows keep table order, not hit rank: outside
   * the fallback they are table rows at strictly increasing positions,
   * namely the first `final_top_k` table rows whose ISBN is listed and whose
   * category matches.
   */
  lemma SelectKeepsTableOrder(books: Table, isbns: seq<int>, category: Option<string>,
                              tone: Option<string>, finalTopK: int)
    requires ToneColumn(books.columns, tone).None?
    requires Select(books, isbns, category, tone, finalTopK).notice != FiltersTooStrict
    ensures var rows := Select(books, isbns, category, tone, finalTopK).rows;
            && SubsequenceOf(rows, books.rows)
            && rows == Head(Filter(books.rows, Matches(isbns, category)), finalTopK)
  {
    var mask := Matches(isbns, category);
    ByCategoryOfJoin(books.rows, isbns, category);
    FilterKeepsOrder(books.rows, mask);
    HeadEmbeds(KeptPositions(books.rows, mask), Filter(books.rows, mask), books.rows, finalTopK);
  }

  /**
   * Only the set of ISBNs matters: repeating a hit, or ranking the hits
   * differently, selects the same rows.
   */
  lemma SelectDependsOnIsbnSet(books: Table, isbns1: seq<int>, isbns2: seq<int>,
                               category: Option<string>, tone: Option<string>, finalTopK: int)
    requires forall n :: n in isbns1 <==> n in isbns2
    ensures Select(books, isbns1, category, tone, finalTopK) == Select(books, isbns2, category, tone, finalTopK)
  {
    FilterCongruence(books.rows, Listed(isbns1), Listed(isbns2));
  }
}
