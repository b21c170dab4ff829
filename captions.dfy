/**
 * `recommend_books`: the gallery tiles (large thumbnail, caption) built from
 * the retrieved rows, with the author list and description formatting.
 */
module Captions {
  import opened Wrappers
  import opened Seqs
  import opened PyText
  import opened Books
  import opened Retrieval

  const CaptionWords := 30
  const Ellipsis := "..."

  /** `" ".join(description.split()[:30]) + "..."`. */
  function TruncateDescription(description: string): (r: string)
    ensures |r| >= |Ellipsis| && r[|r| - |Ellipsis|..] == Ellipsis
  {
    JoinWith(" ", Head(Words(description), CaptionWords)) + Ellipsis
  }

  /**
   * The caption text before the ellipsis is the first min(30, n) words of the
   * description, joined by single spaces; the ellipsis follows even when the
   * description has 30 words or fewer.
   */
  lemma TruncateDescriptionKeepsFirstWords(description: string)
    ensures var r := TruncateDescription(description);
            var body := r[..|r| - |Ellipsis|];
            var n := |Words(description)|;
            && Words(body) == Words(description)[..if n < CaptionWords then n else CaptionWords]
            && body == JoinWith(" ", Words(body))
  {
    var all := Words(description);
    var ws := Head(all, CaptionWords);
    var body := JoinWith(" ", ws);
    var r := body + Ellipsis;
    assert r[..|r| - |Ellipsis|] == body;
    assert ws == all[..if |all| < CaptionWords then |all| else CaptionWords];
    assert forall i :: 0 <= i < |ws| ==> IsWord(ws[i]) by {
      forall i | 0 <= i < |ws| ensures IsWord(ws[i]) {
        assert ws[i] == all[i];
      }
    }
    WordsOfJoin(ws);
  }

  /**
   * The author list shown in a caption: `authors.split('"')` joined as
   * English, "A and B" for two names, "A, B, and C" for more; a single name is
   * kept as it is.
   */
  function FormatAuthors(authors: string): string {
    var names := Split(authors, '"');
    if |names| >= 2 then JoinNames(names) else authors
  }

  /** Two names or more joined as English: "A and B", or "A, B, and C". */
  function JoinNames(names: seq<string>): string
    requires |names| >= 2
  {
    if |names| == 2 then names[0] + " and " + names[1]
    else JoinWith(", ", names[..|names| - 1]) + ", and " + names[|names| - 1]
  }

  /** Without a `"` the author string is shown unchanged, and only then. */
  lemma FormatSingleAuthor(authors: string)
    ensures FormatAuthors(authors) == authors <==> '"' !in authors
  {
    var names := Split(authors, '"');
    JoinSplit(authors, '"');
    SeparatorInJoin('"', names);
    if '"' in authors {
      FormatAuthorsDropsQuotes(authors);
    }
  }

  /** Two names separated by one `"` become "A and B". */
  lemma FormatTwoAuthors(first: string, second: string)
    requires '"' !in first && '"' !in second
    ensures FormatAuthors(first + "\"" + second) == first + " and " + second
  {
    SplitJoinWith('"', [first, second]);
  }

  /** Three names or more become "A, B, and C": commas between all names, "and" before the last. */
  lemma FormatManyAuthors(names: seq<string>)
    requires |names| >= 3
    requires forall i :: 0 <= i < |names| ==> '"' !in names[i]
    ensures FormatAuthors(JoinWith("\"", names))
         == JoinWith(", ", names[..|names| - 1]) + ", and " + names[|names| - 1]
  {
    SplitJoinWith('"', names);
    FormatSplitAuthors(JoinWith("\"", names), names);
  }

  /** The author list, given how it splits on `"` into three names or more. */
  lemma FormatSplitAuthors(authors: string, names: seq<string>)
    requires Split(authors, '"') == names && |names| >= 3
    ensures FormatAuthors(authors) == JoinWith(", ", names[..|names| - 1]) + ", and " + names[|names| - 1]
  {
    assert FormatAuthors(authors) == JoinNames(names);
  }

  /** A formatted author list never contains `"`, whatever the input. */
  lemma FormatAuthorsDropsQuotes(authors: string)
    requires '"' in authors
    ensures '"' !in FormatAuthors(authors)
  {
    var names := Split(authors, '"');
    JoinSplit(authors, '"');
    SeparatorInJoin('"', names);
    if |names| > 2 {
      CharInJoin('"', ", ", names[..|names| - 1]);
    }
  }

  /** The caption of one row, or the exception raised on a NaN description or author list. */
  function Caption(b: Book): (r: Result<string, Error>)
    ensures r.Success? <==> b.description.Some? && b.authors.Some?
    ensures b.description.None? ==> r == Failure(MissingDescription(b.isbn13))
  {
    match b.description
    case None => Failure(MissingDescription(b.isbn13))
    case Some(description) =>
      match b.authors
      case None => Failure(MissingAuthors(b.isbn13))
      case Some(authors) =>
        Success(b.title + " by " + FormatAuthors(authors) + ": " + TruncateDescription(description))
  }

  /** One gallery entry: the image URL and its caption. */
  datatype Tile = Tile(image: string, caption: string)

  /**
   * The tiles of rows in order, each captioned by `caption`, or the exception
   * of the first row whose caption cannot be built.
   */
  function CollectTiles(rows: seq<Book>, caption: Book -> Result<string, Error>): (r: Result<seq<Tile>, Error>)
    ensures r.Success? <==> forall i :: 0 <= i < |rows| ==> caption(rows[i]).Success?
    ensures r.Success? ==>
              && |r.value| == |rows|
              && forall i :: 0 <= i < |rows| ==> r.value[i] == Tile(rows[i].largeThumbnail, caption(rows[i]).value)
  {
    if rows == [] then Success([])
    else
      var last := rows[|rows| - 1];
      match CollectTiles(rows[..|rows| - 1], caption)
      case Failure(e) => Failure(e)
      case Success(tiles) =>
        match caption(last)
        case Failure(e) => Failure(e)
        case Success(text) => Success(tiles + [Tile(last.largeThumbnail, text)])
  }

  /** The tiles `recommend_books` builds for rows, in order. */
  function Tiles(rows: seq<Book>): Result<seq<Tile>, Error> {
    CollectTiles(rows, Caption)
  }

  /** Once a prefix has its tiles and the next row fails, the whole list fails with that row's error. */
  lemma {:induction false} TilesFailAt(rows: seq<Book>, caption: Book -> Result<string, Error>, i: nat)
    requires i < |rows|
    requires CollectTiles(rows[..i], caption).Success? && caption(rows[i]).Failure?
    ensures CollectTiles(rows, caption) == Failure(caption(rows[i]).error)
  {
    if i < |rows| - 1 {
      TilesFailAt(rows[..|rows| - 1], caption, i);
      assert rows[..|rows| - 1][..i] == rows[..i];
    } else {
      assert rows[..|rows| - 1] == rows[..i];
    }
  }

  /** What `recommend_books` returns for what `retrieve_semantic_recs` returned. */
  function Gallery(recs: Result<Recs, Error>): Result<seq<Tile>, Error> {
    match recs
    case Failure(e) => Failure(e)
    case Success(r) => Tiles(r.rows)
  }

  /**
   * The loop of `recommend_books`: one tile per row, in order, each captioned
   * by `caption`, stopping at the first row whose caption raises.
   */
  method BuildTiles(rows: seq<Book>, caption: Book -> Result<string, Error>) returns (r: Result<seq<Tile>, Error>)
    ensures r == CollectTiles(rows, caption)
  {
    var results: seq<Tile> := [];
    var i := 0;
    while i < |rows|
      invariant 0 <= i <= |rows|
      invariant CollectTiles(rows[..i], caption) == Success(results)
    {
      var row := rows[i];
      var text := caption(row);
      if text.Failure? {
        TilesFailAt(rows, caption, i);
        return Failure(text.error);
      }
      assert rows[..i + 1][..i] == rows[..i];
      results := results + [Tile(row.largeThumbnail, text.value)];
      i := i + 1;
    }
    assert rows[..i] == rows;
    r := Success(results);
  }

  /**
   * `recommend_books(query, category, tone)`: retrieves from the process-wide
   * dataframe with the default sizes and appends one tile per returned row.
   */
  method RecommendBooks(store: BookStore, search: (string, int) -> seq<string>, query: string,
                        category: string, tone: string) returns (r: Result<seq<Tile>, Error>)
    ensures r == Gallery(Retrieve(store.Snapshot(), search, query, Some(category), Some(tone),
                                  DefaultInitialTopK, DefaultFinalTopK))
  {
    var books := store.Snapshot();
    var recommendations := Retrieve(books, search, query, Some(category), Some(tone),
                                    DefaultInitialTopK, DefaultFinalTopK);
    if recommendations.Failure? {
      return Failure(recommendations.error);
    }
    r := BuildTiles(recommendations.value.rows, Caption);
  }

  /**
   * On a table whose thumbnails were derived at load, every tile shows the
   * large thumbnail of its own row.
   */
  lemma TileImagesAreLargeThumbnails(books: Table, hits: seq<string>, category: Option<string>,
                                     tone: Option<string>, finalTopK: int)
    requires ThumbnailsDerived(books.rows)
    requires Refine(books, hits, category, tone, finalTopK).Success?
    requires Tiles(Refine(books, hits, category, tone, finalTopK).value.rows).Success?
    ensures var rows := Refine(books, hits, category, tone, finalTopK).value.rows;
            var tiles := Tiles(rows).value;
            forall i :: 0 <= i < |tiles| ==> tiles[i].image == LargeThumbnail(rows[i].thumbnail)
  {
    var rows := Refine(books, hits, category, tone, finalTopK).value.rows;
    RefineRowsComeFromHits(books, hits, category, tone, finalTopK);
    forall i | 0 <= i < |rows| ensures rows[i].largeThumbnail == LargeThumbnail(rows[i].thumbnail) {
      assert rows[i] in books.rows;
    }
  }
}
