/**
 * The metadata table (`books`, read from `books_with_emotions.csv`) and
 * the `large_thumbnail` column derived from it once at load time.
 */
module Books {
  import opened Wrappers
  import opened PyText

  /**
   * One row of the metadata table, with the columns the recommender reads.
   * A pandas NaN is `None`. An emotion column missing from `emotions`
   * stands for a NaN score.
   */
  datatype Book = Book(
    isbn13: int,
    title: string,
    authors: Option<string>,
    category: Option<string>,
    description: Option<string>,
    thumbnail: Option<string>,
    largeThumbnail: string,
    emotions: map<string, int>)

  /** The metadata table: its column names and its rows, in file order. */
  datatype Table = Table(columns: set<string>, rows: seq<Book>)

  /** The exceptions the modelled code raises. */
  datatype Error =
    | MalformedHit(index: nat, hit: string, reason: HitError)  // `int(...)` or `[0]` fails on a search hit
    | MissingDescription(isbn13: int)                         // `.split()` on a NaN description
    | MissingAuthors(isbn13: int)                             // `.split('"')` on NaN authors

  /** Why the leading ISBN of a search hit could not be read. */
  datatype HitError =
    | NoLeadingToken              // the hit holds no word: `split()[0]` raises IndexError
    | NotAnInteger(token: string) // `int(token)` raises ValueError

  const CoverSizeSuffix := "&fife=w800"
  const NoCover := "no-cover-found.jpg"

  /** The thumbnail is present and not blank. */
  predicate HasCover(thumbnail: Option<string>) {
    thumbnail.Some? && !IsBlank(thumbnail.value)
  }

  /** The `large_thumbnail` value of a row: a size-qualified cover URL, or the placeholder. */
  function LargeThumbnail(thumbnail: Option<string>): (r: string)
    ensures HasCover(thumbnail) ==> |r| > |CoverSizeSuffix|
    ensures !HasCover(thumbnail) ==> r == NoCover
  {
    var url := if thumbnail.Some? then thumbnail.value else "";
    if !IsBlank(url) then url + CoverSizeSuffix else NoCover
  }

  /** The cover URL a large thumbnail was derived from, if it was derived from one. */
  function CoverOf(large: string): Option<string> {
    var n := |CoverSizeSuffix|;
    if |large| >= n && large[|large| - n..] == CoverSizeSuffix then Some(large[..|large| - n])
    else None
  }

  /**
   * The derivation loses nothing: a present, non-blank cover URL is recovered
   * from its large thumbnail, and the placeholder is told apart from every
   * derived URL.
   */
  lemma LargeThumbnailRoundTrip(thumbnail: Option<string>)
    ensures CoverOf(LargeThumbnail(thumbnail)) == if HasCover(thumbnail) then thumbnail else None
  {
    var r := LargeThumbnail(thumbnail);
    if HasCover(thumbnail) {
      assert r[..|r| - |CoverSizeSuffix|] == thumbnail.value;
      assert r[|r| - |CoverSizeSuffix|..] == CoverSizeSuffix;
    } else {
      assert r[|r| - |CoverSizeSuffix|..] != CoverSizeSuffix by {
        assert r[|r| - |CoverSizeSuffix|..][0] == '-';
      }
    }
  }

  /** Every row carries the large thumbnail derived from its own thumbnail. */
  ghost predicate ThumbnailsDerived(rows: seq<Book>) {
    forall i :: 0 <= i < |rows| ==> rows[i].largeThumbnail == LargeThumbnail(rows[i].thumbnail)
  }

  /** The process-wide `books` dataframe, which the module load updates in place. */
  class BookStore {
    var columns: set<string>
    var rows: seq<Book>

    /** The table as `pd.read_csv` returns it. */
    constructor (columns: set<string>, rows: seq<Book>)
      ensures this.columns == columns && this.rows == rows
    {
      this.columns := columns;
      this.rows := rows;
    }

    /** The current value of the dataframe, as the query functions read it. */
    function Snapshot(): Table
      reads this
    {
      Table(columns, rows)
    }

    /**
     * `books["large_thumbnail"] = ...`: adds the column and fills it row by
     * row from the `thumbnail` column; no other cell, and no row, changes.
     */
    method DeriveLargeThumbnails()
      modifies this
      ensures columns == old(columns) + {"large_thumbnail"}
      ensures |rows| == |old(rows)|
      ensures forall i :: 0 <= i < |rows| ==>
                rows[i] == old(rows[i]).(largeThumbnail := LargeThumbnail(old(rows[i]).thumbnail))
      ensures ThumbnailsDerived(Snapshot().rows)
    {
      var loaded := rows;
      rows := seq(|loaded|, i requires 0 <= i < |loaded| =>
                loaded[i].(largeThumbnail := LargeThumbnail(loaded[i].thumbnail)));
      columns := columns + {"large_thumbnail"};
    }
  }
}
