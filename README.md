# Semantic book recommender: retrieval and captions

A Dafny model of the query path of the semantic book recommender
(`semantic_recs.py`). Given a free-text query, it runs a vector similarity
search, reads the ISBN that leads each hit, and joins those ISBNs against the
book metadata table. The joined rows are then narrowed by category and by
emotional tone (the tone filter keeps rows with a positive score in the mapped
emotion column and sorts them by that score). The result is cut to
`final_top_k` rows, and when the filters leave nothing it falls back to the
unfiltered join. `recommend_books` turns every returned row into a gallery
tile: the large cover URL derived at load time, and a caption made of the
title, the formatted author list and the description cut to 30 words.

Modules:

- `Wrappers`: `Option` and `Result`.
- `Seqs`: order-preserving boolean-mask selection (`Filter`) and pandas `head(n)`,
  negative `n` included.
- `PyText`: the CPython `str` operations the code relies on:
  - the `str.isspace` character set;
  - `split()` and `split(sep)`;
  - `sep.join`;
  - `strip(chars)`;
  - the decimal syntax `int(str)` accepts: sign, ASCII digits, single underscores.
- `Books`: the table row, the exceptions the code raises, and the
  `large_thumbnail` derivation. The process-wide dataframe is the class
  `BookStore`, whose column assignment at load time updates it in place.
- `Retrieval`: `tone_mapping`, hit parsing, the join/category/tone/head/fallback
  stages, and `retrieve_semantic_recs`, each with its properties.
- `Captions`: author formatting, description truncation, the caption, and
  `recommend_books` as a method whose loop is proved against the
  specification function `Tiles`.

How the model represents things:

- The similarity search is a function parameter `search(query, k)`. It returns
  the raw text of the ranked hits.
- An exception the code raises is a `Failure` carrying an `Error`:
  - `int(...)` or `split()[0]` failing on a hit;
  - `.split()` on a NaN description;
  - `.split('"')` on NaN authors.
- A pandas NaN cell is `None`. A missing entry in a row's emotion map is a NaN
  score, which fails `> 0`.
- The two `st.warning` calls are a `Notice` returned with the rows.

Behaviour of the code a reader might not expect:

- The code's `tone_mapping` sends "Disturbing" to the column `"digust"`, not
  `"disgust"`. With the emotion columns of the dataset, that tone therefore
  never filters or sorts (`Retrieval.DisturbingToneIgnored`).
- A hit whose leading token is not an integer is not skipped. It raises, so
  the whole call fails, naming the first such hit (`Retrieval.RefineMalformedHit`).
- The ellipsis is appended to every description, including one of 30 words or
  fewer (`Captions.TruncateDescriptionKeepsFirstWords`).
- The result can be empty even when the search returned hits. This happens
  exactly when `head(final_top_k)` of the join is empty: no hit's ISBN is in
  the table, `final_top_k` is 0, or `final_top_k` is negative enough to drop
  every listed row (pandas `head(-n)` drops only the last n rows)
  (`Retrieval.SelectEmptyExactly`).

## Model

| member | source | states |
|---|---|---|
| Seqs.Filter | semantic_recs.py:71 | A boolean mask keeps exactly the rows satisfying it, each as often as the input holds it. |
| Seqs.FilterKeepsOrder | semantic_recs.py:71 | `df[mask]` keeps table order: the selected rows are the rows at exactly the positions where the mask holds, at strictly increasing positions. |
| Seqs.Head | semantic_recs.py:83 | `head(n)` is a prefix. It has min(n, len) rows for n >= 0, and for negative n all but the last abs(n) rows. |
| Seqs.HeadSubMultiset | semantic_recs.py:83 | `head` only drops rows. |
| Seqs.HeadEmbeds | semantic_recs.py:83 | `head(n)` of an order-preserving selection is again one, at the first of its positions. |
| Seqs.FilterFusion | semantic_recs.py:71-74 | Two masks applied in turn select the same rows as any single mask that accepts exactly their conjunction. |
| Seqs.FilterCongruence | semantic_recs.py:71-74 | Masks that agree on every row select the same rows. |
| PyText.IsSpace | semantic_recs.py:70 | The exact character set of `str.isspace`, on which `strip()` and `split()` trim and break. |
| PyText.LStrip | semantic_recs.py:70 | `lstrip` removes a maximal leading run of stripped characters and nothing else. |
| PyText.RStrip | semantic_recs.py:70 | `rstrip` removes a maximal trailing run of stripped characters and nothing else. |
| PyText.StripChar | semantic_recs.py:70 | `strip('"')`. `PyText.StripCharAroundWord` shows that it keeps a word with no quote at either end whole, and trims only the quote runs around it. |
| PyText.LStripRun | semantic_recs.py:70 | `lstrip` removes exactly a run of stripped characters that is followed by a kept one. |
| PyText.RStripKeepsPrefix | semantic_recs.py:70 | `rstrip` never cuts into a prefix that ends in a kept character. |
| PyText.RStripAfterWord | semantic_recs.py:70 | Right-stripping text that starts with a word ending in a kept character leaves that word followed by a prefix of the rest. |
| PyText.StripCharLeadingRun | semantic_recs.py:70 | `strip(c)` of a run of `c` followed by a character other than `c` is the right-strip of what follows the run. |
| PyText.StripCharAroundWord | semantic_recs.py:70 | `strip(c)` around a word that neither starts nor ends with `c` keeps that word whole, followed by a prefix of the text after it. |
| PyText.WordPrefix | semantic_recs.py:70 | The first word is the longest whitespace-free prefix. |
| PyText.Words | semantic_recs.py:70 | Every part of `split()` is non-empty and whitespace-free. |
| PyText.IsBlank | semantic_recs.py:60 | `x.strip() == ""` holds of whitespace-only strings, the empty one included. `Retrieval.BlankQuerySkipsSearch` shows what a blank query returns. |
| PyText.LStripNoSpace | semantic_recs.py:103 | A string not starting with whitespace is unchanged by the leading trim of `split()`. |
| PyText.WordPrefixOfWord | semantic_recs.py:103 | A word followed by whitespace or the end is the first word found. |
| PyText.WordsAfterSpace | semantic_recs.py:103 | A leading whitespace character (any character `str.isspace` accepts) does not change `split()`. |
| PyText.WordsCons | semantic_recs.py:103 | `split()` of a word followed by whitespace-led text is that word, then the words of the rest. |
| PyText.WordsOfSpaced | semantic_recs.py:103-105 | `split()` of a word, a space and more text is that word followed by the words of the text. |
| PyText.WordsOfOneWord | semantic_recs.py:103 | `split()` of a single word is that word alone. |
| PyText.WordsOfJoin | semantic_recs.py:103-105 | `" ".join(words).split()` gives back the words: `split()` inverts the join of words. |
| PyText.JoinWith | semantic_recs.py:105-111 | `sep.join(parts)`. `PyText.WordsOfJoin`, `PyText.JoinSplit` and `PyText.SplitJoinWith` show that it is inverted by `split()` and `split(sep)`. |
| PyText.Split | semantic_recs.py:107 | `split(sep)` gives at least one part, and no part holds `sep`. |
| PyText.JoinSplit | semantic_recs.py:107 | `sep.join(s.split(sep)) == s`: splitting loses nothing. |
| PyText.SeparatedPrefixUnique | semantic_recs.py:107 | A string splits in one way only into a sep-free part and a rest that starts at a separator. |
| PyText.JoinWithInjective | semantic_recs.py:107 | Joining sep-free parts with `sep` is injective. |
| PyText.SplitJoinWith | semantic_recs.py:107 | `sep.join(parts).split(sep)` gives back sep-free parts: `split(sep)` inverts `join`. |
| PyText.SeparatorInJoin | semantic_recs.py:107-110 | A join of sep-free parts contains `sep` exactly when there are two parts or more. |
| PyText.CharInJoin | semantic_recs.py:111 | A join introduces no character absent from its separator and its parts. |
| PyText.ShowNat | semantic_recs.py:70 | The decimal form of a natural number is a non-empty run of digits. |
| PyText.NumeralValueOfShowNat | semantic_recs.py:70 | The digits of a natural number read back as that number. |
| PyText.ParseInt | semantic_recs.py:70 | `int(token)` in base 10: an optional sign, then ASCII digits with single underscores between digits. `PyText.ParseIntShowInt` shows that it reads back every integer's decimal form. |
| PyText.ParseIntShowInt | semantic_recs.py:70 | `int(str(n)) == n` for every integer. |
| Books.LargeThumbnail | semantic_recs.py:35-37 | A present, non-blank cover gives a URL longer than the size suffix, and a missing or blank one gives the placeholder. `Books.LargeThumbnailRoundTrip` shows that the result is the cover URL with the suffix appended. |
| Books.LargeThumbnailRoundTrip | semantic_recs.py:35-37 | The cover URL is recovered from its large thumbnail. The placeholder is distinguished from every derived URL. |
| Books.HasCover | semantic_recs.py:35-36 | A thumbnail gets a size-qualified URL exactly when it is present (not NaN) and not blank. |
| Books.BookStore.constructor | semantic_recs.py:31 | The dataframe holds the loaded columns and rows. |
| Books.BookStore.DeriveLargeThumbnails | semantic_recs.py:35-37 | Adds the `large_thumbnail` column. Each row gets the thumbnail derived from its own `thumbnail`, with no other cell or row changed, so the table the queries read has derived thumbnails throughout. |
| Retrieval.LeadingToken | semantic_recs.py:70 | `hit.strip('"').split()[0]` is a word when it exists. |
| Retrieval.LeadingTokenOfStripped | semantic_recs.py:70 | When `strip('"')` leaves a word followed by whitespace-led text, that word is the leading token. |
| Retrieval.LeadingTokenOfTagged | semantic_recs.py:70 | A word with no quote at either end, after a run of quotes and followed by whitespace-led text, is the leading token. |
| Retrieval.IsbnOfTaggedLine | semantic_recs.py:70 | A hit `"<isbn> <description>"`, with or without surrounding quotes, parses to its ISBN whatever the description. |
| Retrieval.IsbnOf | semantic_recs.py:70 | `int(hit.strip('"').split()[0])`, or the reason it raises. `Retrieval.IsbnOfTaggedLine` shows that every indexed line yields its own ISBN. |
| Retrieval.ParseIsbns | semantic_recs.py:70 | The list comprehension over the hits. `Retrieval.ParseEach` gives all ISBNs in rank order, or the first failing hit. |
| Retrieval.ToneMapping | semantic_recs.py:12-19 | `tone_mapping` as written, with "Disturbing" mapped to `"digust"`. `Retrieval.ToneMappingTargets` states its keys and targets. |
| Retrieval.ToneMappingTargets | semantic_recs.py:12-19 | The six tones are mapped, and each names an emotion column of the dataset except "Disturbing", whose misspelt target names none. |
| Retrieval.Listed | semantic_recs.py:71 | The mask `isin(books_list)`: a row is kept when its ISBN is among the parsed hits. `Retrieval.Join` states what it selects. |
| Retrieval.CategoryActive | semantic_recs.py:73 | `category and category != "All"`: the category filter applies to a category that is present, non-empty and not "All". |
| Retrieval.InCategory | semantic_recs.py:74 | The mask `simple_categories == category`. `Retrieval.ByCategory` states what it selects. |
| Retrieval.PositiveIn | semantic_recs.py:79 | `row[column] > 0`, where a NaN (missing) score fails. `Retrieval.ByTone` states what the mask selects. |
| Retrieval.Positive | semantic_recs.py:79 | The mask `book_recs[column] > 0` over rows, by `Retrieval.PositiveIn`. |
| Retrieval.Join | semantic_recs.py:71 | `isin` keeps exactly the table rows whose ISBN is listed, each as often as the table holds it. |
| Retrieval.ByCategory | semantic_recs.py:73-74 | With a category other than empty or "All", exactly the rows of that category are kept. Otherwise nothing changes. |
| Retrieval.ToneColumn | semantic_recs.py:76-78 | A column is chosen only for a tone that `tone_mapping` maps to a column the table has, and it is that mapped column. |
| Retrieval.ByTone | semantic_recs.py:79-80 | With a column, the result is a permutation of the rows scoring positive, in non-increasing order of the score. Without one, nothing changes. |
| Retrieval.ParseEach | semantic_recs.py:70 | Every hit parses, and the ISBNs are in rank order. Otherwise the error names the first hit in rank order that fails, and its reason. |
| Retrieval.SortedCons | semantic_recs.py:80 | A row scoring at least the first of rows sorted by descending score can be put in front without breaking the order. |
| Retrieval.InsertByScore | semantic_recs.py:80 | Inserting into rows sorted by descending score keeps them sorted and adds exactly that row. |
| Retrieval.SortByScore | semantic_recs.py:80 | `sort_values(ascending=False)` gives a non-increasing order of the score and a permutation of its input. |
| Retrieval.Select | semantic_recs.py:71-89 | The dataframe steps once the ISBNs are known. `Retrieval.SelectFallback`, `Retrieval.SelectEmptyExactly`, `Retrieval.SelectBounded`, `Retrieval.SelectRowsMatchIsbns`, `Retrieval.SelectHonoursCategory`, `Retrieval.SelectHonoursTone` and `Retrieval.SelectKeepsTableOrder` state its properties. |
| Retrieval.Refine | semantic_recs.py:63-89 | Everything after the search, given its hits. `Retrieval.RefineWithoutHits`, `Retrieval.RefineMalformedHit` and `Retrieval.RefineParsedHits` cover its three outcomes. |
| Retrieval.Retrieve | semantic_recs.py:50-91 | `retrieve_semantic_recs`. `Retrieval.BlankQuerySkipsSearch` covers a blank query, and the `Refine` lemmas cover the rest. |
| Retrieval.BlankQuerySkipsSearch | semantic_recs.py:60-61 | An empty or whitespace-only query returns no rows and no warning, whatever the search would return. |
| Retrieval.RefineWithoutHits | semantic_recs.py:63-67 | No hits give no rows and the "no semantic matches" notice, whatever the table and filters. |
| Retrieval.RefineMalformedHit | semantic_recs.py:70 | If any hit is malformed, the call fails. The error names the first malformed hit in rank order, its position and its reason, and every earlier hit parses. |
| Retrieval.RefineParsedHits | semantic_recs.py:70-71 | When every hit parses, the result is `Select` over the hits' ISBNs, listed in rank order with one ISBN per hit. |
| Retrieval.StagesDrawFromJoin | semantic_recs.py:73-83 | The category, tone and head stages only drop and reorder joined rows. |
| Retrieval.SelectDrawsFromJoin | semantic_recs.py:71-89 | On both paths every returned row comes from the join, at most as often as the join holds it. |
| Retrieval.SelectBounded | semantic_recs.py:83-89 | For `final_top_k >= 0`, no more than `final_top_k` rows are returned, on either path. |
| Retrieval.SelectRowsMatchIsbns | semantic_recs.py:70-71 | Every returned row is a table row whose ISBN was among the hits. No row is repeated beyond its table multiplicity. |
| Retrieval.RefineRowsComeFromHits | semantic_recs.py:70-71 | Every returned row's ISBN is the parsed leading token of some hit. |
| Retrieval.SelectHonoursCategory | semantic_recs.py:73-74 | With a category other than empty or "All" and no fallback, every row is in that category. |
| Retrieval.ToneStageHonoured | semantic_recs.py:76-83 | The tone stage followed by `head` gives the top `final_top_k` positive rows by descending score. So every row scores positive, the rows are sorted by score, and they are drawn from the stage's input. |
| Retrieval.ToneStageIsTop | semantic_recs.py:79-83 | The tone stage followed by `head` is the head of a descending-score ordering of exactly the positive rows. |
| Retrieval.SelectHonoursTone | semantic_recs.py:76-83 | With a mapped tone whose column exists and no fallback, the rows are the top `final_top_k` rows of the category-filtered join that score positive, by descending score. |
| Retrieval.UnmappedToneIgnored | semantic_recs.py:76-78 | A tone that is unmapped, "All", or whose column is absent gives the same result as no tone. |
| Retrieval.DisturbingToneIgnored | semantic_recs.py:12-19 | Since "Disturbing" maps to `"digust"`, it gives the result of no tone on any table lacking that column. |
| Retrieval.MappedToneSelectsColumn | semantic_recs.py:76-78 | A tone in `tone_mapping` whose column exists filters and sorts on that column. |
| Retrieval.SelectFallback | semantic_recs.py:83-89 | The fallback warning is raised exactly when the filtered head is empty, and then the rows are the head of the unfiltered join. The result is non-empty whenever the join is and `final_top_k > 0`. |
| Retrieval.SelectEmptyExactly | semantic_recs.py:83-89 | The result is empty exactly when `head(final_top_k)` of the join is empty: no listed row, `final_top_k == 0`, or `final_top_k` negative enough to drop every listed row. |
| Retrieval.FallbackKeepsTableOrder | semantic_recs.py:89 | Fallback rows are table rows at strictly increasing table positions: the first `final_top_k` listed table rows, in table order, not in hit rank. |
| Retrieval.CategoryFilterOfJoin | semantic_recs.py:71-74 | Joining and then filtering by category selects the table rows that are listed and in the category. |
| Retrieval.JoinMatchesWithoutCategory | semantic_recs.py:71-73 | Without an active category the join alone selects the matching rows. |
| Retrieval.ByCategoryOfJoin | semantic_recs.py:71-74 | The join and category stages together are one mask over the table, in either case of the category. |
| Retrieval.SelectKeepsTableOrder | semantic_recs.py:71-83 | Without a tone column and outside the fallback, the rows are table rows at strictly increasing table positions: the first `final_top_k` matching table rows, in table order, not in hit rank. |
| Retrieval.SelectDependsOnIsbnSet | semantic_recs.py:70-71 | The selection depends only on which ISBNs were hit, not on their rank or repetition. |
| Captions.TruncateDescription | semantic_recs.py:105 | The truncated description always ends with "...". |
| Captions.TruncateDescriptionKeepsFirstWords | semantic_recs.py:103-105 | Before the ellipsis are exactly the first min(30, n) words, single-spaced. |
| Captions.FormatAuthors | semantic_recs.py:107-113 | The author list of a caption. `Captions.FormatSingleAuthor`, `Captions.FormatTwoAuthors`, `Captions.FormatManyAuthors` and `Captions.FormatAuthorsDropsQuotes` state its cases. |
| Captions.JoinNames | semantic_recs.py:108-111 | Two names or more joined as English. `Captions.FormatTwoAuthors` and `Captions.FormatManyAuthors` state the two forms. |
| Captions.FormatSingleAuthor | semantic_recs.py:107-113 | The author string is shown unchanged if and only if it holds no `"`. |
| Captions.FormatTwoAuthors | semantic_recs.py:108-109 | Two names become "A and B". |
| Captions.FormatManyAuthors | semantic_recs.py:110-111 | Three or more names become "A, B, and C". |
| Captions.FormatAuthorsDropsQuotes | semantic_recs.py:107-111 | Whenever the author string is split, no `"` survives in the formatted list. |
| Captions.Caption | semantic_recs.py:101-116 | A caption is built exactly when description and authors are present. A NaN description fails first, before the authors are looked at. |
| Captions.CollectTiles | semantic_recs.py:99-117 | Tiles succeed exactly when every row's caption does. There is then one tile per row, in order, with that row's large thumbnail and caption. |
| Captions.TilesFailAt | semantic_recs.py:101-117 | The first row whose caption fails decides the error of the whole list. |
| Captions.Tiles | semantic_recs.py:99-117 | The tiles of the returned rows with the real caption. `Captions.CollectTiles` and `Captions.TilesFailAt` state their contents and the first failure. |
| Captions.Gallery | semantic_recs.py:98-118 | `recommend_books` as a function: the exception of the retrieval, or its tiles. `Captions.RecommendBooks` is proved equal to it. |
| Captions.BuildTiles | semantic_recs.py:99-118 | The loop appends one tile per row, captioned by the given caption function, and stops at the first failing caption. It returns exactly `CollectTiles(rows, caption)`, the specification `Tiles` uses. |
| Captions.RecommendBooks | semantic_recs.py:93-118 | `recommend_books` is the gallery of `retrieve_semantic_recs` over the current process-wide dataframe with the default sizes, or its exception. |
| Captions.TileImagesAreLargeThumbnails | semantic_recs.py:117 | On a table whose thumbnails were derived at load, each tile's image is its own row's derived large thumbnail. |

## Left out

- The embedding model, the Qdrant connection and the similarity search (lines 26-29, 43-48, 63) are outside the model. The search is a function parameter, and nothing is assumed about its ranking.
- The loading of `tagged_description.txt` and its splitting into documents (lines 39-41) are left out. Their result is never used by the modelled functions.
- Reading `books_with_emotions.csv` (line 31) is left out. The table is given as a value.
- `st.warning` (lines 66, 86-88) is a UI side effect. It is modelled as the `Notice` returned with the rows.
- Line 33 is left out. Its column assignment is overwritten by lines 35-37 before it is ever read, so only the final value is modelled.
- The `categories` and `tones` lists (lines 120-121) only feed the UI's drop-downs and are left out.
- The `isinstance(query, str)` test at line 60 is left out, because queries are strings in the model.
- Retrieval.Score: emotion scores are modelled as integers rather than floating point. Only their order and sign matter to the code.
- Retrieval.SortByScore: the sort is one fixed order. How pandas orders ties is not modelled, and no lemma depends on it.
- PyText.ParseInt: `int()` also accepts non-ASCII Unicode decimal digits and surrounding whitespace. The first cannot occur in an ISBN token and the second never reaches `int()` after `split()`; neither is modelled. CPython 3.11 and later also raise ValueError in `int()` and `str()` on more than 4300 digits (`sys.int_info.default_max_str_digits`). The model accepts numerals of any length, so `PyText.ParseIntShowInt` holds for all integers, not only those below that limit.
- Books.Book: `isbn13` is an unbounded integer, not a 64-bit pandas column.
- Captions.Caption: a NaN title, which Python would render as `nan`, is not modelled, since titles are strings.
- The Streamlit and Gradio front ends (`app.py`, `gradio_dashboard.py`) and the index builder (`populate_qdrant.py`) are not part of this model.
