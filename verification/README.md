# Book search: document shaping, fuzzy query construction, result post-processing

This project models, in Dafny, the logic that the `LuceneSearch` class of the
book-search example implements itself. Lucene does the tokenising, indexing,
fuzzy matching and scoring. The class does four things around those calls:

- **Document shaping.** A book becomes a document with four fields: `id`, `title`, `author` and `tags`.
  - The id is written as decimal text. It is stored and indexed as a single term.
  - The other three fields are stored and analyzed.
  - The tags field is built by appending `tag + ", "` for every tag. A `null` tag list gives `""`.
- **Fuzzy query construction.** The search text is lower-cased and has its diacritics removed.
  - It is then trimmed and split on single spaces. Empty pieces are kept.
  - A phrase becomes a boolean query with one MUST fuzzy clause per piece. A single word becomes one fuzzy term.
  - This per-field query is built for title, author and tags, with similarities 0.7/0.7/0.9 and boosts 1.0/0.9/0.5. The three are combined as SHOULD clauses.
  - Queries are plain data: `Fuzzy(field, text, minSimilarity, boost)` and `Boolean(clauses, boost)`. Similarities and boosts are in tenths.
- **Result post-processing.** The search keeps the first 100 ranked hits.
  - Each hit's `id` field is converted back with `Convert.ToInt32`.
  - Repeated ids are dropped, keeping the first occurrence.
  - Each id resolves to the first book with that id. Ids that match no book are skipped.
  - The answer is `null` when there were no hits, and a (possibly empty) list otherwise.
- **Index building.** One document is written per book, in list order.

Modules:

- `Common` (common.dfy): `Option` stands for a .NET `null`, and `Result` for a thrown exception.
- `Text` (text.dfy): `String.Trim()` with .NET's `char.IsWhiteSpace`, `String.Split(' ')`, `String.Join`, and `String.ToLower()`.
- `Numbers` (numbers.dfy): `int.ToString()` and `Convert.ToInt32(string)`, including `null` → 0 and the format and overflow errors.
- `Books` (books.dfy): the `Book` and `Author` records, and the three fixture books.
- `Documents` (documents.dfy): fields, documents, the tags text, `CreateDocument`, `Document.Get` and index building.
- `Queries` (queries.dfy): the query tree, `QueryTerm` and the fuzzy branch of `CreateBooksQuery`.
- `Search` (search.dfy): hit-id conversion, `Distinct()`, id-to-book resolution, and the null/empty answer.
- `Fixtures` (fixtures.dfy): concrete cases built from the fixture books and sample queries.

Some collaborators are not visible, so the model takes them as parameters:

- `TextUtil.RemoveDiacritics` is a `string -> string` parameter of `FuzzyBooksQuery`.
- Lucene's ranking is the `ranked` document sequence passed to `SearchBooks`.

Points of behaviour that the model follows exactly:

- The query is split on the single character `' '` only, and empty pieces between consecutive spaces are kept.
- A blank query becomes a fuzzy term on `""`, not an error.
- Results come in the order of Lucene's ranking; the code does not re-sort them.
- The answer for no hits is `null`; for hits whose ids match no book it is an empty list.
- Tags are kept in list order.

## Model

| member | source | states |
|---|---|---|
| Documents.AppendTagsLength | LuceneExample/Model/LuceneSearch.cs:110-118 | the tags text is exactly as long as the sum over the tags of their length plus 2 for the ", " separator |
| Documents.TagAt | LuceneExample/Model/LuceneSearch.cs:114-117 | every tag appears in the tags text in list order: tag k starts where the text of the first k tags ends, and ", " follows it |
| Documents.TagsText | LuceneExample/Model/LuceneSearch.cs:110-118 | a null tag list gives the empty tags text |
| Documents.BuildTagsText | LuceneExample/Model/LuceneSearch.cs:110-118 | the string-builder loop produces the tags text, whose length is the sum of tag lengths plus 2 per tag |
| Documents.GetFirst | LuceneExample/Model/LuceneSearch.cs:172 | reading a field by name gives null exactly when no field has that name, and otherwise the value of the first field that has it |
| Documents.CreateDocument | LuceneExample/Model/LuceneSearch.cs:121-127 | a book's document has exactly four fields, named id, title, author, tags in that order; id is stored and not analyzed, the other three are stored and analyzed |
| Documents.DocumentFieldsRoundTrip | LuceneExample/Model/LuceneSearch.cs:124-127 | reading the document back gives the book's title, its author's name and its tags text, and converting the id field back to an int gives the book's id |
| Documents.CreateIndex | LuceneExample/Model/LuceneSearch.cs:72-79 | index building writes one document per book, the document of book i at position i |
| Numbers.DigitsRoundTrip | LuceneExample/Model/LuceneSearch.cs:124 | reading the decimal digits of a natural number gives the number back |
| Numbers.FormatInt | LuceneExample/Model/LuceneSearch.cs:124 | an id's text starts with '-' exactly when the id is negative, and is otherwise all digits |
| Numbers.ToInt32 | LuceneExample/Model/LuceneSearch.cs:172 | converting a missing (null) id field gives 0 |
| Numbers.FormatParseRoundTrip | LuceneExample/Model/LuceneSearch.cs:172 | converting the text of an int back with Convert.ToInt32 succeeds and gives the same int |
| Numbers.FormatInjective | LuceneExample/Model/LuceneSearch.cs:124 | two ids with the same text are the same id |
| Text.TrimBy | LuceneExample/Model/LuceneSearch.cs:249 | the trimmed text is a contiguous part of the input whose dropped prefix and suffix are white space and whose ends are not |
| Text.TrimUnique | LuceneExample/Model/LuceneSearch.cs:249 | exactly one string meets the definition of trimming, so Trim is fully determined by it |
| Text.TrimIdempotent | LuceneExample/Model/LuceneSearch.cs:249 | as a general property of the trimming used there, for any notion of white space: trimming a second time changes nothing |
| Text.SplitCount | LuceneExample/Model/LuceneSearch.cs:249 | splitting on ' ' yields one piece more than there are spaces, so empty pieces between consecutive spaces are kept |
| Text.SplitPiecesHaveNoSeparator | LuceneExample/Model/LuceneSearch.cs:249 | no piece of a split contains the separator |
| Text.JoinSplit | LuceneExample/Model/LuceneSearch.cs:249 | joining the pieces of a split with the separator gives the original string back |
| Text.SplitJoin | LuceneExample/Model/LuceneSearch.cs:249 | splitting a join of separator-free pieces gives the pieces back |
| Text.LowerKeepsSpaces | LuceneExample/Model/LuceneSearch.cs:257 | lower-casing neither creates nor removes a space or any white space character |
| Queries.WithBoost | LuceneExample/Model/LuceneSearch.cs:212 | setting a query's boost changes only the top node's boost, not its field, text, similarity, clauses or pieces |
| Queries.QueryTerm | LuceneExample/Model/LuceneSearch.cs:247-269 | the result is a boolean query exactly when the trimmed query holds a space, and then has one clause per space plus one, each a MUST fuzzy term on the given field and similarity; otherwise it is a single fuzzy term on the trimmed query; no piece contains a space |
| Queries.QueryTermPiecesUnique | LuceneExample/Model/LuceneSearch.cs:249-266 | any non-empty list of space-free texts that, joined with spaces, spells the trimmed query (lower-cased when it holds a space) is exactly what the per-field query searches for, and the query is then fixed: one MUST fuzzy clause per text for a phrase, one fuzzy term otherwise; with the no-space ensures of QueryTerm and QueryTermRoundTrip, the searched texts are the only such list |
| Queries.QueryTermRoundTrip | LuceneExample/Model/LuceneSearch.cs:249-265 | joining the texts a per-field query searches for with spaces gives the trimmed query (lower-cased for a phrase): nothing is lost, reordered or invented |
| Queries.FieldClause | LuceneExample/Model/LuceneSearch.cs:211-221 | each of the three sub-queries is a SHOULD clause on its field with its similarity and boost, searching for the pieces of the normalized text |
| Queries.FuzzyBooksQuery | LuceneExample/Model/LuceneSearch.cs:202-223 | the fuzzy query is an OR of exactly three SHOULD clauses, title then author then tags, with similarities 7, 7, 9 and boosts 10, 9, 5 tenths, all built from RemoveDiacritics(lower(searchTerm)) and all searching for the same pieces |
| Queries.FuzzyBooksQueryPieces | LuceneExample/Model/LuceneSearch.cs:207-221 | in every field the searched pieces, joined with spaces, spell the trimmed normalized search text |
| Search.Distinct | LuceneExample/Model/LuceneSearch.cs:174 | the distinct id list has no repeats, holds exactly the ids of the hits, and is no longer than the hit list |
| Search.DistinctKeepsFirstOccurrenceOrder | LuceneExample/Model/LuceneSearch.cs:174 | distinct ids come in the order of their first occurrence among the hits |
| Search.DistinctUnique | LuceneExample/Model/LuceneSearch.cs:174 | any repeat-free list holding exactly the hit ids in first-occurrence order is the distinct list |
| Search.DistinctIds | LuceneExample/Model/LuceneSearch.cs:174 | the seen-set iteration of Distinct() produces the distinct list |
| Search.FindBook | LuceneExample/Model/LuceneSearch.cs:183 | the lookup finds nothing exactly when no book has the id, and otherwise a book of the list with that id that no earlier book's id matches |
| Search.FirstBookIndex | LuceneExample/Model/LuceneSearch.cs:183 | the book found is the first with the id: no earlier book has it |
| Search.Resolve | LuceneExample/Model/LuceneSearch.cs:179-186 | resolution yields at most one book per id, each taken from the book list and having one of the ids |
| Search.ResolveIds | LuceneExample/Model/LuceneSearch.cs:179-188 | the resolved books' ids are the known ids in their original order: unknown ids are skipped and nothing is reordered |
| Search.ResolveAllKnown | LuceneExample/Model/LuceneSearch.cs:181-186 | when every id is known, the resolved list is as long as the id list |
| Search.ResolveUnique | LuceneExample/Model/LuceneSearch.cs:183-185 | with unique book ids, every book whose id is among the ids is in the resolved list |
| Search.ResolveAppend | LuceneExample/Model/LuceneSearch.cs:181-186 | each further id adds, at the end, the first book with that id, or nothing when no book has it |
| Search.ResolveLoop | LuceneExample/Model/LuceneSearch.cs:179-188 | the foreach loop over the ids, appending each book found, produces the resolved list |
| Search.ResolveFirstBooks | LuceneExample/Model/LuceneSearch.cs:181-186 | the resolved list holds, for each known id in id order, exactly the first book with that id |
| Search.Answer | LuceneExample/Model/LuceneSearch.cs:177-192 | the answer is null exactly when the id list is empty, and otherwise a list whose ids are the known ids in order |
| Search.AnswerUnknownIds | LuceneExample/Model/LuceneSearch.cs:177-192 | a non-empty id list none of whose ids matches a book gives an empty list, not null |
| Search.ConvertAllEach | LuceneExample/Model/LuceneSearch.cs:172-174 | converting the hit ids succeeds exactly when every hit's id converts, giving the ids in hit order, and otherwise fails with the error of the first hit that does not convert |
| Search.SearchBooks | LuceneExample/Model/LuceneSearch.cs:167-192 | a search that does not throw answers null exactly when there were no hits, and never returns more than 100 books |
| Search.HitIdsOfDocuments | LuceneExample/Model/LuceneSearch.cs:172 | the ids read back from the documents of some books are those books' ids, in order |
| Search.SearchOverIndex | LuceneExample/Model/LuceneSearch.cs:167-192 | searching an index built from the book list never throws; it answers null exactly when nothing was hit, and otherwise gives one book per distinct id among the first 100 hits, in first-hit order |
| Fixtures.FixtureIdsAreUnique | LuceneExample/Model/LuceneSearch.cs:36-53 | the three fixture books have distinct ids |
| Fixtures.FixtureTagsText | LuceneExample/Model/LuceneSearch.cs:39-49 | the tags text of "O Código da Vinci" is "código, da vinci, ", that of "Pet Sematary" is "pet, sematary, ramones, ", and a null tag list gives "" |
| Fixtures.FixtureDocument | LuceneExample/Model/LuceneSearch.cs:43-45 | the document of "O Iluminado" is id "2", its title, "Stephen King", and "iluminado, stanley kubrick, " |
| Fixtures.TwoWordQuery | LuceneExample/Model/LuceneSearch.cs:207-213 | "Stephen King" becomes, on the title, MUST fuzzy terms "stephen" and "king" with similarity 7 and boost 10 |
| Fixtures.DoubledSpaceQuery | LuceneExample/Model/LuceneSearch.cs:249-258 | "pet  sematary" searches for "pet", "" and "sematary" |
| Fixtures.BlankQuery | LuceneExample/Model/LuceneSearch.cs:263-266 | a blank query becomes a fuzzy term on "" |
| Fixtures.RepeatedHits | LuceneExample/Model/LuceneSearch.cs:172-188 | hits on books 2, 3, 2 give "O Iluminado" then "Pet Sematary" |
| Fixtures.NullVersusEmpty | LuceneExample/Model/LuceneSearch.cs:177-192 | no hits give null; a hit whose id matches no fixture book gives an empty list |

## Left out

- Lucene itself is left out: index writing and reading (`CreateIndex`'s writer, `CreateLuceneIndexWriter`, `FSDirectory.Open`, `IndexSearcher`, `Optimize`). Those are file I/O and foreign library calls. Index building is modelled only as the list of documents written.
- Analysis is left out: the `CustomAnalyzer` chain of tokenizer, ASCII folding and lower-case filters. Its behaviour lives in the library.
- Matching and ranking are left out: fuzzy edit-distance matching, relevance scoring and `Sort.RELEVANCE`. The query is modelled as data only, and the ranking is an input to `SearchBooks`.
- The exact-mode branch of `CreateBooksQuery` (lines 227-236) is left out. It is the library's classic query parser.
- `TextUtil.RemoveDiacritics` is not part of this model. Its code is not available, so it is an arbitrary `string -> string` parameter.
- Text.LowerChar maps only ASCII `A`-`Z` and the Latin-1 capitals U+00C0-U+00DE (except U+00D7), as the culture-invariant mapping does. Case mappings of other scripts and culture-specific rules such as the Turkish dotted I are not modelled.
- Numbers.ParseInt32 accepts white space U+0009-U+000D and U+0020 at either end and a `+` or `-` sign. Trailing NUL characters and culture-specific sign symbols are not modelled. The documents the model builds never contain them.
- Documents.CreateDocument takes the title, the author and its name as non-null strings. A `null` there makes the source throw, and that exception is not modelled. A `null` element inside the tag list, which would append just ", ", is not modelled either.
- Queries.QueryTerm does not model `FuzzyQuery`'s check that the similarity is below 1.0. The only similarities used are 0.7 and 0.9.
- Similarities and boosts are `float` in the source (`0.7f`, `0.9f`, `0.5f`, ...). The model writes them as whole tenths that name those literals. No arithmetic is done on them, and the binary-float values (`0.7f` is not exactly 7/10) are not modelled.
- Queries.QueryTerm does not model Lucene's `BooleanQuery.MaxClauseCount` limit. That limit is 1024 by default. `BooleanQuery.Add` throws `TooManyClauses` when the query already holds that many clauses, so a trimmed search text with 1024 or more spaces makes the search throw. The model instead returns a boolean query with one clause per piece. The limit belongs to the library, whose code is not part of this model.
- Strings are Dafny strings, sequences of Unicode scalar values, and a .NET string is a sequence of UTF-16 code units. Lone surrogates cannot be represented. A character outside the Basic Multilingual Plane counts once in `|s|` and twice in `String.Length`, so the lengths in Documents.AppendTagsLength and Documents.BuildTagsText count characters, not UTF-16 code units.
- Numbers.FormatInt always writes `'-'` for a negative id. `int.ToString()` uses the current culture's `NegativeSign`, and cultures whose sign is not `'-'` are not modelled. The fixture ids are all positive.
- The `bookIds != null` condition at line 177 is always true, because `ToList()` never returns `null`. Only the count condition is modelled.
- `Form1.cs` (the WinForms window) and the executable-path lookup in the constructor are left out as UI and environment. `Book.cs` is mirrored as the `Book` and `Author` datatypes; it holds no logic.
