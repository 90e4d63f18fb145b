# reddit_image_downloader ingestion core in Dafny

This project models the part of `reddit_image_downloader` that turns zstd-compressed
Reddit dump files into batches of database rows. It also models the query builder
that produces the per-country search queries. It covers:

- `read_and_decode`. It decodes a block of decompressed bytes as UTF-8. On failure it
  re-reads with the undecodable bytes kept in front, until the text decodes or the
  byte counter passes a ceiling (`FrameDecoder`, `Utf8`).
- The `while True` loop of `load_data`. It calls `read_and_decode` with blocks of
  2**27 bytes and a ceiling of 2**30 until an empty chunk comes back. It splits the
  text at newlines, yields every terminated line stripped, and drops the unterminated
  tail (`FrameDecoder.DecodeChunks`, `LineFramer`, `Loader`).
- The loop body of `get_submissions` for one line (`Records`):
  - JSON parsing, with the parser as a parameter;
  - the `created_utc`, `id` and `subreddit` checks;
  - the first whole-word, case-insensitive hit of a query term, searching `title`
    before `selftext` and the terms in order;
  - the row built from the record.
- `get_submissions` over all files (`Ingestion`):
  - the two counters logged per file;
  - the buffer flushed to the database every `CHUNK_SIZE` = 1000 rows and at the end
    of a file;
  - the constructor's query parsing and archive listing.
- `create_query` of `src/clean_data.py` (`QueryBuilder`). It makes one entry per
  country, in order of first appearance. The entry's query is its city names and
  comma-separated local names, deduplicated, sorted and joined with `", "`.

The decompressed stream is a `Source`, the sequence of blocks successive
`read(chunk_size)` calls return. The database is an output sequence of batches. The
retry loop and the batching are proved for any decoder and any line classifier. The
decoder must have the properties the loop relies on (`FrameDecoder.Compositional`):
- the empty input decodes to the empty text;
- only the empty input does;
- decoding two decodable inputs one after the other is decoding their concatenation.

`Utf8.Decode` is shown to have them.

An error while decoding ends the whole run. `read_and_decode` raises `UnicodeError`
inside the `load_data` generator, and `get_submissions` iterates that generator
outside its `try`. Nothing catches the error, so `get_submissions` stops there:
- the rows still buffered for that file are never inserted;
- no counters are logged for it;
- later files are not opened.

`Ingestion.GetSubmissions` states this. Each retry of `read_and_decode` reads one
more block of the same size and keeps the undecoded bytes in front.

## Model

| member | source | states |
|---|---|---|
| Text.Split | src/data_loader.py:20 | `str.split(sep)` gives at least one piece, no piece holds the separator, and joining the pieces with it gives the input back |
| Text.SplitJoin | src/data_loader.py:155 | splitting a join of separator-free pieces gives those pieces back, so the split is the unique such decomposition |
| Text.SplitCount | src/data_loader.py:155 | there is one more piece than there are separators in the text |
| Text.Join | src/clean_data.py:34 | `", ".join`-style joining with a one-character separator that no part holds puts exactly one separator between neighbouring parts: one fewer than there are parts |
| Text.Strip | src/data_loader.py:158 | the result is a slice of the input with only whitespace (Python's `isspace` set) before and after it, has none at either end itself, and an already stripped string is left unchanged |
| Text.StripLeadingSpace | src/data_loader.py:20 | stripping whitespace put in front of a stripped string gives that string back |
| Text.LexTransitive | src/clean_data.py:34 | the code-point string order `sorted(..., key=str)` uses is transitive |
| Text.LexTotal | src/clean_data.py:34 | of two different strings one is smaller, so sorting a set gives a strict order |
| Text.LowerStr | src/data_loader.py:20 | `str.lower()` keeps the length, leaves no capital, and changes exactly the capitals, each to the letter 32 code points above it (`A` to `a`, `À` to `à`) |
| Utf8.EncodeDecode | src/data_loader.py:131 | whatever strict UTF-8 decoding accepts re-encodes to exactly its input: nothing dropped or invented |
| Utf8.Decode | src/data_loader.py:131 | a decoded text never has more characters than its bytes, and each character took at most four bytes |
| Utf8.DecodeEncode | src/data_loader.py:131 | the UTF-8 encoding of every string decodes back to that string |
| Utf8.DecodeAppend | src/data_loader.py:129-131 | two decodable byte strings decode, one after the other, to the decoding of their concatenation |
| FrameDecoder.Utf8Compositional | src/data_loader.py:131 | strict UTF-8 decoding has the properties the decoding loop relies on: the empty input decodes to the empty text and no other input does, and decoding is piecewise |
| FrameDecoder.ReadAndDecode | src/data_loader.py:123-142 | a call reads at least one block; every earlier attempt failed to decode; every retry was allowed by the ceiling; it returns text exactly when its last attempt decodes, and that text is the decoding of the carried bytes plus all blocks read; otherwise it raises with `bytes_read` past the ceiling |
| FrameDecoder.ReadsBounded | src/data_loader.py:127-136 | one call reads at most `max_window_size / chunk_size + 1` blocks, so the retry recursion is bounded |
| FrameDecoder.DecodedKeepsBytes | src/data_loader.py:126-131 | with a faithful decoder, a successful call's text re-encodes to exactly the bytes it read, in order |
| FrameDecoder.SplitCharacterRecovered | src/data_loader.py:128-142 | a character split across two blocks is decoded whole when the ceiling admits one retry |
| FrameDecoder.SplitCharacterExample | src/data_loader.py:123-142 | the blocks `52 C3` and `A9` decode to `"Ré"` after one retry |
| FrameDecoder.SplitCharacterNoRetry | src/data_loader.py:133-136 | with the ceiling below the block size, the same split character raises with `bytes_read` = 2 |
| FrameDecoder.DecodeChunks | src/data_loader.py:150-154 | the loop performs exactly the calls of `Calls`: it keeps each call's text until the first call that returns empty text or raises, and stops there. Its chunks are non-empty. The bytes up to that last call decode to their concatenation. A run that did not raise stopped at the end of the stream, and one that raised passed the ceiling |
| FrameDecoder.Calls | src/data_loader.py:150-154 | the sequence of calls `load_data` makes. Each kept text is non-empty, and together they decode the bytes read up to the last call. The last call raised with the reported `bytes_read`, or returned empty text after reading one block |
| FrameDecoder.FirstCall | src/data_loader.py:151 | a top-level call is `read_and_decode` with nothing carried and `bytes_read` 0. Its text is the decoding of exactly the blocks it read. A failed call's blocks do not decode, and its `bytes_read` passed the ceiling |
| LineFramer.FrameIsSplit | src/data_loader.py:155-160 | the streaming carry-over framing yields the same pieces as splitting the whole consumed text at once, all but the last; the carried fragment is the last piece |
| LineFramer.Frame | src/data_loader.py:155-160 | the `buffer` carry-over loop: neither a yielded piece nor the carried fragment holds a newline (its agreement with one split is `FrameIsSplit`) |
| LineFramer.FrameCount | src/data_loader.py:155-160 | one yielded piece per newline: the fragment after the last newline is never yielded |
| LineFramer.LoadLines | src/data_loader.py:157-158 | every yielded line is stripped and holds no newline |
| LineFramer.LoadLinesAreSplit | src/data_loader.py:150-160 | the lines are the stripped newline-separated pieces of the consumed text, all but the last, one per newline |
| LineFramer.LoadStopsAtEmpty | src/data_loader.py:153-154 | whatever follows the first empty chunk is never read |
| Loader.LoadData | src/data_loader.py:144-162 | `load_data` makes exactly the calls of `Calls` and stops at the first empty text or raise. It yields one line per newline of the decoded text, in order: the stripped newline-separated pieces, all but the last. A run that did not raise ended at the end of the stream; one that raised reported `bytes_read` above 2**30 |
| Records.Get | src/data_loader.py:56 | `obj.get(key, default)` is the stored value when the key is present and the default otherwise |
| Records.ParseShow | src/data_loader.py:75-76 | `int(str(n)) == n` for every integer |
| Records.ParseInt | src/data_loader.py:75-76 | `int(s)` succeeds only when, after trimming the whitespace `int()` skips (`str.isspace` characters other than U+001C to U+001F), what remains is digits after at most one `-` or `+`, with at least one digit; on a run of digits it gives their decimal value, and after a sign the negated or plain value |
| Records.LoneSignFails | src/data_loader.py:75-76 | `int("-")` and `int("+")` fail: a sign needs at least one digit after it |
| Records.SeparatorNotSkipped | src/data_loader.py:75-76 | a digit run led by one of U+001C to U+001F is stripped to the digits by `str.strip`, yet `int()` rejects it, because `int()` does not skip those four characters |
| Records.ToInt | src/data_loader.py:54-76 | `int(v)` succeeds exactly on an integer, a boolean, or a string `int()` parses; an integer is unchanged, `True` and `False` give 1 and 0, and a string gives what `int()` of the string gives |
| Records.Truthy | src/data_loader.py:56 | a JSON value is falsy exactly when it is null, false, 0, the empty string, the empty list or the empty object |
| Records.FindWord | src/data_loader.py:61-65 | the search returns the leftmost whole-word, case-insensitive occurrence at or after the start, or none when there is none |
| Records.SearchFindsWord | src/data_loader.py:61-65 | `re.search` succeeds exactly when the term occurs somewhere as a whole word |
| Records.FirstTerm | src/data_loader.py:60-69 | the inner loop picks the first term that occurs in the text, and no earlier term occurs |
| Records.SearchFrom | src/data_loader.py:59-71 | a hit is in the first field that has one, with the first matching term of that field. No hit means that no term occurs in either field. An error means the query is non-empty and some field is not text while every field before it missed |
| Records.Normalise | src/data_loader.py:73-93 | the row copies `id`, `created_utc`, `author`, `title`, `selftext`, `score`, `num_comments`, `subreddit`, `subreddit_id` and `url` with the source's defaults, with `image_name` None. It fails exactly when `int()` of `score` or `num_comments` fails or `subreddit_id` is missing |
| Records.ProcessLine | src/data_loader.py:51-100 | each outcome holds exactly when its conditions do. Skipped: the line does not parse to an object, fails the `created_utc`/`id`/`subreddit` checks, or the search raises. Unmatched: the checks pass and no term occurs. Accepted: the checks pass, a term hits and the row builds. Dropped: the same, but the row does not build. An accepted row carries the hit term and the normalised fields |
| Records.MatchedQueryIsATerm | src/data_loader.py:91 | `matched_query` is one of the query terms, and it occurs as a whole word in the row's title or body |
| Records.InvalidNeverCounted | src/data_loader.py:53-57 | an object without a truthy `id` or `subreddit`, or without an integer `created_utc`, is skipped: not counted and not buffered |
| Records.NoMatchNoRow | src/data_loader.py:59-73 | when no term occurs in either field, the line is not counted and no row is built |
| Records.WholeWordExample | src/data_loader.py:61-65 | `milano` matches `"Milano is beautiful"` regardless of case |
| Records.PartWordExample | src/data_loader.py:61-65 | `milano` does not match inside `"Milanofoo"` |
| Ingestion.ParseQuery | src/data_loader.py:20 | term `k` is piece `k` of the query split at commas, lower-cased and then stripped, in order; so there is one term per comma plus one, each stripped and free of commas |
| Ingestion.ParseQueryExample | src/data_loader.py:19-20 | the sample `"Rome, Roma"` parses to `["rome", "roma"]` |
| Ingestion.ArchiveNames | src/data_loader.py:21-23 | exactly the listed names ending in `.zst` are kept |
| Ingestion.ArchiveNamesAppend | src/data_loader.py:21-23 | the filter keeps the listing order: filtering a concatenation is concatenating the filtered parts, and one name is kept exactly when it ends in `.zst` |
| Ingestion.StepKeeps | src/data_loader.py:95-97 | one line counts once and counts a match at most once; no row is lost or invented between buffer and flushed batches; the buffer stays below `CHUNK_SIZE`; only full batches are flushed |
| Ingestion.Step | src/data_loader.py:49-97 | one line adds one to the line count. It flushes at most one batch, and earlier batches are untouched. A flushed batch is the whole buffer with this line's row, at least `n` rows, and leaves the buffer empty |
| Ingestion.Feed | src/data_loader.py:48-100 | the line loop counts every line and only appends batches |
| Ingestion.Finish | src/data_loader.py:102-103 | the final flush adds at most one batch, and only a non-empty one. Together the batches hold the flushed rows followed by the buffer |
| Ingestion.BatchesShape | src/data_loader.py:95-103 | the reference batching covers the rows in order, and every batch holds 1 to `n` rows, all but the last exactly `n` |
| Ingestion.BatchesCount | src/data_loader.py:95-103 | there are `ceil(rows / n)` batches |
| Ingestion.BatchesExample | src/constants.py:2 | 2500 rows go to the database as 1000, 1000 and 500 |
| Ingestion.FeedBatches | src/data_loader.py:48-103 | the line loop followed by the final flush sends exactly the reference batches of the rows |
| Ingestion.FeedCounters | src/data_loader.py:41-67 | `total_submissions` counts every line and `matched_submissions` every counted match; there are no more rows than matches and no more matches than lines |
| Ingestion.FeedInvariant | src/data_loader.py:95-97 | between lines the buffer holds fewer than `n` rows, every flushed batch holds `n`, and flushed rows plus buffer are all rows so far |
| Ingestion.ReportCounts | src/data_loader.py:105-106 | the logged totals are the number of lines and of matched lines, and the rows inserted are at most the matches |
| Ingestion.RowsCarryATerm | src/data_loader.py:91 | every row a file sends has one of the query terms as `matched_query` |
| Ingestion.FileBatchesComplete | src/data_loader.py:95-103 | a file that decoded to the end inserts all its rows, `n` per call and one call for the remainder |
| Ingestion.FileBatchesAborted | src/data_loader.py:48-97 | a file whose decoding raised inserted only full batches; the `rows % n` rows still buffered are lost |
| Ingestion.SessionBatchesBounded | src/data_loader.py:95-103 | every database call of a run gets between 1 and `CHUNK_SIZE` rows |
| Ingestion.SessionRows | src/data_loader.py:40-103 | when no file raises, the database receives exactly the rows of every file, file by file and line by line |
| Ingestion.Reports | src/data_loader.py:105-106 | figures are logged for every file opened except one that raised |
| Ingestion.GetSubmissions | src/data_loader.py:37-107 | files are processed in order; each one's lines are what `load_data` yields; only the last file opened can have raised, and if not all files were opened, it did; the batches are each file's batches in order: its full batches, then its remainder unless it raised |
| Ingestion.RunWith | src/data_loader.py:40-48 | the loop over files, for any decoder the decoding loop accepts, with the same guarantees |
| QueryBuilder.Unique | src/clean_data.py:14 | `drop_duplicates` and `unique` keep every element once and invent none |
| QueryBuilder.UniqueOrder | src/clean_data.py:19 | deduplicated elements stay in the order of their first occurrence |
| QueryBuilder.DropMissing | src/clean_data.py:15 | exactly the rows with a country and a city name remain |
| QueryBuilder.DropMissingAppend | src/clean_data.py:15 | `dropna` keeps the row order: dropping from a concatenation is concatenating what each part keeps, and one row is kept exactly when it is complete |
| QueryBuilder.Prepared | src/clean_data.py:14-15 | the working rows are the input's complete rows, each once |
| QueryBuilder.PreparedOrder | src/clean_data.py:14-15 | the working rows stand in the order of their first appearance in the input |
| QueryBuilder.Countries | src/clean_data.py:19 | the countries are distinct, and they are exactly those with a complete row |
| QueryBuilder.CountriesInFirstOrder | src/clean_data.py:14-19 | the countries follow the order of their first appearance among the input's complete rows |
| QueryBuilder.CountriesFromInput | src/clean_data.py:14-19 | deduplicating before or after dropping incomplete rows gives the same countries: they are the distinct countries of the input's complete rows |
| QueryBuilder.Cities | src/clean_data.py:20-21 | the city names listed for a country are exactly those of its rows |
| QueryBuilder.Pieces | src/clean_data.py:25-32 | the local names of a cell are its comma-separated pieces, stripped, without the empty ones |
| QueryBuilder.LocalNamesMembers | src/clean_data.py:24-32 | a local name of a country is a piece of one of its rows' local-name cells, and every such piece is one |
| QueryBuilder.SortedSet | src/clean_data.py:34 | `sorted(set(xs), key=str)` is strictly increasing and holds exactly the elements of `xs` |
| QueryBuilder.SortedListingUnique | src/clean_data.py:34 | two strictly sorted listings of the same set are equal, so the sorted set is unique |
| QueryBuilder.CreateQuery | src/clean_data.py:10-41 | the output has one entry per country |
| QueryBuilder.CreateQueryTerms | src/clean_data.py:20-36 | entry k is for the k-th country, and its query is the `", "`-join of strictly increasing terms that are exactly the city names and non-empty stripped local-name pieces of that country's complete rows |
| QueryBuilder.CreateQueryCountries | src/clean_data.py:18-37 | entries follow the country order; no country appears twice; a country has an entry exactly when it has a complete row |
| QueryBuilder.TermsAreNames | src/clean_data.py:20-34 | a query term is a city name or a local-name piece of the country, and every one of those is a term |
| QueryBuilder.TermsSorted | src/clean_data.py:34 | the terms are strictly increasing, so no term repeats |
| QueryBuilder.QueryRoundTrip | src/clean_data.py:34 | parsing a `", "`-joined query of comma-free, stripped terms gives back the terms, lower-cased and in order |
| QueryBuilder.CreateQueryRoundTrip | src/clean_data.py:34-36 | a country's written query, parsed as the loader does, is its terms lower-cased, provided no city name holds a comma or surrounding whitespace |

## Left out

- File system, zstd decompression and `file_handle.tell()`. A file's decompressed contents are the blocks successive reads return (`Source`). The byte offset yielded beside each line is not modelled, because nothing uses it.
- The 2**31 maximum window passed to the zstd reader. It is a decompressor setting outside the decoding logic.
- `json.loads` is a parameter (`Parser`). JSON floats are not modelled, so `int()` of a float is out of scope.
- `datetime.fromtimestamp(...).date()`. The row keeps the integer `created_utc` that the date is computed from. Range errors of `fromtimestamp` are not modelled.
- Records.ParseInt: Python's `int()` also accepts `_` between digits and non-ASCII decimal digits; the model accepts only ASCII digits with an optional sign and surrounding whitespace.
- Ingestion.ParseQuery: `str.lower()` is modelled for ASCII and the Latin-1 capitals only (`Text.Lower`). Python also lowers other scripts, such as Greek and Cyrillic, and a few capitals whose lower case is two characters; the model leaves those characters as they are.
- Text.LowerStr: the same restriction. It lowers only `A`-`Z` and `À`-`Þ` (without `×`).
- Records.FindWord: `\w` is approximated (ASCII letters, digits and `_`, the Latin-1 letters, and every character from U+0100 that is not whitespace or general punctuation), and `re.IGNORECASE` is approximated by lower-casing ASCII and Latin-1 letters.
- The database. `insert_data_chunk_to_db` is the output batch sequence. Insert failures are logged and swallowed by the source, so they do not change what is handed over. Table creation is left out.
- Logging. The figures `get_submissions` logs are `Ingestion.Reports` of its result.
- `os.listdir` order. The files are taken in the order given.
- pandas CSV reading and writing in `create_query`. A cell pandas reads as missing is `None`, and `str()` of non-string city names is not modelled, since names are strings.
- QueryBuilder.CreateQueryRoundTrip: requires city names without commas or surrounding whitespace. `create_query` writes city names unchanged, so a name like `"Washington, D.C."` would not parse back as one term.
- `get_imgs`, `stats`, `db_config` and the `main` scripts are not part of this model.
