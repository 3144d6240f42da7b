# A verified model of fsspec-db

fsspec-db shows a SQL database as a file system: schemas and relations are directories, a relation read as
`/schema/relation.parquet` is a query encoded as a file, and a write to such a path is an insert. This
project models the parts of it that carry their own state, loops or grammar, in Dafny, and proves what they
promise.

| file | what it models |
|---|---|
| `QueryStream.dfy` | the worker thread, its two channels of capacity one and the consumer, as a step relation; and the worker's row loop |
| `TypeInference.dfy`, `DecodedValues.dfy` | how a chunk of rows becomes typed columns, for SQLite, Postgres and MySQL, and what the columns hold |
| `EncodedFile.dfy`, `PlainFile.dfy`, `RangeRead.dfy` | the lazily encoded file and the one that holds its bytes, with `read`, `seek` and `cat_file`, against a plain byte array |
| `Introspection.dfy`, `CachedFs.dfy`, `CacheRecency.dfy`, `StaleCommits.dfy` | the LRU cache with its map and queue, the cached `ls`/`info`, and runs of calls |
| `Utf8.dfy`, `Text.dfy`, `QueryText.dfy`, `Paths.dfy`, `PathRoundTrip.dfy`, `PathNames.dfy` | the path grammar, its printer and its fixed words |
| `PythonPaths.dfy`, `ParserAgreement.dfy` | the Python adapter's own parser, compared with the Rust one |
| `Tree.dfy`, `TreeItems.dfy`, `Listings.dfy` | `ls_db` and `info_db` over the answers of a database, and exactly what they give |
| `SqlText.dfy`, `InsertStatement.dfy`, `StatementText.dfy`, `Decimal.dfy` | SQL texts and readers for them |
| `CopyCsv.dfy` | COPY text and a reader for it |
| `InsertTransaction.dfy` | the insert of a stream of batches, in one transaction |
| `WriteHandles.dfy` | the three write handles, as one machine |
| `Wrappers.dfy` | shared option, result and machine integer types |

Every printer has a reader written from the rules of the text's consumer, never from the printer: section 5.2
of SQL-92 for delimited identifiers, section 2 of RFC 4180 for CSV, section 5.2 of the WHATWG URL Standard for
query text. What such a reader cannot tell apart from its printer, such as the endings of data files, the types of
columns or the entries of a directory, is stated with the words written out. Imperative code is a class or a method with loops and is tied by its contract to a function on
values; the properties are lemmas about those functions.

Where the code does not keep a property for every input, the property is stated with the exact condition under
which it does, and a lemma names an input that breaks it:

* `PathRoundTrip.PathRoundTrip`: printing and parsing a path is the identity exactly for well-formed paths.
* `Tree.SchemaIsCoherentIff`, `Tree.RelationIsCoherentIff` (`Tree.RelationIsCoherentIffFound` where the database takes
  several names for one), `TreeItems.ItemIsCoherentIff`: which names lead back from a listing. A relation with a known format's ending, such as `a.csv`, is listed as a directory and looked up as a file
  (`Tree.FormatEndingBreaksListing`); one with the empty name makes its schema list itself for ever
  (`Tree.EmptyNameWalksForever`).
* `Tree.RelationEntryIsItsInfoIff`: when a listed relation is the very entry that looking it up gives. In SQLite it is
  so for views and for no table, whose rows are counted only when it is looked up (`Tree.SqliteTableDiffersIff`).
* `StaleCommits.CommitLeavesStaleIff`: when the call after the commit of a write handle gets a stale answer
  (`CachedFs.HandleCommitLeavesStaleInfo`).
* `TypeInference.SqliteTypeKeptIff`: when a later chunk of an SQLite query keeps the announced column type
  (`TypeInference.SqliteTypeMayChange`).
* `ParserAgreement.ParsersAgreeIff`: when the two path parsers agree, on paths with or without a slash in front, fragments
  and scheme marks included (`PythonPaths.DoubleSlashDisagrees`, `PythonPaths.FragmentDisagrees`,
  `PythonPaths.SchemeDisagrees`). Where a `://` follows a `#`, `PythonPaths.AgreeIffSame` is the condition, and the
  parsers may agree again (`ParserAgreement.BothMarksMayAgree`).

Functions such as the codec, the database behind the file system and the driver's decoding are parameters, so
the statements hold for any of them. A clock reading is an argument of the call that takes it.

## Model

| member | source | states |
|---|---|---|
| QueryStream.RowsArriveInOrder | rust/src/sqlite.rs:617-688 | On every interleaving, the rows received so far are a prefix of the query's rows, even if the reader is dropped. |
| QueryStream.ReadsEverything | rust/src/sqlite.rs:626-669 | A consumer that reads to the end gets every row, in batches of exactly 1024 and a last one of 1 to 1024, one empty batch for no rows; an error reaches it exactly when the database had one. |
| QueryStream.OneErrorAfterAllBatches | rust/src/sqlite.rs:588-614 | At most one error arrives, after every earlier batch and at a multiple of 1024 rows, in place of the schema exactly when no batch was sent, and never one about a closed channel. |
| QueryStream.ErrorSaysWhatFailed | rust/src/sqlite.rs:626-688 | The error names what went wrong: after n batches, whose chunks of 1024 rows all decode, the next chunk does not decode, or the row stream broke within it, or there were no rows and the statement could not be described. |
| QueryStream.OneSchema | rust/src/postgres.rs:645-751 | A reader is handed out only with the schema of the first batch (or of the statement, if there are no rows); by its exit the worker has put exactly one message on the schema channel, and never a second. |
| QueryStream.NeverWaitsForAConnection | rust/src/sqlite.rs:650-656 | The worker asks for a connection only while it holds none, so a pool of one always serves it. |
| QueryStream.NeverStuck | rust/src/sqlite.rs:582-615 | In every reachable state that is not finished, the worker can step or the consumer can receive. |
| QueryStream.RunsAreBounded | rust/src/mysql.rs:533-604 | Every run is finite, with a bound linear in the number of rows. |
| QueryStream.DropStopsWorker | rust/src/sqlite.rs:641-647 | After a drop the worker sends nothing more, reads at most to the end of its chunk, can always step until it exits, and gives its connection back. |
| QueryStream.SettledDelivers | rust/src/database.rs:23-33 | A consumer that is done has received exactly the batches and the failure that the query owed, and all rows if there was no fault. |
| QueryStream.StepSound | rust/src/sqlite.rs:617-688 | Each step of worker or consumer keeps the invariant and never takes back or reorders what is delivered, in flight and still to come. |
| QueryStream.OwedSizes | rust/src/sqlite.rs:638-643 | All batches owed before a failure are full; without one only the last may be short. |
| QueryStream.FaultlessFrom | rust/src/sqlite.rs:672-688 | No failure is owed exactly when the row stream ends cleanly, every chunk decodes, and the statement can be described if there are no rows. |
| QueryStream.SendRows | rust/src/sqlite.rs:632-649 | The row loop sends the full batches owed, in order, announces the schema of the first, and keeps the rest as its chunk. |
| QueryStream.StreamWorker | rust/src/postgres.rs:680-733 | The whole worker, with a consumer that takes every message, sends exactly the batches and the failure owed. |
| EncodedFile.EncodedDbFile.constructor | rust/src/stream.rs:91-105 | A new file stands at the start of the complete encoding. |
| EncodedFile.EncodedDbFile.DrainSink | rust/src/stream.rs:107-110 | The sink is moved behind the buffer and emptied. |
| EncodedFile.EncodedDbFile.FillUntil | rust/src/stream.rs:112-128 | The buffer grows along the encoding up to the target or the end, pulls no batch that was not needed, and fails only by meeting a fault of the reader or the writer. |
| EncodedFile.EncodedDbFile.Read | rust/src/stream.rs:131-149 | A read is the read of the eager file; a failed one has met a fault, and changes neither the position nor the buffer. |
| EncodedFile.EncodedDbFile.Seek | rust/src/stream.rs:164-180 | A seek lands where the eager file's would, is refused exactly where it would be, and moves nothing when it fails. |
| EncodedFile.EncodedDbFile.Size | rust/src/stream.rs:193-195 | The size is reported once everything is encoded, and is then exact. |
| EncodedFile.Perform | rust/src/stream.rs:131-180 | One operation on the lazy file is one step of the eager file, or a failure without effect. |
| EncodedFile.Replay | rust/src/stream.rs:112-180 | Any sequence of reads and seeks answers as the eager file does; with no fault ahead nothing fails. |
| EncodedFile.UnfailedRunIsEager | rust/src/stream.rs:112-180 | The eager answers are the only ones an unfailed run can give. |
| EncodedFile.EncodingIsWritten | rust/src/stream.rs:67-77 | The complete encoding is what has been written after any number of batches and what is still to be written. |
| EncodedFile.EncodingOfBatches | rust/src/stream.rs:67-77 | The encoding of a file without faults is the header, what the writer puts out for each batch in order, and what finishing it adds. |
| PlainFile.DbFile.Read | rust/src/file.rs:21-25 | A read of the file that holds its bytes is the read of the eager file. |
| PlainFile.DbFile.Seek | rust/src/file.rs:43-47 | A seek lands or is refused as in the eager file. |
| RangeRead.MaterializedIsPython | rust/src/fs.rs:611-627 | Slicing the materialised bytes is Python's slice, for all signed bounds. |
| RangeRead.SeekAndTakeIsPython | rust/src/fs.rs:405-425 | What the seek-and-take branch has to read is the same slice. |
| RangeRead.SliceKeeps | fsspec_db/python.py:133-135 | The slice has exactly the bytes from the start on and before the end, negative bounds counted from the end, in their order. |
| RangeRead.ReadToEnd | rust/src/fs.rs:417-424 | Reading to the end through buffers of any size gives what is left of the encoding, cut at the limit. |
| RangeRead.CatFile | rust/src/fs.rs:398-426 | For every readable file, encoded or plain, and all optional signed bounds, `cat_file` is the Python slice of its whole content, as in fsspec_db/python.py:133-135. |
| Introspection.IntrospectionCache.Get | rust/src/fs.rs:72-87 | A lookup on map and queue is the lookup on the list of slots: a fresh entry moves to the back with its age, an expired one goes. |
| Introspection.IntrospectionCache.Insert | rust/src/fs.rs:89-109 | An insertion replaces the entry, puts it last, and keeps the newest slots that fit. |
| Introspection.IntrospectionCache.Evict | rust/src/fs.rs:102-108 | The eviction loop ends, keeps map and queue in step, and evicts exactly the least recently used keys. |
| Introspection.IntrospectionCache.Clear | rust/src/fs.rs:111-114 | Nothing is left. |
| Introspection.CountKeys | rust/src/fs.rs:57-61 | A queue without duplicates that lists the map's keys is as long as the map is large. |
| CachedFs.KeyDeterminesCall | rust/src/fs.rs:153-154 | The cache key determines the kind of call and the path. |
| CachedFs.DatabaseFs.Ls | rust/src/fs.rs:153-169 | `ls` answers with a fresh listing cached under `ls:` and the path, or else with what the database lists at that path, errors included, and caches that; it is one step of the run model. |
| CachedFs.DatabaseFs.InfoOf | rust/src/fs.rs:197-213 | Likewise for `info`. |
| CachedFs.DatabaseFs.InvalidateCache | rust/src/fs.rs:133-138 | The cache is emptied and the database left alone. |
| CachedFs.DatabaseFs.WriteBytes | rust/src/fs.rs:244-248 | A completed write empties the cache, a failed one keeps it. |
| CachedFs.DatabaseFs.PutFile | rust/src/fs.rs:227-237 | Likewise for an uploaded local file; if that cannot be read nothing happens. |
| CachedFs.EverySlotWasStored | rust/src/fs.rs:153-169 | Every cached slot of every run was loaded from the database by an earlier call since the last clear, and has that call's age. |
| CachedFs.CachedAnswersAreSound | rust/src/fs.rs:72-87 | A hit is what an earlier call of the same kind on the same path computed, less than one time-to-live ago whatever was hit since, with no completed write or invalidation in between. |
| CachedFs.ListingsComeFromTheirPath | rust/src/fs.rs:153-169 | In any run, `ls` of a path answers what the database now lists at that path or, from the cache, what it listed there at an earlier `ls` of the same path. |
| CachedFs.InfosComeFromTheirPath | rust/src/fs.rs:197-213 | Likewise for `info`. |
| CachedFs.FoundMeansAnswered | rust/src/fs.rs:155-162 | What is found fresh under a key always has the kind the call needs. |
| CachedFs.HandleCommitRefreshesIff | rust/src/fs.rs:428-476 | After any run, the next call after the commit of a write handle is answered from the database as it then is exactly when nothing fresh was cached for it; otherwise it gets the answer it would have got before. |
| CachedFs.HandleCommitLeavesStaleIff | rust/src/fs.rs:468-475 | That answer is stale exactly when a fresh slot holds something else than the database would now give. |
| CachedFs.HandleCommitLeavesStaleInfo | rust/src/fs.rs:468-475 | A witness: `info` of a table goes on reporting the row count from before such a commit, where after `write_bytes` it reports the new one. |
| StaleCommits.FoundIffStillCached | rust/src/fs.rs:72-109 | After any answered run, something fresh is found for a call exactly when it was last loaded less than a time-to-live ago, with no clear since, and fewer other keys were used after its last use than there is room for; what is found is what that load gave. |
| StaleCommits.AmongNewestIff | rust/src/fs.rs:83-108 | A used key is among the newest that fit exactly when fewer distinct other keys were used after its last use. |
| StaleCommits.CommitLeavesStaleIff | rust/src/fs.rs:428-476 | After any answered run and the commit of a write handle, the next call gets a stale answer exactly when that holds and the database would now give something else than it gave at that load: a condition on the calls, their times and the database only. |
| CacheRecency.RecencyIsByLastUse | rust/src/fs.rs:83-86 | The recency list has every key used, once, ordered by last use. |
| CacheRecency.KeysAfterAsk | rust/src/fs.rs:153-169 | A call that is answered, from the cache or from the database, makes its key the newest. |
| CacheRecency.CachedKeysAreTheNewest | rust/src/fs.rs:72-114 | After any run whose calls are all answered, hits during a failure of the database included, the cached keys in order are the most recently used distinct ones since the last clear, as many as fit. |
| CacheRecency.SmallerCacheHoldsSuffix | rust/src/fs.rs:102-108 | On the same run, answered throughout by both, a smaller cache holds a suffix of a larger one's keys. |
| Utf8.DecodeInvertsEncode | rust/src/path.rs:295 | Lossy decoding loses nothing of an encoded string. |
| Utf8.OneByteAddsOneChar | rust/src/path.rs:295 | One more byte adds at most one character. |
| Utf8.EncodedCharIs | rust/src/path.rs:295 | The bytes of a character by the ranges of its scalar value, six bits in each byte after the first. |
| QueryText.PercentDecode | rust/src/path.rs:265-296 | The index loop is the recursive decoder. |
| QueryText.DecodeInvertsForm | rust/src/path.rs:265-296 | Decoding inverts the form-urlencoded serializer on every text. |
| QueryText.QueryRoundTrip | rust/src/path.rs:245-258 | Every list of pairs, with empty keys and values and any text, survives serializing and parsing. |
| QueryText.DecodeNeverLengthens | rust/src/path.rs:265-296 | Decoding never lengthens a text. |
| QueryText.DecodeFixesPlain | rust/src/path.rs:265-296 | Text decodes to itself exactly when it has no `+` and no well-formed escape; malformed escapes stay. |
| Paths.ParseByParts | rust/src/path.rs:105-124 | Parsing looks at the non-empty components of the trimmed path, in order. |
| Paths.ParsedPathsAreStructured | rust/src/path.rs:105-175 | Only structured paths come out of the parser. |
| Paths.ParsedPathsKeepParts | rust/src/path.rs:105-175 | The components of a parsed path are the parts that were read, and its query the pairs. |
| Paths.ComponentsGiveBackPath | rust/src/path.rs:177-211 | The components printed for a structured path determine it, in all six kinds. |
| Paths.PartsOfPathText | rust/src/path.rs:298-313 | Reading printed components gives them back exactly when the last does not end in white space. |
| Paths.BarePathRoundTrip | rust/src/path.rs:105-211 | Without a query, printing and parsing is the identity exactly for structured paths whose last name survives trimming. |
| Paths.TrailingSlashProtects | rust/src/path.rs:298-313 | With a slash behind it any structured path is parsed in full, so parsing what was printed is not idempotent. |
| Paths.ProtocolIsIgnored | rust/src/path.rs:238-243 | Whatever stands before the first `://` is ignored. |
| PathNames.FormatEndings | rust/src/path.rs:14-34 | A relation's name followed by `.parquet`, `.arrow`, `.csv`, `.jsonl` or `.sql` parses as its data in that format, and is printed so. |
| PathNames.OtherNamesAreRelations | rust/src/path.rs:315-318 | A name without one of these five endings is a relation. |
| PathNames.FacetDirectories | rust/src/path.rs:51-70 | `columns`, `indexes`, `constraints` and `depends_on` below a relation are its facets, one more component is an item of them, and they are printed so. |
| PathNames.DefinitionPathReads | rust/src/path.rs:177-211 | `definition.sql` below a relation is its definition. |
| PathNames.OtherFacetsAreRefused | rust/src/path.rs:105-175 | Any other name there is refused, by that name, with and without one more component. |
| PathNames.DeepPathsAreRefused | rust/src/path.rs:105-175 | More than four components are refused. |
| PathNames.QueryReads | rust/src/path.rs:245-258 | Behind `?`, plain keys and values stand before and behind `=`, with `&` between the pairs, in print and when parsed. |
| PathNames.EscapesDecode | rust/src/path.rs:265-296 | A text with every byte written as `%` and two hexadecimal digits, large or small, decodes to the text. |
| PathNames.WhiteSpace | rust/src/path.rs:298-303 | The characters that are trimmed, one by one. |
| PathRoundTrip.PathRoundTrip | rust/src/path.rs:105-211 | Parsing a printed path gives it back exactly when it is well formed: structured, last name kept, and query text without delimiters, `://`, `+` or escapes. |
| PathRoundTrip.OnlyTheWholeParses | rust/src/path.rs:245-258 | Of the ends of a printed query only the whole parses into as many pairs of that size. |
| PathRoundTrip.CutPathLosesPairs | rust/src/path.rs:238-258 | A scheme mark inside the query makes the parser lose a part of the path. |
| PythonPaths.DecodersAgree | rust/src/path.rs:260-296 | The Rust decoder gives on every text what Python's `unquote_plus` gives, as its comment promises. |
| PythonPaths.AgreeIffSame | fsspec_db/python.py:256-275 | On every path in which `urlsplit` finds no scheme, no host and nothing to delete, the parsers give the same path or both fail exactly when they look at the same components and pairs, or neither finds components that make a path. |
| ParserAgreement.ParsersAgreeIff | fsspec_db/python.py:256-275 | On such paths, with or without a slash in front, they agree exactly when the path behind its protocol is in normal form (no white space at its ends, no empty component inside) and there is neither a fragment nor a `://` behind a `?`, or neither finds components that make a path; only a `://` together with a `#` is left to `PythonPaths.AgreeIffSame`. |
| ParserAgreement.BothMarksMayAgree | fsspec_db/python.py:257-258 | With a `://` inside a fragment they may agree again, on the same name before and behind. |
| ParserAgreement.Heavier | rust/src/path.rs:245-258 | Two queries joined by a `#`, `?` or `:` always give pairs with more characters than either alone, so no escape makes a cut query good. |
| PythonPaths.SamePartsIff | rust/src/path.rs:298-313 | The two parsers look at the same components exactly for path texts in that normal form. |
| PythonPaths.DoubleSlashDisagrees | fsspec_db/python.py:262-275 | An empty component makes a relation for one parser and a facet for the other. |
| PythonPaths.FragmentDisagrees | fsspec_db/python.py:257-258 | A fragment is a part of the name for one parser and dropped by the other. |
| PythonPaths.SchemeDisagrees | fsspec_db/python.py:257-259 | A `://` in the query makes the Rust parser start behind it. |
| Tree.ListingsAreCoherent | rust/src/fs.rs:250-336 | Every listed entry parses one level below; `info` on it gives the same name and type, and a listed entry of that name unless it is a relation, which may be described in more detail, or a definition, which has its size; directories can be listed and files refuse it. |
| Tree.WalksAreShort | rust/src/fs.rs:250-293 | A walk from the root ends at the fourth level at the latest. |
| Tree.FourLevelsAreReached | rust/src/fs.rs:666-686 | That bound is reached, by the walk to a column. |
| Tree.OneColumnIsFit | rust/src/fs.rs:250-336 | The conditions on the database are met, by one with a single table that answers as SQLite does. |
| Tree.RelationIsCoherentIff | rust/src/fs.rs:641-657 | A relation is listed coherently exactly when its name is fit for a path and has no format's ending. |
| Tree.RelationIsCoherentIffFound | rust/src/fs.rs:641-657 | Whatever names the database takes for one, a relation is listed coherently exactly when the name read of its text is no data file's and leads the database back to it. |
| Tree.SchemaIsCoherentIff | rust/src/fs.rs:629-639 | A schema is listed coherently exactly when its name is fit for a path. |
| TreeItems.ItemIsCoherentIff | rust/src/fs.rs:486-542 | A column, index, constraint or view target of any name is listed coherently exactly when the components read of its text are those of its facet and the last component of its name, and it is the first of its facet to end in that. |
| TreeItems.PlainItemNameIff | rust/src/path.rs:298-313 | For a name without `?` and `://` that is: it is one component behind any slashes. |
| TreeItems.QuestionMarkIsBad | rust/src/path.rs:245-258 | A name with a `?` behind its last slash never is one. |
| Tree.RelationEntryIsItsInfoIff | rust/src/fs.rs:300-310 | Looking a listed relation up gives the very entry that was listed exactly when the database says no more of it. |
| Tree.SqliteTableDiffersIff | rust/src/sqlite.rs:56-154 | In SQLite that is so for every view and for no table: the listing has no row count. |
| Tree.FormatEndingBreaksListing | rust/src/fs.rs:262-285 | A relation named like a data file is listed as a directory, but is no directory when looked up. |
| Tree.EmptyNameWalksForever | rust/src/fs.rs:259-268 | A relation with the empty name gives walks of every length. |
| Tree.FacetEntriesAreItems | rust/src/fs.rs:486-529 | Every entry of a facet is a file named after an item of that facet. |
| Tree.ItemInfoIsListed | rust/src/fs.rs:531-542 | Looking an item up finds a listed entry of the same name. |
| Listings.RootLists | rust/src/fs.rs:250-258 | The root lists exactly the schemas, in order, as directories named `/` and the schema. |
| Listings.SchemaLists | rust/src/fs.rs:259-268 | A schema that is there lists exactly its relations, in order; another is not found. |
| Listings.RelationLists | rust/src/fs.rs:269-282 | A relation lists `columns`, `indexes` and `constraints`, and a view `depends_on` and `definition.sql` besides, and nothing else. |
| Listings.FacetLists | rust/src/fs.rs:486-505 | A facet lists exactly the columns, indexes or constraints that the database gives, in order, as files. |
| Listings.DependenciesList | rust/src/fs.rs:506-528 | A view's dependencies are listed each once and in order, but for those of its own name, under their last part and with the relation they point to; a table has none. |
| Listings.FilesListNothing | rust/src/fs.rs:283-292 | Data files, definitions and items refuse to be listed. |
| Listings.SchemaInfoIs | rust/src/fs.rs:299-302 | `info` of a schema is the directory of a listed schema of that name, or not found. |
| Listings.RelationInfoIs | rust/src/fs.rs:303-308 | `info` of a relation is a directory under the name the database gives it. |
| Listings.FacetInfo | rust/src/fs.rs:309-313 | `info` of a facet is its directory, if the relation is there. |
| Listings.ItemInfo | rust/src/fs.rs:531-542 | `info` of an item is the first entry of its facet's listing that ends in it, or not found. |
| Listings.DataInfo | rust/src/fs.rs:722-742 | `info` of a data file says its name with the ending, the kind of its relation and its format. |
| Listings.DefinitionInfo | rust/src/fs.rs:744-750 | `info` of a definition is a file of the size of its text in bytes. |
| SqlText.IdentifierReadsBack | rust/src/sql.rs:86-96 | A quoted identifier is read back whole, whatever characters it holds, in every dialect. |
| SqlText.SelectSqlOk | rust/src/sql.rs:98-123 | A SELECT is built exactly when all names are nonempty and free of NUL. |
| SqlText.SelectSqlBlames | rust/src/sql.rs:98-123 | A SELECT that is refused names the first of its columns, schema and relation that is empty or holds a NUL. |
| SqlText.SelectReadsBack | rust/src/sql.rs:98-123 | Scanning a SELECT recovers the column list, the schema and the relation, and leaves the predicate and limit. |
| SqlText.QualifiedReadsBack | rust/src/sql.rs:170-176 | A qualified name reads back as its two parts, dots in them included. |
| SqlText.LimitReadsBack | rust/src/sql.rs:119-121 | Behind any columns and any predicate, the limit of a SELECT reads back as its number, and the predicate before it. |
| InsertStatement.InsertSql | rust/src/sql.rs:125-168 | The loops with one running counter build the specified text. |
| InsertStatement.InsertTextOk | rust/src/sql.rs:125-145 | An INSERT is built exactly for at least one row, at least one column and valid names. |
| InsertStatement.InsertTextBlames | rust/src/sql.rs:125-145 | An INSERT that is refused says that there is no column, else that there is no row, else names the first bad name of schema, relation and columns. |
| InsertStatement.InsertReadsBack | rust/src/sql.rs:125-183 | The text reads back as its relation, its columns and its parameter numbers. |
| InsertStatement.NumberAt | rust/src/sql.rs:150-161 | The placeholder of row r, column c has number r * columns + c + 1. |
| InsertStatement.InsertMeansTheBatch | rust/src/sqlite.rs:344-357 | Evaluating the text against the values bound row by row gives exactly the rows, under their column names. |
| StatementText.ClearReadsBack | rust/src/sqlite.rs:316-323 | The statement that empties a table names that table. |
| StatementText.CopyInReadsBack | rust/src/postgres.rs:409-429 | The COPY text reads back as its relation and columns. |
| CopyCsv.PushCsvEscapedField | rust/src/postgres.rs:527-550 | Through any buffer of at least two bytes the loop ends and appends the quote, the field with quotes doubled, and the quote. |
| CopyCsv.PostgresByteaHex | rust/src/postgres.rs:552-559 | The bytes are written as their hexadecimal pairs behind `\x`. |
| CopyCsv.HexPairsAt | rust/src/postgres.rs:552-559 | Each byte is two digits of `0123456789abcdef`. |
| CopyCsv.CopyCsvValue | rust/src/postgres.rs:448-525 | A cell has a text exactly when its type is supported and it fits, and none at all exactly for NULL; a float's is what the library prints. |
| CopyCsv.NoTextBecause | rust/src/postgres.rs:448-525 | A cell without a text is an unsigned integer of 2 to the 63 or more, named, or has a type that is not supported. |
| CopyCsv.FieldsAre | rust/src/postgres.rs:448-525 | The field of each kind of cell, word for word. |
| CopyCsv.CellReadsBack | rust/src/postgres.rs:448-559 | A cell written and read by its column's type is the cell, bytes included. |
| CopyCsv.CsvReadsBack | rust/src/postgres.rs:431-446 | A CSV reader recovers every field of every row, keeping NULL, the empty text and the text `\N` apart. |
| CopyCsv.BatchToCopyCsv | rust/src/postgres.rs:431-446 | The text of a batch is the CSV of its fields; it fails exactly when some cell has no text. |
| CopyCsv.BatchReadsBack | rust/src/postgres.rs:431-559 | Reading the text of a batch gives every cell back in its place. |
| Decimal.IntReadsBack | rust/src/postgres.rs:460-500 | The decimal text of an integer reads back. |
| Decimal.NatTextAt | rust/src/postgres.rs:460-500 | Each place of a number's text is the digit of that place. |
| InsertTransaction.BindBatch | rust/src/sqlite.rs:351-356 | The values are bound row after row, column after column, SQLite's unsigned integers, dates and times as signed integers; it fails exactly when a value cannot be bound. |
| InsertTransaction.CheckColumns | rust/src/sqlite.rs:337-343 | The check passes exactly for known columns and otherwise names one that is not. |
| InsertTransaction.SendInsert | rust/src/sqlite.rs:344-357 | What the database understands of the INSERT appends the batch's rows; a willing database takes it exactly for valid names and bindable values. |
| InsertTransaction.SendCopy | rust/src/postgres.rs:393-400 | Likewise for COPY. |
| InsertTransaction.CopyMeansTheBatch | rust/src/postgres.rs:409-446 | The COPY text with its data means the rows of the batch. |
| InsertTransaction.SendBatches | rust/src/mysql.rs:332-365 | The loop appends the rows of all batches in order, skips those without rows, and stops at the first that cannot be sent, with its error. |
| InsertTransaction.InsertBatches | rust/src/sqlite.rs:300-363 | All or nothing: on success the old rows (none if truncated) and then all batches' rows, counted, each in its place and with its cells as stored values; on any error nothing has changed; and exactly when a willing database gives success. |
| InsertTransaction.StoredRows | rust/src/sqlite.rs:424-571 | Row r of batch i stands behind the rows of the batches before it, under the batch's column names, and its values are the cells: unchanged in SQLite and MySQL, but for SQLite's unsigned integers, dates and times, which are the signed integer of the same number; in Postgres what a column of the cell's type reads from the field. |
| InsertTransaction.BindableIff | rust/src/sqlite.rs:424-571 | Which cells can be sent: not those of other types, dates and times to SQLite only, unsigned integers from 2 to the 63rd on to MySQL only. |
| TypeInference.RowsToBatch | rust/src/sqlite.rs:722-763 | A chunk becomes a batch exactly when it has a column and every value decodes; all columns have one cell per row, each in its place. |
| DecodedValues.SqliteRowsToBatch | rust/src/sqlite.rs:722-945 | A batch of SQLite holds the values of the rows, each in its place and in the type announced for its column, and that type is chosen by the words in the declared type and the type names of the values, the first of text or char, blob, real, floa or doub, bool, int; it is refused for a value whose type name has none of these words. |
| DecodedValues.RecognisedIff | rust/src/sqlite.rs:774-808 | A type name is known exactly when it has one of those words in it, in any case of letters. |
| DecodedValues.PostgresTypes | rust/src/postgres.rs:849-940 | The Arrow type of a Postgres column, by its declared type. |
| DecodedValues.MySqlTypes | rust/src/mysql.rs:693-789 | Likewise for MySQL. |
| DecodedValues.MySqlValues | rust/src/mysql.rs:720-760 | NULL is nothing, an unmapped type is refused, and other values are what the driver makes of them. |
| TypeInference.CollectTypeNames | rust/src/sqlite.rs:730-741 | The loops collect for each column its declared type and the type names of its values. |
| TypeInference.PushRows | rust/src/sqlite.rs:747-751 | The loops decode every value in its place, or stop with a value that does not decode. |
| TypeInference.KindIgnoresOrder | rust/src/sqlite.rs:774-808 | The accumulator does not depend on the order of the type names. |
| TypeInference.ChosenKindDecodes | rust/src/sqlite.rs:874-945 | The accumulator chosen with a value in view decodes it exactly when its type name has a keyword. |
| TypeInference.SqliteDecodesIff | rust/src/sqlite.rs:722-763 | SQLite decodes its own chunk exactly when every value has a type name with a keyword. |
| TypeInference.SqliteTypeKeptIff | rust/src/sqlite.rs:774-808 | A later chunk keeps a column's type exactly when, of declared type and value type names, neither chunk has a keyword that outranks all of the other's, or one has text and the other no keyword. |
| TypeInference.DeclaredTextIsKept | rust/src/sqlite.rs:774-785 | A column declared as text is text in every chunk. |
| TypeInference.SqliteTypeMayChange | rust/src/sqlite.rs:672-688 | A column announced as Binary can be followed by a chunk of text. |
| TypeInference.PostgresSchemaIsDeclared | rust/src/postgres.rs:762-771 | Every Postgres batch has the schema announced for no rows. |
| TypeInference.MySqlSchemaIsDeclared | rust/src/mysql.rs:615-624 | So has every MySQL batch. |
| TypeInference.UnsignedKeepsItsValueIff | rust/src/mysql.rs:728-735 | A MySQL unsigned value keeps its value exactly when it fits in 64 signed bits. |
| WriteHandles.CommitsAtMostOnce | fsspec_db/python.py:33-56 | Over every sequence of calls the callback succeeds at most once, with exactly the bytes written before, and not at all after a discard. |
| WriteHandles.OnlyTheLastSucceeds | fsspec_db/spec.py:309-313 | A commit has succeeded exactly when the handle is committed, and was the last attempt. |
| WriteHandles.EndedStaysEnded | fsspec_db/spec.py:305-318 | Nothing happens to a handle that has been committed or discarded. |
| WriteHandles.FailedCommitsLoseNothing | rust/python/database.rs:95-104 | After failed commits the next one that succeeds carries everything written. |
| WriteHandles.WritesAppend | fsspec_db/python.py:33-37 | Without seeks the file is the chunks one after another. |
| WriteHandles.AnswersAre | rust/python/database.rs:61-115 | A write, commit or discard on an open handle returns the length or the outcome of the callback; on an ended one a write fails and the others succeed. |
| WriteHandles.WriteOverlays | fsspec_db/python.py:33-37 | A write puts its bytes at the position, keeps the others, and fills a gap behind the end with zeros. |
| WriteHandles.SeekLands | fsspec_db/python.py:33-37 | A seek lands at the offset from the start, the position or the end, and never before the start. |
| WriteHandles.WriteBuffer.Close | fsspec_db/python.py:39-42 | Closing commits the buffer, or only closes it when commits are off; a failed commit leaves it open. |
| WriteHandles.WriteBuffer.Exit | fsspec_db/python.py:44-52 | Leaving a block commits, or discards after an exception. |
| WriteHandles.WriteBuffer.Finalize | fsspec_db/python.py:54-56 | A dropped handle commits nothing. |
| WriteHandles.DeferredFile.Close | fsspec_db/spec.py:305-307 | Closing a deferred file commits nothing and changes nothing. |
| WriteHandles.DeferredFile.CommitNow | fsspec_db/spec.py:309-313 | A commit is a step of the machine. |
| WriteHandles.DeferredFile.DiscardNow | fsspec_db/spec.py:315-318 | A discard is a step of the machine. |
| WriteHandles.PyDbFile.Put | rust/python/database.rs:61-65 | A write goes to the buffer, whatever kind of buffer it is and wherever it stands, or fails when the handle is closed. |
| WriteHandles.PyDbFile.Seek | rust/python/database.rs:67-83 | A seek moves the buffer as the buffer would, is refused for a negative start and an unknown origin, or fails when the handle is closed. |
| WriteHandles.PyDbFile.Close | rust/python/database.rs:95-104 | Closing commits once; a failed commit leaves the handle open. |
| WriteHandles.PyDbFile.DiscardNow | rust/python/database.rs:106-115 | Discarding ends the handle without a commit. |
| WriteHandles.PyDbFile.Exit | rust/python/database.rs:153-166 | Leaving a block commits, or discards after an exception. |
| WriteHandles.Drive | fsspec_db/python.py:33-56 | Any sequence of writes, seeks, closes, exits with and without an exception, and a deletion, on a write buffer is a run of the machine, with its one commit. |
| WriteHandles.DriveDeferred | fsspec_db/spec.py:297-318 | Likewise for a deferred file, whose closes and exits do nothing and which the transaction commits or discards. |
| WriteHandles.DriveRust | rust/python/database.rs:61-166 | Likewise for the handle around a Rust file with any kind of buffer, seeks included. |

## Left out

- EncodedFile.EncodedDbFile.Read: positions and lengths are 64 bits wide; on a 32-bit target a read at a position
  that does not fit `usize` is an error and such a seek does not fill the buffer.
- EncodedFile.EncodedDbFile.constructor: the encoding must fit a `Vec`, and the start of the codec's writer does not fail.
- Tree.ListingsAreCoherent: a database whose names are all fit is taken, and one whose methods know what the others list; the conditions for single names are the three lemmas named above.
- TypeInference.RowsToBatch: that a record batch needs a column is Arrow's rule, taken as it is.
- TypeInference.UnsignedKeepsItsValueIff: for the other MySQL and Postgres types the driver's decoding is a parameter.
- InsertTransaction.InsertBatches: a commit that fails is taken not to have happened, as a lost answer cannot be told apart.
- ParserAgreement.ParsersAgreeIff: `urlsplit` is modelled only where it finds no scheme and no host and has no characters to delete, such as tabs, line breaks and white space in front.
- WriteHandles.PyDbFile.Put: the buffer behind the handle is a parameter that takes every write whole; one that takes a part of it, or fails, is not modelled.
- The buffered file of `fsspec_rs`, the csv-core writer and the codecs of `fsspec_data` are not part of this model; their contracts are stated where they are used.
- Concurrent use of one cache: lookup and insertion lock separately, so freshness holds for sequential calls only.
- `validate_predicate` and `view_dependencies`: a SQL parser does the work; the predicate is opaque text and the dependencies a parameter.
- The conversion of dates, times, decimals, floats, UUIDs and JSON to and from text: a float is known by its printed form, a date or time by its count of units.
- The matching of columns and the constraints of the database itself, which are a parameter that may refuse any statement.
- Other users of the connection pool, who could hold its connection for any time.
- Introspection queries, DSN and pool options, DDL texts, error tables and conversions to Python objects: single-branch plumbing.
- The extra fields of directory entries are kept as the values they are made from, not as strings.
- The DuckDB, SQLAlchemy and ODBC adapters.
