# loggi: verified model of the log engine, its query language and its delivery

loggi keeps log rows in memory, indexes them, filters them with a small query
language and streams them to clients. This project models those parts in
Dafny and proves what they promise.

- `Pools.dfy`, `Intern.dfy`, `Blob.dfy`: the refcounted string interner (over
  an append-only arena) and the payload slab, both recycling allocators.
- `Ledger.dfy`, `Column.dfy`: hot columns in their three modes, with the
  dictionary, the inverted index and the one-way conversion to raw mode.
- `Bits.dfy`, `Rows.dfy`, `Store.dfy`: the ring of rows over columns, tail
  pairs, interner and slab. `log` is the ghost list of all rows ever appended
  and the invariant `Inv` says how every buffer represents its last `cap` rows,
  who holds every reference, and which indexes are exact.
- `Query.dfy`, `Glob.dfy`, `Ast.dfy`, `Filter.dfy`: range queries, glob
  matching, the per-row matcher and the bitmap planner, and the theorem that
  joins planner and store.
- `Lexer.dfy`, `Parser.dfy`, `Grammar.dfy`, `Terms.dfy`, `Inputs.dfy`,
  `Compose.dfy`: the tokenizer and the recursive-descent parser, the tree of
  each form of input, what printing, grouping and quick filters mean.
- `Delivery.dfy`, `Session.dfy`: one subscriber's bounded queue over all runs,
  batching, backlog and history paging.
- `Stdin.dfy`, `Overlay.dfy`, `Histogram.dfy`: line reassembly, profile
  overlays and the timeline.
- `Chips.dfy`, `ChipFilters.dfy`: the web client's filter chips, and what the
  server makes of them.
- `Options.dfy`: optional values and repeated sequences.

Objects whose methods update fields are classes with the same fields; their
methods are proved against functions and predicates on values, and the lemmas
are about those. A `hide` statement at the head of a body keeps definitions
that the proof does not need from the solver.

Three facts that the code depends on appear as hypotheses where they matter:
the hash is injective where a bitmap is looked up (the lookup does not compare
texts), sequence numbers stay below 2^32 where bitmaps hold them, and the keys
of a decoded object are distinct. Everything else holds for every hash.

Where the code does less than it seems to promise, the failing input and the
exact condition are proved:

- Normalizing a level can leave a wrong index entry (`Stores.RewrittenLevel`);
  exactly when is `Columns.OverwriteKeepsExactIff`. `Store.doubted` holds the
  numbers under which that happened, and everything is exact off them.
- Index and matcher disagree on quotes and on empty needles
  (`Filters.ClashExamples`); exactly when is `Filters.EqAgrees`.
- A final literal after a wild is tried only once, and of two wilds in a row
  both are dropped, where the comment in `matchGlob` says that they collapse
  (`Globs.Missed`); exactly what is found is `Globs.EffectiveExact`.
- A range with a negative lower bound is malformed
  (`Inputs.NegativeRangeFails`; exactly which ranges parse is with
  `Inputs.RangeMeans`), and behind > or < a negative number is a text
  (`Inputs.NegativeCompareIsText`, with `Inputs.CompareMeans`).
- A quick filter with an open quote swallows the parenthesis of its group
  (`Composing.OpenQuoteLeaks`, `Composing.TwoOpenQuotes`); exactly when the
  combination is the conjunction is `Composing.EffectiveFilterConjoins`.
- A queued row can leave the ring before its flush and is then neither in a
  frame nor in a gap (`Sessions.LostBeforeFlush`); exactly which rows arrive is
  `Sessions.WhatArrives`.
- An edited path and a source that two profiles share stay open
  (`Overlays.EditedPathLeaks`, `Overlays.SharedSourceLeaks`); exactly when an
  activation is tidy is `Overlays.TidyIff`, and for runs `Overlays.RunTidyIff`.
- A histogram can lose rows in the last second of its window
  (`Histograms.HalfSecondLost`); exactly when is `Histograms.NoLossIff`.
- A chip can be printed bare although the server breaks its value
  (`ChipFilters.AddressSplits`); exactly when a value is carried is
  `ChipFilters.ChipMeans`.
- The comment on `Push` in the stdin source says that it closes after the
  buffer drains; without a final newline it never drains
  (`Piping.TailNeverRead`).

## Model

| member | source | states |
|---|---|---|
| `Bits.NextPow2` | internal/store/store.go:135-147 | the smearing loop yields the least power of two that is at least n for 1 <= n <= 2^63, 1 for 0, and wraps to 0 above |
| `Bits.SmearFills` | internal/store/store.go:139-146 | six or-shift steps set exactly the digits below the leading one, for every 64-bit word |
| `Bits.AndMask` | internal/store/store.go:104 | masking with 2^k - 1 is the remainder modulo 2^k |
| `Pools.Allocated` | internal/store/intern.go:57-75 | a new text takes a dead or fresh id; the free list still names every dead id exactly once, the hash table only live slots of that hash, and every other id keeps its text and count, whatever the hash function |
| `Pools.Recycled` | internal/store/intern.go:113-125 | the last release frees the id, removes its hash entry only if the entry names it, and leaves every other id as it was |
| `Pools.Dropped` | internal/store/intern.go:103-112 | a release that is not the last lowers one count and forgets nothing |
| `Pools.Joined` | internal/store/intern.go:52-56 | a further reference raises one count and changes no text |
| `Pools.LiveTextsAreIndexed` | internal/store/intern.go:51-56 | with an injective hash every live text is found under its hash |
| `Pools.LiveTextsAreDistinct` | internal/store/intern.go:44-76 | with an injective hash two live ids never stand for the same text |
| `Arenas.ReadsAreStable` | internal/store/intern.go:157-181 | an arena that grows keeps every earlier read |
| `Arenas.Arena.AppendStr` | internal/store/intern.go:157-174 | what was appended reads back, and the old chunks are only extended |
| `Interning.Interner.Intern` | internal/store/intern.go:44-76 | the id stands for the string with one reference more, the id of a live string is reused when hashes do not collide, no other id changes, and the pool invariant is kept |
| `Interning.Interner.Get` | internal/store/intern.go:78-91 | the interned string until its last release, "" for dead and unknown ids |
| `Interning.Interner.Retain` | internal/store/intern.go:93-101 | exactly one reference more for the id, nothing for id 0 |
| `Interning.Interner.Release` | internal/store/intern.go:103-126 | exactly one reference fewer, the text is forgotten with the last one, and releasing a dead id does nothing |
| `Interning.Interner.Equal` | internal/store/intern.go:139-149 | compares the stored text itself, never the hash alone |
| `Interning.Interner.CountsAreReferences` | internal/store/intern.go:25-31 | the stored counter is the number of references and a slot is live exactly while it is positive |
| `Blobs.BlobSlab.Put` | internal/store/blob.go:34-61 | the same pool discipline for payloads: one reference more, shared when already live and hashes do not collide |
| `Blobs.BlobSlab.Get` | internal/store/blob.go:63-74 | the stored payload until its last release |
| `Blobs.BlobSlab.Release` | internal/store/blob.go:86-108 | one reference fewer, the slot is recycled with the last |
| `Blobs.BlobSlab.CountsAreReferences` | internal/store/blob.go:19-24 | counters equal references, liveness equals a positive counter |
| `Dictionaries.OverwriteExact` | internal/store/column.go:141-148 | on the level of ids and bitmaps: from an index that is exact off some stale numbers an overwrite makes no number stale but its own, and does so if and only if it leaves a row listed under an id it no longer holds |
| `Dictionaries.OverwriteIndexed` | internal/store/column.go:143-148 | every overwrite keeps each row listed in the bitmap of its id |
| `Dictionaries.LastRowLeft` | internal/store/column.go:186-203 | when the last row leaves a dictionary slot, the slot, its bitmap, its hash entry, its interner reference and the cardinality go together |
| `Dictionaries.RowLeft` | internal/store/column.go:186-190 | a row that leaves a shared slot lowers its count only |
| `Dictionaries.RowJoined` | internal/store/column.go:118-120 | a row that joins a live slot raises its count only |
| `Dictionaries.SlotCreated` | internal/store/column.go:122-134 | a new value takes a freed or fresh slot and is filed under its hash if the hash is free |
| `Columns.SlotCountsAreRows` | internal/store/column.go:54-58 | a dictionary slot counts exactly the rows that hold it and is live exactly while one does |
| `Columns.PromotedOk` | internal/store/column.go:309-346 | after the conversion every present row owns exactly one interner reference and shows what it showed |
| `Columns.SameTextSameId` | internal/store/column.go:116-148 | without collisions two rows share a dictionary id exactly when they show the same text |
| `Columns.OverwriteKeepsExactIff` | internal/store/column.go:105-154 | the exact condition for the inverted index: it stays exact if and only if the slot was last written under an earlier number, or shows nothing, or the same text, or a text no other row shows; an unsafe overwrite spoils no entry but its own |
| `Columns.StaleIsListed` | internal/store/column.go:141-148 | a number that an unsafe overwrite made stale is listed under a text that other rows show and its own row does not |
| `Columns.CardinalityFits` | internal/store/column.go:128-135 | a dictionary with an empty row has fewer values than the ring has rows, so only rings of more than 16384 rows can overflow it |
| `Columns.BitmapMeaning` | internal/store/column.go:247-262 | a lookup finds nothing exactly for texts no row shows; otherwise its bitmap has every row that shows the text and, off the stale numbers, no other live row |
| `Columns.Column.GetString` | internal/store/column.go:216-233 | the text the row shows, in every mode |
| `Columns.Column.GetF64` | internal/store/column.go:236-243 | the number the row shows, if any |
| `Columns.Column.SetF64` | internal/store/column.go:164-169 | changes one number and nothing else |
| `Columns.Column.SetString` | internal/store/column.go:105-154 | the row shows the new text, no other row changes, the interner is charged exactly the difference, and exactness of the index is kept if and only if the overwrite is safe; the column turns raw only in rings of more than 16384 rows, and a numeric column only forgets the row |
| `Columns.Column.EvictSlot` | internal/store/column.go:179-213 | the row shows nothing, all its references are returned, and a bitmap goes only with the last holder |
| `Columns.Column.EvictAt` | internal/store/column.go:172-177 | eviction for a later row keeps an exact index exact, stale numbers aside |
| `Columns.Column.PromoteToRaw` | internal/store/column.go:309-346 | no row shows anything else, the mode is raw, and the interner is left with exactly one reference for each present row; retaining precedes releasing |
| `Columns.Column.RetainRows` | internal/store/column.go:310-331 | first pass: each present row takes a reference of its own |
| `Columns.Column.ReleaseSlots` | internal/store/column.go:332-339 | second pass: each live slot gives back the one it had |
| `Columns.Column.SetNew` | internal/store/column.go:121-140 | a value new to the dictionary is stored under a fresh id; past 16384 values the column turns raw and the triggering row is stored all the same |
| `Columns.Column.BitmapForValue` | internal/store/column.go:247-262 | the lookup that the index lemmas are about |
| `Rows.FieldsKept` | internal/store/store.go:254-256 | every field of a decoded object with distinct keys is held in exactly one place of the row, whichever keys are hot or become hot on the way |
| `Rows.ObjectReadable` | internal/store/store.go:206-370 | what a client reads back: each named field of an appended object is in the wire form as its bytes or its text, the level as given or normalized |
| `Rows.TextReadable` | internal/store/store.go:244-278 | what a client reads of a line of text: the line as msg, the level hint as level, its ANSI bytes, and no fields; a payload that is no JSON reads back as its raw bytes without level and ANSI |
| `Rows.HeaderReadable` | internal/store/store.go:206-239 | what a client reads of every row: its number, its source, and the given time or else the clock unless an object sets its own; objects are no text |
| `Rows.NothingInvented` | internal/store/store.go:241-267 | a key that is not in the object is not in what a client reads, and service, msg and level are empty then, the normalized level aside |
| `Rows.PromotesIff` | internal/store/store.go:326-352 | a cold key becomes a column exactly at 64 rows, 32 occurrences and half of the rows |
| `Rows.CountsUp` | internal/store/store.go:326-352 | an occurrence of a cold key counts once, unless 1024 other keys are counted already, and changes no other count |
| `Holdings.SumUpdate` | internal/store/store.go:39-48 | adding up what all holders hold, one holder changed |
| `Holdings.TextAfter` | internal/store/store.go:354-376 | the references of all tail pairs after one row changed its pairs |
| `Holdings.BlobsAfter` | internal/store/store.go:395-403 | the references of all blob values and ANSI entries after one row changed |
| `Stores.RingStep` | internal/store/store.go:219-227 | one append keeps the ring invariant: the slot of each of the last cap rows holds that row, tail is head - cap once the ring is full |
| `Stores.LiveSlotsDistinct` | internal/store/store.go:220 | live rows stand in different slots, each holding what was appended under its number |
| `Stores.ColumnSettles` | internal/store/column.go:105-154 | a column that settles with the interner leaves the books balanced and no other holder notices |
| `Stores.PairAttached` | internal/store/store.go:354-376 | moving two taken references into a tail pair keeps the books balanced |
| `Stores.TailDetached` | internal/store/store.go:390-398 | taking the pairs out of a row keeps the books balanced |
| `Stores.Store.New` | internal/store/store.go:92-126 | an empty store with the well-known columns whose capacity is the least power of two that is enough; all invariants hold |
| `Stores.Store.PutStr` | internal/store/store.go:314-324 | one text reaches one column and one row of the abstract state, with the exact condition for its index |
| `Stores.Store.EvictRow` | internal/store/store.go:378-409 | the slot is emptied in every column and buffer, every reference is returned, and the tail moves |
| `Stores.Store.AppendTail` | internal/store/store.go:354-376 | a cold field becomes one pair: large and non-string values in the slab, strings interned |
| `Stores.Store.IngestField` | internal/store/store.go:282-300 | one field is routed to a numeric column, a hot column, a new hot column or the tail, as the row specification says |
| `Stores.Store.IngestCold` | internal/store/store.go:326-352 | a cold key is counted, promoted at 64 rows, 32 occurrences and half of the rows, and otherwise kept in the tail |
| `Stores.Store.AppendJson` | internal/store/store.go:241-267 | the fields of an object and then the normalized level; only the latter can harm an index, and does unless it is safe |
| `Stores.Store.AppendText` | internal/store/store.go:269-278 | a text line with its ANSI bytes and level hint, kept so that Rows.TextReadable holds of it; it never harms an index |
| `Stores.Store.WriteRow` | internal/store/store.go:219-239 | evicting, stamping and filling one slot writes exactly the row that the input stands for |
| `Stores.Store.Append` | internal/store/store.go:206-239 | the log grows by exactly that row, of which Rows.ObjectReadable, Rows.TextReadable and Rows.HeaderReadable say what is read, its number is the old head, a closed store takes nothing, every invariant holds again (ring, references, columns, indexes), and the number becomes doubted exactly when the level column has an index and normalizing the level was unsafe; then the index really was made wrong |
| `Stores.Store.LiveRow` | internal/store/store.go:649-656 | for each live number the slot seq mod cap holds the row appended under it |
| `Stores.Store.EveryReferenceCounted` | internal/store/store.go:354-409 | conservation in every reachable state: each interner counter equals the tail keys and non-blob values plus what the columns hold for the id, each slab counter the blob values plus ANSI entries, and an id is live exactly while it is held |
| `Stores.Store.IndexMatchesLog` | internal/store/column.go:247-262 | in every reachable state a lookup misses no live row, and names exactly the live rows that show the text, except doubted levels; a doubt ends when its row leaves the ring |
| `Stores.Store.NothingAhead` | internal/store/column.go:247-262 | no index has a number that no row has been given yet |
| `Stores.Store.DoubtIsReal` | internal/store/store.go:258-264 | a level that was doubted is listed under a text that its row does not show |
| `Stores.RewrittenLevel` | internal/store/store.go:258-264 | a concrete run on a store of two rows: {"level":"custom"} and then {"level":"custom","severity":"error"}; the second row shows "error" and the bitmap of "custom" has it |
| `Stores.Store.SourceIDOfSeq` | internal/store/store.go:828-835 | the source of a live row, 0 otherwise |
| `Stores.Store.HotString` | internal/store/store.go:852-863 | what the log says of a live row, "" otherwise |
| `Stores.Store.HotF64` | internal/store/store.go:866-877 | what the log says of a live row |
| `Stores.Store.Materialize` | internal/store/store.go:649-721 | the wire form is exactly the view of the appended row for live numbers and nothing for all others |
| `Stores.Store.HotPart` | internal/store/store.go:680-703 | the fields that come from columns, in any order of visiting them |
| `Stores.Store.TailPart` | internal/store/store.go:704-715 | the fields that come from the tail; a later pair wins, an unnamed one is dropped |
| `Stores.Store.QueryRange` | internal/store/store.go:930-948 | the first limit kept numbers of the clamped range, ascending |
| `Stores.Store.QueryRangeBitmap` | internal/store/store.go:884-926 | the same list for the numbers that are candidates and pass the residual |
| `Queries.FilteredMeaning` | internal/store/store.go:937-946 | the reference list: exactly the kept numbers of the range, each once, ascending |
| `Queries.AnswerMeaning` | internal/store/store.go:884-948 | what an answer is: numbers of the clamped range that are kept, ascending, no more than a positive limit, and one that is missing lies behind a full answer |
| `Queries.Scan` | internal/store/store.go:896-907 | asking every number in turn, stopping at the limit, gives the reference list |
| `Queries.Walk` | internal/store/store.go:909-925 | walking the candidates in ascending order, skipping below and stopping above the range, gives the reference list |
| `Queries.SameAnswer` | internal/store/store.go:884-948 | two filters give equal lists exactly when they keep the same numbers of the range |
| `Filters.AndAccepts` | internal/filter/plan.go:85-97 | a conjunction of plans accepts what both accept |
| `Filters.OrAccepts` | internal/filter/plan.go:99-118 | a disjunction of plans accepts what either non-empty plan accepts: an empty plan would be lost |
| `Filters.NeverTrivial` | internal/filter/plan.go:49-83 | no expression plans to the empty plan |
| `Filters.EqAgrees` | internal/filter/plan.go:66-79 | an equality is answered alike by index and matcher exactly when there is no clash: equal and empty, or equal only after trimming quotes |
| `Filters.ClashExamples` | internal/filter/compile.go:121-136 | two inputs on which index and matcher differ |
| `Filters.PlainTextsAgree` | internal/filter/compile.go:299-301 | texts without quotes at their ends never clash with a non-empty needle of that kind |
| `Filters.MatcherMeans` | internal/filter/compile.go:61-297 | the compiled matcher of every filter answers what the filter says of the row, where that is written out in terms of the field alone |
| `Filters.SubstringMeans` | internal/filter/compile.go:150-156 | a substring search finds a row exactly when the needle stands somewhere in its field |
| `Filters.ExactMeans` | internal/filter/compile.go:138-156 | an exact search finds a row exactly when its field is the needle; an empty needle keeps every row |
| `Filters.GlobMeans` | internal/filter/compile.go:138-149 | a pattern finds only rows whose field fits it, and exactly those, shortest fits only before a final literal, whenever what is left of it alternates |
| `Filters.EqualityMeans` | internal/filter/compile.go:121-136 | an equality finds on a hot column the rows that show the value, quotes at both ends aside, and elsewhere the rows whose field is the value |
| `Filters.TrimMeaning` | internal/filter/compile.go:299-301 | trimming takes away exactly the quotes at both ends |
| `Filters.LeavesMean` | internal/filter/compile.go:159-295 | existence is a field that is not empty, a range a number between the bounds, a comparison a number or text in the relation of the operator, and an unknown operator finds nothing |
| `Filters.TextOperators` | internal/filter/compile.go:285-297 | < is byte order, decided where the texts part, > its converse, <= and >= add equality, and > is the negation of <= |
| `Filters.LessOrders` | internal/filter/compile.go:285-297 | byte order is irreflexive, transitive and total |
| `Filters.LevelsMean` | internal/filter/compile.go:248-283 | levels compare in lower case as trace < debug < info < warn = warning < error < fatal, and an unknown level stands in no relation |
| `Filters.PlanMeans` | internal/filter/plan.go:49-131 | for every expression and row with an exact index and no clash, the plan accepts the row exactly when the compiled matcher does, of which Filters.MatcherMeans says what it answers |
| `Filters.QueriesAgree` | internal/filter/plan.go:42-83 | on every range and limit the bitmap query returns the same list as the scan |
| `Filters.EqualityQueriesAgreeIff` | internal/filter/plan.go:66-79 | for one equality and any limit: the two lists are equal if and only if every clashing row of the range lies behind the limit |
| `Searching.StoreIndexAnswers` | internal/store/column.go:247-262 | the columns of a reachable store provide the exact index that the planner needs |
| `Searching.SearchMeansScan` | internal/store/store.go:884-948 | planner and store together: over any reachable store, range and limit the planned query answers like the row-by-row scan, unless a row of the range clashes with a needle or has a doubted level that is asked for |
| `Searching.SearchFinds` | internal/store/store.go:884-948 | so it finds, in order and up to the limit, exactly the live rows of the range of which the filter is true |
| `Searching.HotFieldRead` | internal/store/store.go:852-864 | what the matcher reads of a hot field is what the log says of a live row, and nothing of one that is gone |
| `Globs.MatchGlob` | internal/filter/compile.go:168-216 | the loop computes the scan that the lemmas below are about |
| `Globs.MatchFits` | internal/filter/compile.go:168-216 | soundness for every list of parts: an accepted text splits into pieces that fit |
| `Globs.FirstIsEnough` | internal/filter/compile.go:197-201 | before another wild the first occurrence of a literal is as good as any |
| `Globs.OpenComplete` | internal/filter/compile.go:182-215 | completeness for alternating patterns that end in a wild |
| `Globs.ClosedExact` | internal/filter/compile.go:197-214 | exactly what alternating patterns that end in a literal accept: texts that fit and of which no shorter beginning fits |
| `Globs.MatchesEffective` | internal/filter/compile.go:189-196 | every list of parts finds what is left of it when wilds that wilds follow are dropped in pairs, with the wild at its end restored |
| `Globs.EffectiveExact` | internal/filter/compile.go:182-215 | exactly what is found whenever that pattern alternates, two wilds in a row or not: texts that fit it and, behind a final literal, do not extend a shorter text that fits |
| `Globs.AlternatingIsEffective` | internal/filter/compile.go:182-215 | an alternating pattern is left as it is |
| `Globs.Missed` | internal/filter/compile.go:192-214 | *ab misses abab, and two wilds in a row match nothing |
| `Lexing.Tokenize` | internal/filter/parser.go:87-348 | the tokenizer loop yields the token list of the text, each step taking at least one character |
| `Lexing.NextToken` | internal/filter/parser.go:90-326 | one step of the tokenizer, from any index |
| `Lexing.PiecesTile` | internal/filter/parser.go:87-327 | the raw tokens tile the text from left to right without gap or overlap, and each comes from its piece |
| `Lexing.DropSpaces` | internal/filter/parser.go:328-347 | whitespace tokens stay exactly between a closer and an opener |
| `Lexing.ExpectingValue` | internal/filter/parser.go:366-381 | looking back past whitespace for a token that asks for a value |
| `Lexing.ScanString` | internal/filter/parser.go:229-271 | quoted strings with escapes and glob parts |
| `Lexing.ScanRegexLiteral` | internal/filter/parser.go:695-719 | the end of a regular expression literal, or none before whitespace |
| `Parsing.Parser.OrExpr` | internal/filter/parser.go:444-462 | the cursor-moving parser returns the node and leaves the tokens that the grammar function says; it terminates on tokens left and rank |
| `Parsing.Parser.AndExpr` | internal/filter/parser.go:464-493 | implicit and explicit conjunction, with an AND that joins nothing passed over |
| `Parsing.Parser.NotExpr` | internal/filter/parser.go:495-509 | one negation in front of an atom |
| `Parsing.Parser.Atom` | internal/filter/parser.go:511-530 | a group in parentheses or a term |
| `Parsing.Parser.Term` | internal/filter/parser.go:532-568 | field terms, and the rewind to a bare word, as the grammar function says; what it makes of an input is in the Inputs rows |
| `Parsing.Parser.Reference` | internal/filter/parser.go:572-601 | paths, including the failing one after a lone @ |
| `Parsing.Parser.Value` | internal/filter/parser.go:603-681 | ranges, comparisons, patterns, globs, existence and equality, as the grammar function says; what it makes of an input is in the Inputs rows |
| `Parsing.ParseInput` | internal/filter/parser.go:31-46 | empty input keeps everything; otherwise a result only if every token was used; the tree of each form of input is in the Inputs rows |
| `Inputs.WordMeans` | internal/filter/parser.go:536-549 | a bare word searches the message for the word |
| `Inputs.NumberMeans` | internal/filter/parser.go:563-566 | a bare number searches the message for its digits |
| `Inputs.QuotedMeans` | internal/filter/parser.go:551-557 | every text can be quoted and is then compared with the whole message |
| `Inputs.PatternMeans` | internal/filter/parser.go:229-271 | a quoted text with stars searches the message for exactly the pattern that the stars cut it into |
| `Inputs.StarsAloneMean` | internal/filter/parser.go:558-562 | stars around a bare word search the message for it |
| `Inputs.SignMeans` | internal/filter/parser.go:495-509 | a sign in front of a word negates its search |
| `Inputs.AndMeans` | internal/filter/parser.go:464-493 | two words with AND or and between them, or with a blank alone, are searched for together |
| `Inputs.OrMeans` | internal/filter/parser.go:444-462 | two words with OR or or between them ask for either |
| `Inputs.OrBindsLess` | internal/filter/parser.go:444-493 | an OR binds less than the blank on its left |
| `Inputs.OrBindsLessBehind` | internal/filter/parser.go:444-493 | and less than the blank on its right |
| `Inputs.NotMeans` | internal/filter/parser.go:495-509 | NOT or not negates the word behind it and no more |
| `Inputs.RangeMeans` | internal/filter/parser.go:608-629 | f:[a..b] asks for f between a and b, in that order |
| `Inputs.NegativeRangeFails` | internal/filter/parser.go:608-629 | f:[-5..10] is malformed for any numbers: behind the bracket the sign swallows the dots |
| `Inputs.CompareMeans` | internal/filter/parser.go:630-641 | f:>a and the other three operators compare f with the number a, a negative one only behind >= or <= |
| `Inputs.NegativeCompareIsText` | internal/filter/parser.go:87-327 | f:>-5 and f:<-5 are no comparisons: they are equalities with the text itself |
| `Inputs.CompareTextMeans` | internal/filter/parser.go:642-645 | the four operators compare f with a word |
| `Inputs.FieldQuotedMeans` | internal/filter/parser.go:630-680 | a quoted text behind the colon is an equality with exactly that text, and behind >= or <= a bound |
| `Inputs.FieldPatternMeans` | internal/filter/parser.go:662-664 | a quoted text with stars searches the field for the pattern |
| `Inputs.StarMeans` | internal/filter/parser.go:665-675 | f:* asks whether f is there |
| `Inputs.StarsMean` | internal/filter/parser.go:665-677 | f:*w* searches f for w |
| `Inputs.LiteralMeans` | internal/filter/parser.go:648-660 | f:/body/flags matches the pattern of the body, its escaped slashes undone, if that compiles and no g is among the flags, and is malformed otherwise |
| `Inputs.CompareChipMeans` | web/src/lib/filter-dsl.ts:73-110 | the server reads a comparison chip with a number as that comparison |
| `Inputs.RangeChipMeans` | web/src/lib/filter-dsl.ts:73-110 | and a range chip with two numbers as that range |
| `Inputs.ExistsChipMeans` | web/src/lib/filter-dsl.ts:73-110 | and an existence chip as the question whether the field is there |
| `Inputs.ContainsChipMeans` | web/src/lib/filter-dsl.ts:73-123 | and a contains chip with a word as the search for it, in the message too |
| `Inputs.RegexChipMeans` | web/src/lib/filter-dsl.ts:73-123 | and a regular expression chip as its pattern and flags, slashes and all |
| `Grammar.OrIsLocal` | internal/filter/parser.go:444-493 | in front of a closing parenthesis the parser consumes exactly what it consumes at the end of the input and returns the same node, trailing AND included |
| `Grammar.GroupsMeanConjunction` | internal/filter/parser.go:464-530 | complete token lists in parentheses, separated by whitespace, parse to the left-nested conjunction of their nodes |
| `Grammar.ConjunctionMeaning` | internal/filter/compile.go:82-85 | a row matches that conjunction exactly when it matches every node |
| `Grammar.ToksParse` | internal/filter/parser.go:444-606 | the tokens of a printed tree parse back to the tree in front of anything |
| `Grammar.DoubleNotFails` | internal/filter/parser.go:495-530 | a NOT directly under a NOT makes the printed form malformed, however deep |
| `Grammar.PrintReads` | internal/filter/parser.go:87-327 | the tokenizer reads a printed tree as its tokens with one whitespace token around each operator |
| `Grammar.GapsDropped` | internal/filter/parser.go:328-347 | exactly those whitespace tokens are dropped |
| `Grammar.PrintParses` | internal/filter/ast.go:90-93 | parsing undoes printing for trees over plain equalities if and only if no NOT stands directly under a NOT |
| `Terms.OrScans` | internal/filter/parser.go:444-606 | the parser finds the terms that stand in the input, in their order: those of its tree, and then those of what it leaves |
| `Terms.DanglingFails` | internal/filter/parser.go:495-606 | an input that ends in a sign or a dot is malformed |
| `Terms.PartedTreesDiffer` | internal/filter/parser.go:444-681 | two inputs that agree up to a quoted string and differ there never have the same tree |
| `Composing.ComputeEffectiveFilter` | web/src/lib/quick-filters.ts:56-66 | the loop joins the trimmed, wrapped, enabled pinned chips and the working filter |
| `Composing.PartsMeaning` | web/src/lib/quick-filters.ts:56-66 | the parts are, in order, the texts of exactly the pinned and enabled chips that are not blank, and then that of the working filter unless it is blank, each without the whitespace around it |
| `Composing.EffectiveFilterConjoins` | web/src/lib/quick-filters.ts:54-66 | when each part is a filter by itself, the combined text parses to the conjunction of all parts, in order, if and only if no part ends in an open quote |
| `Composing.WrappedMeansSame` | internal/filter/parser.go:229-264 | a filter in parentheses means what it means alone if and only if it does not end in an open quote |
| `Composing.FilterSeals` | internal/filter/parser.go:87-327 | a filter without an open quote at its end reads the same, token by token, when a parenthesis follows: a sign or a dot at its end would have made it malformed |
| `Composing.GroupLeaks` | internal/filter/parser.go:229-264 | with an open quote somewhere the combined text agrees with the groups it should be up to a quoted string and differs there |
| `Composing.TwoOpenQuotes` | web/src/lib/quick-filters.ts:60-66 | two chips with an open quote, each a filter by itself, combine to another filter that is not malformed: one string, from the first quote to the second, and a bare word |
| `Composing.EffectiveFilterMeaning` | web/src/lib/quick-filters.ts:54-55 | and a row matches it exactly when it matches every part |
| `Composing.OpenQuoteLeaks` | web/src/lib/quick-filters.ts:60-66 | a part with an open quote parses alone but not in its group |
| `Delivery.StepGood` | internal/store/store.go:456-643 | each event keeps the invariant: books right up to the cursor, an active subscriber up to date, at most 1024 rows queued |
| `Delivery.RunGood` | internal/store/store.go:456-643 | the invariant holds over every run of publish, pause, resume, receive, take-dropped and set-filter |
| `Delivery.EveryRowAccounted` | internal/store/store.go:502-534 | over every run: sent numbers strictly increase, what was received is the beginning of them, and sent + dropped + rejected is exactly the rows since the subscription |
| `Delivery.DropsCoverMatches` | internal/store/store.go:618-629 | over every run under one filter: matches <= sent + dropped <= rows, with equality to the rows when there is no filter |
| `Delivery.PublishSends` | internal/store/store.go:586-629 | one publication to an active subscriber: the row is sent if and only if the filter admits it and the queue has room, and counted as dropped if and only if the filter admits it and the queue is full |
| `Delivery.PausedStandsStill` | internal/store/store.go:493-500 | a pause takes effect at once; until the resume nothing is sent or dropped and the cursor stands still, whatever is published |
| `Delivery.ResumeSends` | internal/store/store.go:502-534 | resuming from any state: of the missed rows still in the ring that match, as many are sent as the queue has room for, oldest first; the others and every row that has gone are counted |
| `Delivery.ClientMoves` | internal/store/store.go:537-570 | the client receives the oldest queued row, takes and clears the drop counter, or sets a filter, and nothing else changes |
| `Delivery.ResumeCatchesUp` | internal/store/store.go:502-534 | resuming with room and without eviction sends exactly the matching rows that were missed |
| `Delivery.Subscriber.Publish` | internal/store/store.go:586-612 | one published row, as the step says, of which Delivery.PublishSends states when it is sent and when dropped |
| `Delivery.Subscriber.Resume` | internal/store/store.go:502-534 | the catch-up loop, as the step says |
| `Delivery.Subscriber.Deliver` | internal/store/store.go:618-629 | a row is queued or counted; queued rows are never touched |
| `Delivery.Subscriber.TakeDropped` | internal/store/store.go:564-570 | the counter is read and cleared |
| `Delivery.Subscriber.Receive` | internal/store/store.go:419-437 | the oldest queued row comes first |
| `Sessions.PageMeaning` | internal/server/session.go:322-349 | a history page: kept live rows below the limit, ascending; all other kept rows are older; it says End exactly when there are none |
| `Sessions.PagesPartition` | internal/server/session.go:312-366 | following pages from their oldest row yields every kept row below the start exactly once |
| `Sessions.History` | internal/server/session.go:312-366 | one request returns that page, with the wire form of each row from the log |
| `Sessions.ReadBack` | web/src/App.svelte:526-534 | the client loop terminates, every page starting strictly lower, and then has exactly the kept live rows below its start |
| `Sessions.QueryBacklog` | internal/server/session.go:257-272 | the newest limit kept rows |
| `Sessions.BacklogIsPage` | internal/server/session.go:250-272 | a backlog is the page in front of the head |
| `Sessions.Pump.Pull` | internal/server/session.go:469-473 | moving one row into the batch keeps what was taken for frames + the batch equal to what was received |
| `Sessions.Pump.Flush` | internal/server/session.go:437-444 | a frame carries the drops and, in order, the wire forms of exactly those rows of the batch that are still in the ring; nothing is sent when there is neither batch nor drop |
| `Sessions.Pump.Drain` | internal/server/session.go:452-468 | at shutdown every row ever queued has been taken for a frame, and each frame carries what was left of its batch |
| `Sessions.WhatArrives` | internal/server/session.go:480-503 | over all frames: the rows that reach the client are, ascending, exactly those still in the ring at their flush, and all of them arrive if and only if none had gone by then |
| `Sessions.GoneIff` | internal/server/session.go:480-487 | a queued row has gone exactly when more rows were appended from it on than the ring holds |
| `Sessions.LostBeforeFlush` | internal/server/session.go:437-503 | a run in which a row that counts as sent and not as dropped is lost before its flush |
| `Piping.LinesSplit` | internal/source/stdin/stdin.go:38-76 | the lines of a text cut in two anywhere are the lines of the first part and of its rest joined to the second |
| `Piping.LinesMeaning` | internal/source/stdin/stdin.go:57-76 | each line stands between newlines in the input, is not empty and contains none |
| `Piping.LinesComplete` | internal/source/stdin/stdin.go:57-76 | whatever stands between newlines and is not empty is one of the lines |
| `Piping.LinesOfPieces` | internal/source/stdin/stdin.go:57-76 | exactly the lines, in order and as often as they come: of pieces ended by newlines and a rest without one, the lines are the pieces that are not empty |
| `Piping.EveryTextHasPieces` | internal/source/stdin/stdin.go:57-76 | every text is made of such pieces and a rest |
| `Piping.RunGood` | internal/source/stdin/stdin.go:38-97 | over every interleaving: emitted lines and buffered lines are the lines of all input, and no wake-up is lost |
| `Piping.ChunkingDoesNotMatter` | internal/source/stdin/stdin.go:38-97 | two runs with the same bytes have emitted the same lines and hold the same rest once idle |
| `Piping.TailNeverRead` | internal/source/stdin/stdin.go:58-90 | input without a final newline is never finished, even after closing |
| `Piping.Source.Drain` | internal/source/stdin/stdin.go:53-90 | drained, the buffer holds what follows the last newline; it returns only when closed and empty |
| `Piping.Source.ReadLine` | internal/source/stdin/stdin.go:57-75 | the next non-empty line, as the reference says whose lines Piping.LinesOfPieces determines; without a newline nothing is taken |
| `Piping.Source.Push` | internal/source/stdin/stdin.go:38-51 | bytes are appended, closing and notification are recorded |
| `Overlays.Server.ActivateProfile` | internal/server/server.go:357-419 | exactly the open sources of the old owner that only the old profile declares go, all others stay untouched, new ones belong to the new owner, the sources of the user survive, and afterwards only sources of the active profile are open and owned if and only if nothing was left behind |
| `Overlays.TidyIff` | internal/server/server.go:357-419 | from any state, an activation leaves only sources that the new profile owns and declares if and only if every other open owned source is removable by the difference of the lists |
| `Overlays.TidyFromEveryState` | internal/server/server.go:357-443 | the same on the declarations alone: an activation is tidy from every tidy state if and only if it takes care of every ref of the profile that it leaves |
| `Overlays.RunTidyIff` | internal/server/server.go:357-419 | over whole runs of activations, additions, removals and ends: the open owned sources are always those of the active profile if and only if no activation of the run leaves anything behind |
| `Overlays.DisjointRunsAreTidy` | internal/server/server.go:357-419 | over whole runs, profiles that share no source never leave one of theirs open |
| `Overlays.UserSourcesSurvive` | internal/server/server.go:329-333 | in no run does an activation remove or re-own a source of the user |
| `Overlays.Server.RemoveAll` | internal/server/server.go:386-401 | the removal loop takes away exactly the removable sources |
| `Overlays.Server.AddAll` | internal/server/server.go:407-414 | what can be started runs afterwards; failures are skipped |
| `Overlays.Server.Start` | internal/server/server.go:539-599 | at most one open source for a file or a container, whoever owns it |
| `Overlays.Server.FindOpenSource` | internal/server/server.go:605-617 | an open source with that kind and name, or proof that there is none |
| `Overlays.Server.FindOpenSourceWithOwner` | internal/server/server.go:623-635 | the same, restricted to one owner |
| `Overlays.Server.RemoveSource` | internal/server/server.go:679-693 | exactly one source goes |
| `Overlays.Minus` | internal/server/server.go:425-443 | the nested loop computes the difference by kind and name |
| `Overlays.RefsMinusMeaning` | internal/server/server.go:421-443 | exactly the refs that the other list does not declare |
| `Overlays.UserSourcesSafe` | internal/server/server.go:329-333 | no activation removes or re-owns a source of the user |
| `Overlays.SwitchIsTidy` | internal/server/server.go:357-419 | switching between profiles that share no source leaves nothing behind |
| `Overlays.ReactivationIsTidy` | internal/server/server.go:339-343 | re-activation after an edit leaves nothing behind when kept refs keep their paths |
| `Overlays.UnchangedIsNoop` | internal/server/server.go:350-353 | re-activation with an unchanged list changes nothing |
| `Overlays.EditedPathLeaks` | internal/server/server.go:421-424 | an edited path under the same kind and name leaves the old file running for ever |
| `Overlays.SharedSourceLeaks` | internal/server/server.go:380-391 | a source that two profiles declare stays open when both have been left |
| `Histograms.Histogram` | internal/server/histogram.go:78-134 | every count of every cell is the number of live matching rows of that bucket and level class, and all counts add up to the counted rows |
| `Histograms.CellMeaning` | internal/server/histogram.go:107-134 | the five counts of a cell are the numbers of matching rows in its bucket whose level, in lower case, is error, fatal or panic; warn or warning; info or notice; debug or trace; or none of these |
| `Histograms.SlotMeaning` | internal/server/histogram.go:118 | a time falls into slot i exactly when it lies in the i-th bucket |
| `Histograms.BucketsReach` | internal/server/histogram.go:79-80 | the buckets reach beyond the end of the window less one second |
| `Histograms.CoversIff` | internal/server/histogram.go:79-80 | the buckets reach the end of the window if and only if what is left after the full buckets is nothing, or a second at least |
| `Histograms.NoLossIff` | internal/server/histogram.go:79-119 | no row of any log is lost under exactly that condition |
| `Histograms.WholeSecondsFit` | internal/server/histogram.go:79-80 | a window of whole seconds loses no row at its end |
| `Histograms.HalfSecondLost` | internal/server/histogram.go:79-80 | a window of half a second with buckets of one second loses its row |
| `Histograms.HistogramConserves` | internal/server/histogram.go:107-134 | the counts add up to all matching rows of the window if and only if none of them lies behind the last bucket |
| `Chips.UnquoteUndoesQuote` | web/src/lib/filter-dsl.ts:65-71 | unquoting undoes quoting for every value |
| `Chips.TermRoundTrip` | web/src/lib/filter-dsl.ts:112-123 | a chip with any operator survives printing and reading if and only if its field is not empty, has no colon and, unless it has a dot, no @ or misleading sign in front, and its value can be shown: for each operator the exact condition on value and flags |
| `Chips.TermsSplit` | web/src/lib/filter-dsl.ts:157-190 | splitting the joined expression gives back exactly the printed terms, whitespace inside quotes and brackets included |
| `Chips.ChipsRoundTrip` | web/src/lib/filter-dsl.ts:125-154 | a list of chips, whatever their operators, whose terms have no whitespace at their ends or outside quotes and brackets survives the trip through one expression if and only if every chip does and no term has parentheses or the words AND and OR |
| `Chips.EqualityApart` | web/src/lib/filter-dsl.ts:157-190 | equality chips stand apart in such a list whatever their values, if the field has no whitespace, quotes and brackets |
| `ChipFilters.ChipMeans` | web/src/lib/filter-dsl.ts:73-85 | the server parses an equality chip on a plain field to the equality that it shows if and only if its value is quoted and has no star, or is bare and a single token |
| `ChipFilters.WordCarried` | internal/filter/parser.go:282-312 | a bare value that starts like a word is carried if and only if it has no @, < or >, no dot at its end or before a dot, is no keyword and ends in no blank of the server |
| `ChipFilters.AddressSplits` | web/src/lib/filter-dsl.ts:65-71 | the value a@b.com is printed bare and the server breaks it at the @ |
| `Chips.Tokenize` | web/src/lib/filter-dsl.ts:157-190 | the splitting loop computes the terms of the text |
| `Chips.ReadClauses` | web/src/lib/filter-dsl.ts:139-154 | the reading loop computes the parse of all terms |

## Left out

- Concurrency inside one operation: appends, publications and resumes are atomic steps; a row published while a resume is running is not accounted for.
- Machine integers: counters, ids and refcounts are unbounded, except the 64-bit capacity rounding and the 32-bit numbers in bitmaps; strings and arenas above 4 GiB are not modelled.
- The ring buffers are sequences that the methods reassign, one Boolean per row stands for the packed presence bits, and a dictionary's fields are grouped in one value, so sharing of slices and bit packing are not captured.
- JSON decoding: a row arrives as decoded fields with distinct keys in some order, each with its raw bytes and what decoding it as a string or a number gives; the level extracted from an object is an input.
- Clock, xxhash, RE2, ParseFloat, case folding and Unicode letter tables: parameters of the models.
- Floating point: times and numbers are reals, so rounding and NaN are not captured.
- Per-row memoisation in the matcher (`evalCtx`): it caches pure lookups; the walk through nested JSON is a parameter of the reader.
- Error messages and token positions of the parser: only success or failure and the node are modelled.
- The store and its subscribers are modelled side by side: a publication is an append followed by one step of each subscriber, and only the number of the row passes between them.
- Unsubscribe and subscriptions from a given number: a subscriber is live and starts at the head.
- Rows stored in the tail before their key becomes hot stay there; statements about a column are about the column as it stands.
- The store's snapshot counters, DistinctStrings, AllLive, Cardinality and interner statistics: easy members.
- Printing of substring, range, comparison and regular expression nodes does not parse back in general; the round trip of trees is claimed over equalities only, while Inputs states what each form of single term parses to.
- Globs.EffectiveExact: says nothing about lists in which dropping two wilds puts two literals side by side, such as *a**b; for those only soundness and `Globs.MatchesEffective` are proved.
- Composing.EffectiveFilterConjoins: speaks of parts that the server trims nothing off and that are filters by themselves; a part that is malformed alone has no node to conjoin.
- Interning.Interner.Retain: is not claimed for a dead id, on which the source would count references; no caller has one.
- Stores.Store.New: is not claimed for capacities above 2^63, which wrap to an empty ring; `Bits.NextPow2` says so.
- ChipFilters.ChipMeans: covers equality chips on fields that are plain words; negated chips and dotted fields are not claimed.
- Filters.QueriesAgree: the absence of clashes is sufficient for compound expressions; the exact condition is stated for single equalities, since a clash can be masked by another operand.
- Chips.ChipsRoundTrip: lists with a term that has whitespace at an end or outside quotes and brackets, or an open quote or bracket, are not claimed; the tokenizer takes such terms apart or joins them.
- Histograms: 32-bit counter overflow, query parameter parsing and the response encoding.
- Overlays: detectors, events and the goroutines of sources; a source that ends by itself is one event.
- Sockets, HTTP, MCP, daemon discovery, file and docker tailing, configuration files, column sampling and the user interface.
