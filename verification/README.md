# A model of the audit archive

The repository keeps audit records as objects in an append-only bucket, seals
each hour of them into a signed hash chain, and answers queries from an index in
memory, an index in a database, or the archive itself. This project models the
parts of it that are hardest to see right, and proves what they promise.

- **Keys and walks** (`Lex`, `Text`, `Calendar`, `Layout`, `Walk`, `LastSeal`):
  how an hour is written into a key and read back, listings of a range of hours
  a page at a time, and the descent to the newest seal.
- **Seals** (`Merkle`, `Seals`, `SealReading`, `SealProtocol`, `Notary`,
  `NotaryOutcome`, `SealChecker`, `SealRules`): what an hour holds, any number of
  notaries sealing one tenant while objects are still being put, how one run ends,
  the checker that derives everything again and when it reports what, and what a
  passed check fixes.
- **Search** (`Ordering`, `Lexicographic`, `TimeText`, `Timestamptz`, `Rows`,
  `Search`, `Filter`, `FilterMeaning`, `SqlBoundary`, `SqlSearch`, `Scan`): keyset
  paging over a growing index, filters and boundaries compiled to SQL, the page of
  the database against the page of the memory, and the scan that pages by ingest
  day under a budget.
- **Facet counts** (`Facets`, `FacetCache`, `FacetQuery`): the counts kept beside
  the rows, against counting the rows.
- **Presets** (`Strictness`, `Retention`, `Compose`, `Profiles`): composing
  presets into a profile.
- **Smaller protocols** (`Hold`, `HoldProtocol`, `Keys`, `Ntp`): legal holds, key
  minting by processes that share a directory, and the offset of a clock.

Code that works by changing things is a class or a method with its loop, proved
equal to a function; protocols are state machines over their steps, with
invariants over every run; the rest is functions and lemmas. `dafny verify
dfyconfig.toml` checks the whole.

## Where the code and its promises part

Each of these is proved: the exact condition under which the code meets the
promise, or an input on which it does not.

- A newest seal fixes the seal of an earlier hour exactly when every hour between
  is sealed (`SealChecker.HistoryIsFixedExactly`). Before a tenant's first object a
  check takes what it finds (`SealChecker.EarlierSealsGoUnnoticed`), so history is
  fixed only from there on.
- A sort that names the identifier before its last term: the memory searcher may
  give the boundary row again, forwards in one case and backwards in the opposite
  one (`Search.BoundaryIsRight`, `Search.RowFollowsItself`), and the database
  refuses its own cursor on the second page (`SqlBoundary.CursorIsAcceptedBack`).
- The database keeps moments to the microsecond and the rest of the program to the
  nanosecond. A bound selects as it should exactly when no row is before it in its
  own microsecond (`FilterMeaning.PeriodIsRightWhenTold`), so `greater_than` a
  moment, which asks for a nanosecond later, gives the row at that moment, and
  `less_than_or_equal` loses it (`FilterMeaning.ANanosecondIsLost`); and rows within
  a microsecond are ordered by moment in memory and by identifier in the database
  (`SqlBoundary.MomentsAgree`, `SqlBoundary.WithinAMicrosecond`).
- RFC 3339 sort keys are out of order exactly when, within a second, one fraction
  goes on from the other (`TimeText.KeysAreChronological`).
- A prefix that is empty or nothing but 0xff selects nothing in the database
  (`FilterMeaning.PrefixIsRightWhenRaisable`); a conjunction that asks nothing
  leaves arguments behind unless it is first (`FilterMeaning.StrayArguments`).
- The archive scan always reads up to today and never less than the horizon,
  whatever period is asked for: its `Lateness` changes nothing (`Scan.Window`).
  Paging gives every row once exactly when no page ends at a record of the zero
  moment, whose cursor begins the day again (`Scan.AfterARow`,
  `Scan.PagingGivesEverything`), and can fail to end when one does
  (`Scan.NeverEnds`); and an identifier with a bar in it makes a cursor
  that is refused (`Scan.CursorTextIsRead`).
- Purging everything leaves counts of rows that are gone
  (`FacetCache.PurgeOfEverything`).
- Composed retention depends on the order of presets (`Retention.OrderMatters`,
  `Retention.MixedKeepsTheLongest`), and with an expiry that is known it follows the
  expiry alone, however long a fixed preset asks (`Retention.MixedWithAnExpiry`,
  `Retention.ExpiryEndsItSooner`).
- The note kept on the object lock can explain a reading that was not taken
  (`Profiles.NoteExplains`, `Profiles.NoteOfAnother`).
- Releasing a hold clears objects another hold still covers
  (`HoldProtocol.ReleaseProtects`, `HoldProtocol.OverlapUncovers`).
- A writer sets holds by a list it reads once a minute, so an object put after a
  hold is placed and before the list is read again is not held
  (`HoldProtocol.StaleListUncovers`). Objects under a hold carry it through a run
  exactly when no put misses one (`HoldProtocol.EveryStateProtects`), and a put can
  miss only holds placed since its writer last read (`HoldProtocol.MissedHoldIsNew`).

## Model

| member | source | states |
|---|---|---|
| Text.ReadNumber | store/layout.go:101-113 | the digit loop accepts exactly a field of the width asked that is all digits, and gives its decimal value |
| Calendar.WriteBack | store/layout.go:114-120 | carrying a date into an hour and writing it back is the identity exactly on the dates and hours of day that exist |
| Calendar.OrderOfHours | store/layout.go:40-42 | hours are ordered as their year, month, day and hour fields are |
| Layout.ParseHourAccepts | store/layout.go:101-120 | the parser accepts exactly digits of the right widths that name a date and hour that exist, as that hour |
| Layout.ParseHourExact | store/layout.go:101-120 | the fields that read as an hour are exactly those written for it |
| Layout.HourPathOrder | store/layout.go:40-42 | whatever stands before and after, keys of earlier hours sort first |
| Layout.RecordKeyExact | store/layout.go:88-126 | a key parses as an object if and only if the object is well formed and the key is the one printed for it |
| Layout.RecordKeyOrder | store/layout.go:46-48 | a tenant's keys sort by hour and then by ULID, both directions |
| Layout.ULIDCountsFrom1970 | internal/ulid/ulid.go:145-154 | the hour in a ULID is the one its milliseconds from the beginning of 1970 fall in |
| Layout.SealKeyExact | store/seals.go:53-88 | the same round trip, both ways, for seal keys |
| Layout.SealKeyOrder | store/seals.go:38-40 | a tenant's seal keys sort exactly as their hours |
| Walk.VisitPage | store/layout.go:200-208 | a page is visited up to the first key not below the stop |
| Walk.WalkRange | store/layout.go:195-212 | the paged loop ends and visits exactly the keys strictly between start and stop, once each, in order |
| Walk.WalkHours | store/layout.go:175-212 | the same between the first hour's prefix or the cursor and the prefix of the hour after the last; nothing for an empty range |
| Walk.WalkSeals | store/seals.go:92-127 | the same for the seals of a range of hours |
| Walk.WalkFindsHours | store/layout.go:175-212 | a well-formed key of the tenant is visited if and only if it is stored, its hour is in the range and it sorts after the cursor |
| Walk.WalkIsInHourOrder | store/layout.go:175-212 | visited keys come by hour, and by ULID within one |
| Walk.WalkResumes | store/layout.go:175-212 | stopping at any key and resuming after it visits what not stopping does |
| Walk.WalkFindsSeals | store/seals.go:92-127 | a seal of the tenant is visited if and only if it is stored and its hour is in the range |
| LastSeal.NewestListed | store/seals.go:136-147 | the last entry that parses, whatever strays are listed after it |
| LastSeal.Descend | store/seals.go:135-161 | at every depth, the greatest well-formed seal key under a prefix |
| LastSeal.Newest | store/seals.go:129-161 | the seal of the tenant's greatest hour whatever strays are there, and none exactly when there is none |
| LastSeal.GreatestIsNewest | store/seals.go:129-161 | the greatest well-formed key is the key of the newest hour |
| Merkle.Verify | internal/merkle/merkle.go:94-125 | the check from the leaf up accepts exactly what climbing the path accepts, and no index outside the tree |
| Merkle.PathIsAccepted | internal/merkle/merkle.go:72-92 | the path made for a leaf is accepted against the root |
| Merkle.VerifyIsExact | internal/merkle/merkle.go:72-125 | against a tree's root, a check passes for the leaf at the index with the path made for it and for nothing else |
| Merkle.ClimbsAgree | internal/merkle/merkle.go:94-125 | two leaves and paths at one position that reach one hash are the same |
| Merkle.RootBinds | internal/merkle/merkle.go:59-69 | equal roots are roots of the same records in the same order |
| Merkle.RootIsInOrder | internal/merkle/merkle.go:59-69 | the leaves beneath a root, from left to right, are the records in their order |
| Merkle.DividesAtAPower | internal/merkle/merkle.go:54 | leaves divide at the largest power of two below their number |
| Seals.Compute | internal/seal/hour.go:51-111 | an hour's objects read in turn give the functional reading, of which `SealReading.NoProblemIsClean` says when it has a problem and `SealReading.ReadingIs` what it comes to |
| Seals.CleanHour | internal/seal/hour.go:51-111 | without problems every key is a record object that decodes, there is a leaf for each record, first and last are the keys of the first and last object, and the retention is one of theirs |
| Seals.StrictIsLenient | internal/seal/hour.go:51-111 | where the strict reading finds no problem the lenient one gives the same hour |
| Seals.RetainsEach | internal/seal/hour.go:51-111 | a clean hour's retention is at least that of each of its objects |
| SealReading.NoProblemIsClean | internal/seal/hour.go:51-111 | a reading has no problem if and only if every key is a record object that decodes and every line states a hash and, read strictly, the metadata agrees and every line verifies |
| SealReading.ReadingIs | internal/seal/hour.go:51-111 | with problems or without: the objects that decode, their records and bytes, the hashes of their lines in key order and then line order, their first and last key, and their longest retention |
| SealReading.CleanLeaves | internal/seal/hour.go:51-111 | the leaves of a clean hour are the hashes its lines state, one for one, in key order and then line order |
| Seals.DueWasSealable | internal/bucketcontract/seals.go:153-155 | what a check calls due was sealable when any run began that is no older than the grace |
| Seals.SealableHasEnded | internal/cli/notary.go:175-178 | an hour that is sealable has ended, to the second a seal records |
| SealReading.SealableIs | internal/cli/notary.go:175-178 | an hour is sealable if and only if a settle window has passed since it ended |
| SealProtocol.StepKeeps | internal/cli/notary.go:269-367 | every step of any notary, stale listings, races and crashes among them, and of the writer keeps the invariant |
| SealProtocol.EveryStateKeeps | internal/cli/notary.go:269-367 | the invariant holds in every state of every interleaving |
| SealProtocol.SealsAreAChain | internal/cli/notary.go:278-366 | in every state the tenant's seals are a gap-free run from the hour of its first object, each naming the hash of the bytes stored for the hour before |
| SealProtocol.SealsAreForever | internal/cli/notary.go:344-366 | over any part of any run no seal changes |
| Notary.Sealer.Put | internal/cli/notary.go:344-352 | put if absent: a taken key is reported and nothing changes |
| Notary.Sealer.Seal | internal/cli/notary.go:319-367 | the hour loop leaves the bucket, report and newest hour of the functional loop, of which `NotaryOutcome` says what it seals, where it stops and what it reports |
| Notary.Sealer.Tenant | internal/cli/notary.go:269-370 | one run, chained onto the seal that a listing took for the newest, stale or not, or begun at the first object |
| Notary.Sealer.NewestSeal | internal/cli/notary.go:278-283 | the descent over the keys of the bucket finds the greatest hour that is sealed, and none exactly when none is |
| Notary.Sealer.RunOn | internal/cli/notary.go:269-370 | the same run, chained onto the newest seal that the descent finds |
| Notary.LoopIsSteps | internal/cli/notary.go:319-367 | the loop is one of the protocol's interleavings and ends in the same bucket |
| Notary.LoopKeepsTheChain | internal/cli/notary.go:319-367 | the loop leaves a chain and, when it ends without a problem, no hour up to its last unsealed |
| Notary.RunKeepsTheChain | internal/cli/notary.go:269-370 | the same of a whole run, whatever it finds |
| NotaryOutcome.RunSealsWhatItCan | internal/cli/notary.go:319-367 | the loop seals every hour up to the first with a key that is no record object, does not decode, disagrees with its metadata, or has a line without a hash or that does not verify; it is done if and only if there is no such hour, a quiet one being none, and otherwise names it |
| NotaryOutcome.RunReports | internal/cli/notary.go:319-367 | it reports the hours it sealed, in order, and how many of those it came to were sealed already |
| NotaryOutcome.RunSealsFrom | internal/cli/notary.go:269-370 | a whole run does so from the hour after the seal it chains onto, or from that of the first record |
| NotaryOutcome.RunRefuses | internal/cli/notary.go:278-317 | a run refuses a seal to chain onto if and only if it does not read or covers something else, and a first key if and only if it is no record's; it then changes nothing |
| NotaryOutcome.SealSays | internal/seal/payload.go:106-123 | what a seal of the chain says, in terms of the keys and lines of its hour, and at a whole second after it |
| NotaryOutcome.KeptAsLong | internal/cli/notary.go:328-333 | a seal is kept as long as the objects of its hour or, where they have no retention, of the latest hour before that has one |
| SealChecker.Report.Tenant | internal/bucketcontract/seals.go:179-259 | a finding for each stray key, then the loop that carries the seal before reports exactly the findings of each hour of the range, the seals seen and the clean hours; `SealRules` says when each rule is broken |
| SealChecker.StraysAreReported | internal/bucketcontract/seals.go:200-214 | a key is reported as a stray exactly when it is listed and is not the key of any seal |
| SealChecker.RangeHas | internal/bucketcontract/seals.go:219-257 | a finding is reported if and only if its hour is in the range and breaks that rule |
| SealChecker.PassesMeansNoFindings | internal/bucketcontract/seals.go:179-259 | a check passes exactly when every hour of its range is without fault |
| SealRules.UnreadableIsReported | internal/bucketcontract/seals.go:263-273 | a seal that is no token is reported as that alone, and exactly then; one that is no seal as that alone |
| SealRules.StatementRules | internal/bucketcontract/seals.go:274-294 | the payload rule is broken if and only if the seal is of another profile, tenant or hour or of a moment before the hour's end; the signature rule if and only if it is not believed; the chain rule if and only if it does not name the hash of the seal before, or names one where there is none |
| SealRules.RootRules | internal/bucketcontract/seals.go:296-319 | the root rule is broken if and only if the count, the objects it meters, the first or last key or the root differ from those of the objects that decode |
| SealRules.LockRules | internal/bucketcontract/seals.go:321-331 | the lock rule is broken if and only if a lock is demanded and the seal has no retention or some object that decodes is retained longer |
| SealRules.MissingRule | internal/bucketcontract/seals.go:227-245 | a seal is missing if and only if the tenant had begun by the hour and the settle window and the grace have passed since its end |
| SealRules.CleanIsWithoutFault | internal/bucketcontract/seals.go:219-257 | the seals counted are those of the range, and the clean hours exactly the sealed ones that break no rule, in order |
| SealChecker.NotaryMeetsChecker | internal/bucketcontract/seals.go:227-331 | in any state of any run, if a notary finished a run begun within the grace, a check of any range finds nothing missing and no fault of chain, root, payload or, over retained objects, lock |
| SealChecker.HistoryIsFixed | internal/bucketcontract/seals.go:219-319 | with an injective hash, two buckets that pass and hold one newest seal hold the same seals back to the hour before the range |
| SealChecker.HistoryIsFixedExactly | internal/bucketcontract/seals.go:219-319 | an hour's seal, or that it has none, is the same in every bucket that passes with the same newest seal if and only if every hour after it in the range is sealed |
| SealChecker.HistoryUnderOneCheck | internal/bucketcontract/seals.go:219-319 | the same if and only if under one and the same check of a range that is all due, for an hour that is sealed or could have a first seal that is believed |
| SealChecker.RecordsAreFixed | internal/bucketcontract/seals.go:287-319 | and so the same count, first, last and record hashes in each hour, from the tenant's first hour on |
| SealChecker.EarlierSealsGoUnnoticed | internal/bucketcontract/seals.go:227-245 | buckets that differ in a seal before the first object pass the same check with the same newest seal |
| Ordering.PageIsNext | index/memsearch.go:50-71 | a page is in order, past its boundary, and before every row past it that it leaves out |
| Ordering.PagingIsComplete | index/memsearch.go:29-85 | for any strict order, pages read to the end over an index that grows give each row present at the start exactly once, and no row that was not there by the end |
| Ordering.PrecedingIsSuffix | index/memsearch.go:60-78 | a page reached backwards is the rows immediately before its boundary, in forward order |
| Ordering.BackAgain | index/memsearch.go:60-85 | going back from a page gives the full page it was reached from |
| Lexicographic.FirstDifference | index/memsearch.go:337-378 | the loop to the first difference decides the mixed-direction order |
| Lexicographic.DisjunctsAreOrder | index/postgres/search.go:228-255 | an or of ands, one for each place of first difference, is that order |
| Lexicographic.FlipTurns | index/memsearch.go:363-366 | turning every direction round turns the order round |
| TimeText.KeysAreChronological | index/memsearch.go:320-335 | printed moments are in order if and only if not within one second with the later fraction going on from the earlier |
| Rows.AnyOfSearch | index/memsearch.go:231-254 | the loop over a list holds exactly when some value is equal or in the set, or none is for a negated operator |
| Rows.FieldsAreTheirOwn | index/memsearch.go:167-185 | asking any of the fourteen fields to be a value gives exactly the rows whose own component of that name is the value |
| Rows.PeriodIs | index/memsearch.go:279-288 | a period is from its start up to and without its end, of the moment it is asked of |
| Rows.TargetsAre | index/memsearch.go:196-205 | a target is asked of every target of the row, type or identifier |
| Rows.DataIs | index/memsearch.go:256-277 | a value is asked of what is recorded at its path, by the kind it is asked as |
| Rows.AllAreAsked | index/memsearch.go:148-212 | a conjunction asks everything it names, and one that holds is enough for a filter |
| Search.BuildOrder | index/memsearch.go:301-318 | the order built term by term: every field asked for, each once, a default, and the identifier added unless named |
| Search.OrderIsTotal | index/memsearch.go:301-318 | with the identifier in it an order separates any rows with distinct identifiers |
| Search.After | index/memsearch.go:354-380 | the rows kept are exactly those past the boundary in the paging's direction; values beyond the order's terms are not looked at |
| Search.BeyondIsLater | index/memsearch.go:354-388 | with the identifier last, past a row's boundary is strictly later than the row, or sooner backwards |
| Search.BoundaryIsRight | index/memsearch.go:354-388 | for any order naming the identifier and either direction, a page follows its boundary if and only if the identifier is last or the row's last key is not past its identifier in that direction |
| Search.RowFollowsItself | index/memsearch.go:354-388 | sorted by identifier and then action, a row that follows itself forwards and one that precedes itself backwards |
| Search.Reverse | index/memsearch.go:61-63 | the in-place swap from both ends reverses |
| Search.Select | index/memsearch.go:45-51 | the rows granted and matching, in place |
| Search.CutPage | index/memsearch.go:60-78 | turned, cut at the limit and turned back: the first rows of what is left, or the last ones backwards |
| Search.Find | index/memsearch.go:29-85 | a whole search, its page and both boundaries, as the lemmas from `Search.PageIsGranted` on say |
| Search.Ask | index/memsearch.go:29-85 | refused exactly without a profile, or else for more than four conjunctions, and otherwise that page |
| Search.PageIsGranted | index/memsearch.go:45-51 | a page holds rows that are there, of a granted tenant where any is named, and that match |
| Search.PageIsBounded | index/memsearch.go:29-85 | a hundred rows unless asked, a thousand at most, full when there is more; an empty page keeps its place |
| Search.MoreMeansMore | index/memsearch.go:66-71 | there is more if and only if a row that is granted, matches and is past the boundary is not on the page |
| Search.PageIsSorted | index/memsearch.go:320-352 | in order, up or down, by the row's own component that is asked for first: texts by bytes, moments by second |
| Search.DefaultOrder | index/memsearch.go:301-318 | a sort that asks nothing is newest first and then by identifier |
| Search.TermsKeepTheirPlace | index/memsearch.go:301-318 | the terms kept are the first to name each field, with their directions and in their order |
| Search.ForwardIsFollowing | index/memsearch.go:29-85 | a forward search is the page that follows the row its boundary was taken from |
| Search.BackwardIsPreceding | index/memsearch.go:29-85 | a backward search is the page immediately before that row |
| Search.PagingGivesEachOnce | index/memsearch.go:29-85 | whatever rows are inserted between pages, every matching row present when paging began is given exactly once, in order, and nothing is given that does not match or was not there by the last page |
| Search.PagingBackReturns | index/memsearch.go:76-84 | from the second page's previous boundary, with one limit, the first page comes back |
| Filter.UpperBoundInPlace | index/postgres/filter.go:121-131 | raising the last byte that can be raised gives the functional bound |
| Filter.RangeIsPrefix | index/postgres/filter.go:114-131 | for a prefix with a byte below 0xff, the range from it to its bound is exactly the strings that begin with it |
| Filter.NoUpperBound | index/postgres/filter.go:121-131 | any other prefix gets the empty bound, below which there is nothing |
| Filter.Builder.Conjunct | index/postgres/filter.go:36-99 | clauses and numbered arguments of a conjunction appended in order, or refused |
| Filter.Builder.Write | index/postgres/filter.go:16-34 | the whole filter: an or of ands, or no clause at all once a conjunction asks nothing |
| FilterMeaning.CompilationKeepsMeaning | index/postgres/filter.go:16-182 | whenever a filter compiles, its clause with its arguments is true of a row's columns, in SQL's three values and whole microseconds, exactly when the filter matches the row, for prefixes and moments that the columns can tell |
| FilterMeaning.MeaningStays | index/postgres/search.go:37-40 | a clause means the same as arguments are added after its own |
| FilterMeaning.PrefixIsRightWhenRaisable | index/postgres/filter.go:101-119 | a prefix selects what it should if and only if it has a byte to raise or the value does not begin with it |
| Timestamptz.BoundIsRightWhenTold | index/postgres/schema/0001_index.sql:24-26 | a comparison to the microsecond gives what one to the nanosecond does if and only if the moment is not before the bound in the same microsecond |
| Timestamptz.EqualIsRightWhenTold | index/postgres/schema/0001_index.sql:86 | equality to the microsecond is equality if and only if the two are told apart both ways |
| FilterMeaning.PeriodIsRightWhenTold | index/postgres/filter.go:133-143 | the exact condition on which a compiled period selects as `Matches` does |
| FilterMeaning.ANanosecondIsLost | internal/query/compile.go:214-234 | a row at the moment asked is given by `greater_than` and lost by `less_than_or_equal`, unless the moment is the last nanosecond of its microsecond |
| FilterMeaning.ItemsCompile | index/postgres/filter.go:36-182 | a conjunction is refused exactly when it asks an unknown operator, or a prefix of a list |
| FilterMeaning.HoldsIsItems | index/memsearch.go:167-212 | a conjunction holds exactly when every predicate compiled from it does |
| FilterMeaning.StrayArguments | index/postgres/filter.go:22-29 | a filter that asks nothing leaves no unused arguments if and only if its first conjunction is the one that asks nothing |
| Filter.StoresTheFirst | index/postgres/postgres.go:488-513 | the values the database holds of a row are the first at each path, one for each |
| SqlBoundary.Statement.WriteBoundary | index/postgres/search.go:220-257 | one clause for each term, equal before it and past it there, each with its own argument; refused exactly for a wrong length or a field that is no column |
| SqlBoundary.DisjunctionIsBeyond | index/postgres/search.go:220-257 | the or of ands selects exactly the rows past the boundary in the mixed-direction order, forwards and backwards |
| SqlBoundary.ClauseIsStrictlyLater | index/postgres/search.go:197-276 | with the identifier last, that is strictly later than the boundary row in the order the statement sorts by |
| SqlBoundary.CursorIsAcceptedBack | index/postgres/search.go:259-276 | a cursor given is accepted back if and only if every term is a column and the identifier is not before the last |
| SqlBoundary.SearchersAgree | index/memsearch.go:337-352 | where the moments an order sorts by sort alike, memory and database put rows in one order |
| SqlBoundary.MomentsAgree | index/memsearch.go:320-335 | memory and database agree on two moments if and only if they are one or differ in their microsecond and print in order |
| SqlBoundary.WithinAMicrosecond | index/memsearch.go:337-352 | rows of one microsecond that memory orders by moment and the database by identifier |
| SqlSearch.Assemble | index/postgres/search.go:131-142 | of one row more than the limit: whether there is another page, the extra row dropped, turned round when read backwards, and the boundaries of its ends, or the one asked for where there is no row |
| SqlSearch.SortsAgree | index/postgres/search.go:197-213 | rows that sort alike are listed as memory sorts them, or from the end when read backwards |
| SqlSearch.DatabaseIsMemory | index/postgres/search.go:85-151 | for rows and a query the columns can tell, the statement's filter, boundary, order, limit and reversal give the same page and the same answer to whether there are more as the search in memory |
| SqlBoundary.CastOfPrinted | index/postgres/search.go:263-266 | a printed moment is cast to the microsecond a column holds it in if and only if it is in the first half of one or in the middle of an even one, as every moment read from a column is |
| Scan.Window | index/s3scan/s3scan.go:295-317 | the days walked end today, begin no later than the horizon and each period's start, and at one of those |
| Scan.ListDays | index/s3scan/s3scan.go:212-223 | the days listed and reversed in place are the walk's |
| Scan.TakeRows | index/s3scan/s3scan.go:189-201 | a day's rows past the cursor are taken until the page overflows, which it then says |
| Scan.Search | index/s3scan/s3scan.go:134-208 | a page is the next rows owed, at most the limit; the objects of the days it read are within the budget; it ends before a day if and only if something was read and that day would pass the budget or is late, else at the row the limit cuts off, and its cursor leaves precisely the rest owed and less to do, or begins the day again after a row of the zero moment; otherwise nothing is owed; over budget if and only if the first day ahead with objects has more than the budget |
| Scan.AfterARow | index/s3scan/s3scan.go:242-263 | after the cursor of a row of what is owed, exactly the rows after it are owed, if and only if the row did not happen at the zero moment |
| Scan.AfterNoMoment | index/s3scan/s3scan.go:250-255 | after the cursor of a row of the zero moment its whole day is owed, and all that follow |
| Scan.BeforeADay | index/s3scan/s3scan.go:163-167 | a day cursor owes the day and all that follow, in full |
| Scan.PagingGivesEverything | index/s3scan/s3scan.go:134-208 | however requests stop, following cursors to the end gives every granted matching row exactly once in day, moment and identifier order if and only if no page ends at a row of the zero moment, and then in a bounded number of requests |
| Scan.PagingIsComplete | index/s3scan/s3scan.go:134-208 | so it does in every run over an archive with no row of the zero moment |
| Scan.NeverEnds | index/s3scan/s3scan.go:134-208 | with all objects on one day and the row the limit cuts off at the zero moment, no sequence of requests reaches an end |
| Scan.FollowedCovers | index/s3scan/s3scan.go:134-208 | every row owed is given, whatever row a page ends at |
| Scan.EverythingIsEach | index/s3scan/s3scan.go:212-239 | that is every row of every day of the window, once, by day and moment up or down and then by identifier |
| Scan.NoMomentRepeats | index/s3scan/s3scan.go:250-255 | a row's cursor owes the row again if and only if it happened at the zero moment |
| Scan.CursorTextIsRead | index/s3scan/s3scan.go:407-455 | a cursor's text is read back as written if and only if the identifier has no bar in it |
| Facets.RowFacets | index/index.go:202-234 | the deltas of a row, field by field |
| Facets.MarksAreCarried | index/index.go:202-234 | a row implies a count exactly when it carries the value, for its own tenant and hour |
| Facets.ImpliedOnce | index/index.go:219-232 | no count is implied twice if and only if no two facet values share a pointer and a text |
| Facets.CountedByName | index/index.go:202-218 | each counted component of a row is counted under its own name, where it says something |
| Facets.CountedWhereRecorded | index/index.go:202-207 | a count is of the row's tenant and of the hour it was recorded in |
| Facets.PrintedTells | index/index.go:237-251 | values of one kind are counted together if and only if they are the same number, flag, text or, to the second, moment |
| FacetCache.Merge | index/index.go:345-362 | one delta for each key, by tenant, hour, field and value, and every key's total is conserved |
| FacetCache.Memory.Index | index/memory.go:38-62 | the first row of each identifier is kept, its counts are added, and other profiles are untouched |
| FacetCache.Memory.Purge | index/memory.go:65-82 | rows before the moment are removed or blanked, as `FacetCache.PurgeForgetsWho` says; counts stay |
| FacetCache.PurgeForgetsWho | index/memory.go:65-82 | after an identifying purge no row recorded before the moment is found by an actor, subject, address, request or trace; by every other field it is found as it was, its moments, targets and data are its own, and a row recorded since is untouched; a full purge leaves exactly the rows recorded since |
| FacetCache.StepKeepsCounts | index/memory.go:38-82 | a batch or an identifying purge keeps every count equal to the number of rows |
| FacetCache.CountsAreCorrect | index/memory.go:38-82 | after any sequence of batches, redeliveries and identifying purges, each count is the number of rows that carry the value |
| FacetCache.PurgeOfEverything | index/memory.go:72-75 | a full purge leaves the counts right if and only if no row it removes carried anything counted |
| FacetQuery.CountRow | index/memsearch.go:99-107 | one row adds one to each value of the field it carries, however often it names it |
| FacetQuery.CountField | index/memsearch.go:93-109 | each value's count is the number of granted matching rows that carry it |
| FacetQuery.Top | index/memsearch.go:110-122 | the most frequent values up to the limit, by falling count and then by value: no value left out counts more than one given |
| FacetQuery.FacetsAreTheCounts | index/memsearch.go:88-125 | without a filter, counting rows gives the stored counts added over the hours of the tenants granted |
| Strictness.RankSearch | preset/profile.go:330-337 | the first place of a reading in an order, or below all |
| Strictness.FoldIsStrictest | preset/profile.go:329-345 | folded in any order, readings give one that is at least as strict as each, and one of them unless all are silent |
| Strictness.WhenOrderMatters | preset/profile.go:329-345 | which of two readings comes first matters if and only if they differ and neither is known or silent |
| Strictness.FoldIsByName | preset/profile.go:329-345 | the fold is a known reading if and only if it is among the readings and none further on in the order is |
| Strictness.FirstTextIs | preset/profile.go:347-352 | the first text that says anything, or none where none does |
| Retention.FixedKeepsTheLongest | preset/profile.go:181-194 | with fixed presets in any order, copies are kept exactly as long as the longest of them asks |
| Retention.AfterExpiryKeepsTheLongest | preset/profile.go:181-194 | likewise with presets that count from an expiry, known or not |
| Retention.FallbackIsGreatest | preset/profile.go:258-266 | the days for an unknown expiry are the greatest of the fallbacks and of the days listed before the first of them |
| Retention.MixedKeepsTheLongest | preset/profile.go:251-277 | with both kinds and an unknown expiry, no preset outlasts the profile if and only if each fixed one asks no more than something counted gives |
| Retention.YearsAreGreatest | preset/profile.go:258-266 | the composed years are the most among the presets that count from an expiry, wherever fixed ones stand |
| Retention.MixedWithAnExpiry | preset/profile.go:181-194 | with both kinds and a known expiry, no preset outlasts the profile if and only if each fixed one has ended by the years after the expiry that some other asks |
| Retention.ExpiryEndsItSooner | preset/profile.go:256-266 | ten years fixed beside one year after an expiry that falls at writing: kept until a year on, in either order, which is sooner than the ten |
| Retention.FixedFirstKeepsTheLongest | preset/profile.go:251-277 | so it is when fixed presets come first and no minimum is above its days |
| Retention.OtherTerms | preset/profile.go:267-273 | in any order: hot for as long as the longest asks, deleted or published if any says so, configurable if all are |
| Retention.OrderMatters | preset/profile.go:258-266 | two presets whose order decides between ten years and one |
| Retention.KeptFor | preset/profile.go:181-194 | fixed: exactly its days or its minimum, the greater; after an unknown expiry: the fallback's days; after a known one: its years on |
| Retention.YearsKeepTheDay | preset/profile.go:181-194 | years on is the same day and time, or the first of March for a 29th of February that the year does not have |
| Compose.Compose | preset/profile.go:52-135 | each refusal exactly when its condition holds, and otherwise the union of the presets' fields, sorted, and the fold of the rest, of which `Profiles` says what it is, reading by reading |
| Profiles.NeverWeaker | preset/profile.go:95-103 | a profile is at least as strict as every preset in digest, lock, anchor, hold, clock, review cadence and identity |
| Profiles.IdentityIsStrictest | preset/profile.go:95-99 | each category some preset treats, and no other, has the strictest of their treatments |
| Profiles.IdentityByName | preset/preset.go:46-47 | omitted if any preset omits it, else a pseudonym if any asks one, else scoped if any scopes it, and clear only where all that name it leave it clear |
| Profiles.DigestByName | preset/profile.go:279-285 | required if any preset requires it, recommended if any recommends and none requires it |
| Profiles.LockByName | preset/preset.go:152-163 | compliance if any preset demands it, governance if any demands that and none compliance, none only if some says so and none demands one |
| Profiles.CadenceByName | preset/profile.go:301-307 | as often as the preset that wants it most often |
| Profiles.OthersByName | preset/profile.go:279-290 | the timestamp anchor, legal hold and clock event, likewise |
| Profiles.PipelineIsWidest | preset/profile.go:309-325 | the widest windows and the earliest close among the presets |
| Profiles.OrderDoesNotMatter | preset/profile.go:52-135 | listing the same presets otherwise, or one again, changes nothing but notes, evidence and retention |
| Profiles.NoteExplains | preset/profile.go:291-299 | the composed note explains the lock taken if and only if there is no note from the first preset of that lock on, or the first there is is the note of a preset of that lock |
| Profiles.NoteIsFirst | preset/profile.go:291-299 | the composed note is the first there is from the first preset of the strictest lock on |
| Profiles.NoteOfAnother | preset/profile.go:291-299 | three presets whose composed note is of the lock that was not taken |
| Profiles.EvidenceIsFirst | preset/profile.go:301-307 | the evidence of a review is the first that any preset names |
| Profiles.RetentionNoteIsFirst | preset/profile.go:251-277 | the note on the retention is the first that any preset has |
| Profiles.KeepsField | preset/profile.go:143-157 | the two loops decide exactly the field policy |
| Profiles.KeepsExactly | preset/profile.go:104-157 | what is kept, in the presets' own terms, both directions |
| Profiles.RequiredAndForbidden | preset/profile.go:104-157 | every required field is kept; no forbidden one is, nor anything beneath it |
| Profiles.CarriersAreKept | preset/profile.go:149-155 | whatever carries a kept field is kept |
| Profiles.OptionalIsKept | preset/profile.go:104-157 | an optional field is kept if and only if no preset forbids it or what it is beneath |
| Profiles.PropertiesByPreset | preset/profile.go:161-169 | a property is kept if and only if some preset keeps its class, audit when it declares none, and none forbids how personal it is |
| Hold.KeysTell | internal/hold/hold.go:187-194 | a hold's two keys give back its identifier and which they are, whatever the identifier |
| Hold.List | internal/hold/hold.go:99-138 | every hold once, as it stands, in whatever order its keys are read, the newest first |
| Hold.Active | internal/hold/hold.go:147-184 | exactly the unreleased holds of the list, each once, the newest first |
| Hold.BlankIsTrimmed | internal/hold/hold.go:204-243 | a reason or a name counts as none if and only if nothing is left of it without white space at its ends |
| Hold.Store.Sweep | internal/hold/hold.go:292-310 | a paged sweep sets or clears exactly the objects under the prefix and counts them |
| Hold.Store.Place | internal/hold/hold.go:204-233 | refused exactly by its guards; otherwise recorded and everything under the prefix held |
| Hold.Store.Release | internal/hold/hold.go:240-265 | refused unless somebody is named and the hold is on; otherwise recorded and everything under the prefix cleared |
| HoldProtocol.CoversIsPrefix | internal/hold/hold.go:59-86 | an object is under a hold's prefix exactly when the hold covers its profile and tenant |
| HoldProtocol.PlacedIsOn | internal/hold/hold.go:204-233 | a hold just placed is on, and the records consistent, if and only if its record names no release |
| HoldProtocol.StepKeepsRecords | internal/hold/hold.go:204-265 | placing, releasing, reading the list and writing keep the records consistent |
| HoldProtocol.ReleaseProtects | internal/hold/hold.go:240-265 | a release leaves every object under a hold that is on held if and only if no object was under both |
| Hold.Watcher.Held | internal/hold/watcher.go:35-44 | true exactly when some hold of the list last read covers the profile and tenant |
| Hold.Watcher.Refresh | internal/hold/watcher.go:54-63 | the list becomes exactly the holds that are on |
| HoldProtocol.WriteProtects | internal/writer/roll.go:203-220 | a put leaves every object under a hold that is on held if and only if the hold is set on it whenever one that is on covers it |
| HoldProtocol.FreshListCovers | internal/hold/watcher.go:35-63 | a list just read covers exactly what the holds that are on do |
| HoldProtocol.StepProtects | internal/writer/roll.go:203-220 | where holds do not overlap, a step keeps objects held if and only if it is not a put that misses a hold |
| HoldProtocol.EveryStateProtects | internal/hold/watcher.go:19-62 | in every run where holds on at one time do not overlap, every object under a hold that is on carries it in every state if and only if no put missed a hold by its writer's list |
| HoldProtocol.ListWasRead | internal/hold/watcher.go:54-63 | every list a writer acts on is the holds as they stood in some earlier state |
| HoldProtocol.MissedHoldIsNew | internal/hold/watcher.go:19-23 | a put misses only holds that were placed after its writer last read the list |
| HoldProtocol.StaleListUncovers | internal/hold/watcher.go:19-23 | for every hold and object in its scope there is a run, read, place, put, that leaves the object deletable under the hold |
| HoldProtocol.OverlapUncovers | internal/hold/hold.go:240-265 | for any two holds with a scope in common there is an object that a release leaves deletable |
| Keys.Directory.CreateOnce | keys/local.go:283-307 | a file is published unless there is one, and who won is said |
| Keys.Local.Key | keys/local.go:202-274 | the key returned is the one the directory's file unwraps to, whether found, minted or another's; destroyed names are refused; no file changes |
| Keys.StepKeeps | keys/local.go:202-307 | every step of any process keeps every cached and returned key equal to its file |
| Keys.KeyIsTheFiles | keys/local.go:202-307 | however processes interleave, a returned key is what the file unwraps to from then on |
| Keys.OneKeyForAName | keys/local.go:202-307 | no two calls for a name, by any processes at any time, return different keys |
| Keys.NeverStuck | keys/local.go:242-274 | a process that minted can always finish with a key, its own or the winner's |
| Ntp.TimestampIncreases | internal/clock/ntp.go:159-164 | timestamps are ordered as moments are, both ways, while the seconds fit 32 bits |
| Ntp.AtOfTimestamp | internal/clock/ntp.go:159-174 | written and read, a moment is itself if its nanoseconds are a multiple of 5 to the 9th and one less otherwise, and none for the moment at zero |
| Ntp.AnotherEra | internal/clock/ntp.go:159-174 | the moment read is within a nanosecond if and only if the seconds fit 32 bits |
| Ntp.CountsFrom1900 | internal/clock/ntp.go:23-24 | the offset is the seconds from the beginning of 1900 to that of 1970 |
| Ntp.JudgeTakes | internal/clock/ntp.go:90-127 | a reply is taken if and only if it is whole, from a server, of a stratum from 1 to 15, echoes the request and names both moments |
| Ntp.JudgeRefuses | internal/clock/ntp.go:90-110 | and otherwise refused for the first reason that holds, each if and only if |
| Ntp.JudgeReads | internal/clock/ntp.go:111-127 | the offset is half of what both ways seem ahead, towards nothing, and the delay what the exchange took beyond the time at the server, never less than nothing |
| Ntp.OneRequest | internal/clock/ntp.go:100-110 | a reply is taken for one request of the era and for no other |
| Ntp.OffsetIsWithinHalfTheDelay | internal/clock/ntp.go:111-127 | for any true offset and path delays, twice the error is at most the delay and one nanosecond above, or the delay and three below |
| Ntp.LowerBoundIsReached | internal/clock/ntp.go:117-123 | some exchange errs by exactly the bound below |
| Ntp.UpperBoundIsReached | internal/clock/ntp.go:117-123 | some exchange errs by exactly the bound above |
| Ntp.BestBoundsTheError | internal/clock/ntp.go:130-156 | the reading chosen is within the error bound of every answer that was taken |
| Ntp.Best | internal/clock/ntp.go:135-156 | the first of the shortest round trips among the answers, none if and only if all failed, and every failure in order |

## Left out

- Signatures, delegations and trust: a seal's signature is a value, and whether it is believed is a predicate given to the check.
- Hashing: SHA-256 is an injective function; Merkle hashes are the terms they hash.
- JSON, zstd and protobuf encodings, and record object decoding beyond its outcome for each line.
- SQL text: clauses are a syntax tree with numbered arguments; rendering, execution, grants, and identifiers held as uuid are not modelled.
- Store failures other than a taken key, and listings that fail half way; sleeping and deadlines, which are oracles.
- Several profiles or tenants at once in the seal protocol: each tenant's chain is its own, and a check reads one state of the bucket.
- Walk.WalkHours: a stray key between the first and last hour is visited too, as in the code; the error its function may return is stopping and resuming. The walk of every tenant of a profile repeats it.
- Search.After: a cursor with fewer values than the order has terms is outside its contract, and that of Search.Find, since the code indexes past the end of it.
- Search.Find: the sequence number in a boundary is not modelled.
- FacetQuery.Top: sorting values is stated for one field; the loop over the fields asked for repeats it.
- FacetCache.Merge: totals are unbounded integers, not 64 bits.
- Keys.Local.Key: a process without a directory, destroying keys, and I/O errors other than bytes that do not unwrap are left out.
- Ntp.OffsetIsWithinHalfTheDelay: durations are unbounded, where Go's saturate after 292 years.
- SqlSearch.DatabaseIsMemory: rows compare as they were indexed; what comes back has its moments cut to the microsecond, and its cursors are printed from those.
- Notary.Sealer.RunOn: the first key of the tenant is given, as what a listing of one key says of the bucket.
- HoldProtocol.EveryStateProtects: placing and releasing are steps that record and sweep at once, so a put between a record and its sweep is not modelled.
- Scan.Search: objects of a day are given with their granted, matching rows, so reading and decoding them is not modelled; the refusals of other sort fields are left out.
- Deployment, configuration, transports, remote key services, deduplication stores, replay and reindex output.
