# exchange-info in Dafny

A model of the core of `exchange-info`, a TypeScript library that fetches static information
about a cryptocurrency exchange: its name, documentation and endpoint URLs, fees, running status
and its trading pairs. Each venue adapter fetches the venue's own listing. It turns every record
into a `PairInfo` whose `normalizedPair` ("BTC_USD") must agree with an external normalization
oracle. It keeps the records the market-type filter (`All`, `Spot`, `Futures`, `Swap`) selects,
and returns them keyed by normalized pair. A dispatcher picks the adapter by exchange name.

Modules, one per source file plus three shared ones:

- `Outcomes` (`outcomes.dfy`): the error kinds and the `Option` and `Result` wrappers. A failed
  `assert` in the source becomes a `Failure` with the kind of check that failed.
- `Text` (`text.dfy`): the string operations the adapters use, modelled on `seq<char>` with
  their properties:
  - `split` on one character and its inverse `join`;
  - `replace` of the first occurrence;
  - ASCII `toUpperCase`;
  - `parseInt(s, 10)` on digit strings.
- `Canonical` (`pair_info.dfy`): the `PairInfo` and `ExchangeInfo` records, the normalization
  oracle as a function parameter, `convertArrayToMap` (`ToMap`), and the population of every
  record with the first failure aborting (`MapAll`, with the loop `PopulateEach`).
- `Kraken`, `Bitstamp`, `Newdex`, `ZB`: the four adapters.
- `Dispatcher` (`index.dfy`): the exchange list and the top-level `getExchangeInfo`.

The adapters' loops are methods. Each is proved equal to a specification function, and the
properties are proved as lemmas about that function. The loops are:

- Kraken's per-token alias loop and its `forEach`;
- Bitstamp's `forEach` followed by the filter reassignments;
- ZB's key loop;
- Newdex's paginated `while (more)` fetch.

The Newdex fetch need not stop: a page that reports `more` but contributes no rows repeats
forever. So its specification `Collect` takes a fuel bound and yields `None` when the fetch has
not finished within it. Callers of `FetchPairRows` and of the Newdex `Pairs` must show that it
finishes (`Terminates`). `getExchangeInfo` needs this only once the configuration read has
succeeded, because a failed configuration read aborts before any page is fetched. The lemmas
`StuckPageNeverFinishes` and `StuckFirstPage` show that a source exists for which the fetch does
not finish. For a source that serves a fixed table in id order (`ServesTable`), a finished fetch
under `All` returns every row of the table exactly once, in id order, and under any other filter
every active row exactly once. Without a filter the fetch always finishes, and under `Spot` its
pairs are among those of `All`.

## Model

| member | source | states |
|---|---|---|
| Text.Join | src/exchange/kraken.ts:53 | joining `n` separator-free pieces places exactly `n - 1` separators |
| Text.OccurrencesConcat | src/exchange/kraken.ts:53 | separators in a concatenation add up |
| Text.SplitFirstIsPrefix | src/exchange/kraken.ts:75 | the first piece of a split is a prefix of the string, followed by the separator unless it is the whole string |
| Text.FirstPiece | src/exchange/kraken.ts:75 | `split(c)[0]` is the longest prefix free of `c`: a prefix of the string, followed by `c` unless it is the whole string |
| Text.Split | src/exchange/kraken.ts:47 | `split(c)` yields one piece more than there are separators, and no piece contains the separator |
| Text.JoinSplit | src/exchange/kraken.ts:47 | joining the pieces of a split with the same separator gives back the original string |
| Text.SplitJoin | src/exchange/kraken.ts:53 | splitting a join of separator-free pieces gives back the pieces (the inverse direction) |
| Text.SplitAfterPiece | src/exchange/bitstamp.ts:33 | a split of `a + c + b` with `c` absent from `a` starts with `a` |
| Text.ReplaceFirst | src/exchange/bitstamp.ts:12 | replacing the first occurrence keeps the length |
| Text.ReplaceFirstAbsent | src/exchange/bitstamp.ts:12 | a string without `c` is unchanged by replacing the first `c` |
| Text.ReplaceFirstBySplit | src/exchange/bitstamp.ts:12 | `replace` of the first `c` by `d` is the first piece, `d`, then the remaining pieces re-joined with `c`; a string without `c` is unchanged |
| Text.ReplaceFirstAfterPiece | src/exchange/bitstamp.ts:12 | with `c` absent from `a`, replacing in `a + c + b` gives `a + d + b` |
| Text.UpperChar | src/exchange/zb.ts:16 | an ASCII lower-case letter moves down 32 code points; any other character is kept; no result is lower case |
| Text.ToUpper | src/exchange/zb.ts:16 | upper-casing keeps the length and maps every character by `UpperChar` |
| Text.ToUpperProperties | src/exchange/zb.ts:16 | an upper-cased string holds no lower-case letter, and upper-casing is idempotent |
| Text.ParseNat | src/exchange/newdex.ts:42-43 | `ParseNat` yields a value exactly for non-empty ASCII digit strings |
| Text.DecimalText | src/exchange/newdex.ts:56 | the decimal text of a number is a digit string |
| Text.ParseDecimalText | src/exchange/newdex.ts:56-58 | parsing the decimal text of `n` gives `n` back (round trip) |
| Canonical.ToMap | src/exchange/bitstamp.ts:45 | the keys of `convertArrayToMap` are exactly the records' normalized pairs, and each value sits under its own normalized pair |
| Canonical.ToMapLastWins | src/exchange/bitstamp.ts:45 | a record whose normalized pair no later record repeats is the value stored under it |
| Canonical.ToMapValuesFromRecords | src/exchange/bitstamp.ts:45 | every value of the map is one of the records |
| Canonical.MapAll | src/exchange/bitstamp.ts:24-38 | populating every record succeeds iff every record populates; then the result is the populated records in order; otherwise the error is that of the first rejected record |
| Canonical.FirstRejectedUnique | src/exchange/bitstamp.ts:24-38 | the first rejected record is unique |
| Canonical.MapAllRejects | src/exchange/bitstamp.ts:24-38 | the first rejected record's error is the overall outcome |
| Canonical.MapAllAccepts | src/exchange/bitstamp.ts:24-38 | when every record populates, the outcome is the sequence of populated records |
| Canonical.MapAllToMapValue | src/exchange/bitstamp.ts:24-45 | every value of the resulting map is the population of some raw record |
| Canonical.PopulateEach | src/exchange/bitstamp.ts:24-38 | the `forEach` loop computes `MapAll` |
| Canonical.Keep | src/exchange/kraken.ts:64 | `filter` keeps exactly the elements satisfying the predicate and never lengthens |
| Canonical.KeepSingle | src/exchange/kraken.ts:64 | a one-element array keeps its element iff it satisfies the predicate |
| Canonical.KeepConcat | src/exchange/kraken.ts:64 | filtering a concatenation is concatenating the filtered parts, so order and multiplicity are kept |
| Kraken.Alias | src/exchange/kraken.ts:50-51 | "XBT" becomes "BTC", "XDG" becomes "DOGE", any other token is kept |
| Kraken.NormalizedPair | src/exchange/kraken.ts:46-54 | deriving the normalized pair fails with a malformed record exactly when the wsname does not hold exactly one slash |
| Kraken.NormalizedPairOfTokens | src/exchange/kraken.ts:46-54 | `base/quote` with slash-free tokens becomes the aliased base, `_`, and the aliased quote |
| Kraken.AliasBaseExample | src/exchange/kraken.ts:50 | "XBT/USD" normalizes to "BTC_USD" |
| Kraken.AliasDogeExample | src/exchange/kraken.ts:51 | "XDG/EUR" normalizes to "DOGE_EUR" |
| Kraken.AliasQuoteExample | src/exchange/kraken.ts:49-52 | the alias loop also rewrites the quote: "ETH/XBT" normalizes to "ETH_BTC" |
| Kraken.MalformedExamples | src/exchange/kraken.ts:48 | "XBTUSD" and "A/B/C" fail the two-part check |
| Kraken.ExtractNormalizedPair | src/exchange/kraken.ts:46-54 | the split, length check, in-place alias loop and join compute `NormalizedPair` |
| Kraken.MinBaseQuantity | src/exchange/kraken.ts:8-40 | a base currency has a minimum order size exactly when the table lists it |
| Kraken.Populate | src/exchange/kraken.ts:42-44 | a populated record has the wsname as raw pair and the oracle's answer for it as normalized pair; a failure is a malformed record or a mismatch |
| Kraken.PopulateFields | src/exchange/kraken.ts:65-78 | a record populates iff its pair derives and agrees with the oracle; a bad slash count is malformed, a disagreement is a canonicalization mismatch; a populated record has the wsname as raw pair, pair decimals for price and quote, lot decimals for base, minimum quote 0, and is spot |
| Kraken.PopulateByParts | src/exchange/kraken.ts:42-78 | population is the derivation's failure, or a mismatch against the oracle, or the filled record |
| Kraken.MinBaseFollowsAlias | src/exchange/kraken.ts:75 | the minimum base quantity is looked up under the aliased base currency |
| Kraken.MinBaseExamples | src/exchange/kraken.ts:8-40 | XBT gets 0.002 (as BTC), XDG gets 3000 (as DOGE), an unlisted base gets none |
| Kraken.PopulateListed | src/exchange/kraken.ts:65-78 | the `forEach` over the kept records computes `MapAll` of `Populate` |
| Kraken.Pairs | src/exchange/kraken.ts:56-82 | a failure is a transport error, a malformed record or a mismatch; every value sits under its own normalized pair |
| Kraken.GetPairs | src/exchange/kraken.ts:56-82 | the method (transport and API-error checks, wsname filter, population, filter) computes `Pairs` |
| Kraken.FilterOutcomes | src/exchange/kraken.ts:80-81 | `Spot` gives what `All` gives; `Futures` and `Swap` agree, giving an empty map once population succeeds and the same failure otherwise |
| Kraken.TransportFailures | src/exchange/kraken.ts:60-62 | a bad transport or a non-empty API error list aborts with a transport error |
| Kraken.PairsAgreeWithOracle | src/exchange/kraken.ts:64-80 | every value is keyed by its normalized pair, agrees with the oracle, is spot, and comes from a listed record with a non-empty wsname |
| Kraken.PairsKeys | src/exchange/kraken.ts:64-80 | the keys under `All` are exactly the derived pairs of the records that have a wsname |
| Kraken.GetExchangeInfo | src/exchange/kraken.ts:84-101 | the descriptor is Kraken's, not a DEX, running, with fees 0.0016/0.0026, carrying exactly the pairs; it fails iff fetching the pairs fails |
| Bitstamp.NormalizedPair | src/exchange/bitstamp.ts:11-13 | the rewritten name has the name's length, and a slash-free name is kept |
| Bitstamp.NormalizedPairShape | src/exchange/bitstamp.ts:11-13 | a one-slash name becomes its two halves joined by `_`; a slash-free name is kept; slashes after the first survive |
| Bitstamp.NormalizedPairExamples | src/exchange/bitstamp.ts:12 | "ETH/BTC" becomes "ETH_BTC" and "A/B/C" becomes "A_B/C" |
| Bitstamp.MinimumOrderTokenOf | src/exchange/bitstamp.ts:33 | the first space-separated token of "<amount> <rest>" is the amount |
| Bitstamp.Populate | src/exchange/bitstamp.ts:7-9 | a populated record has the URL symbol as raw pair and the oracle's answer for it as normalized pair; a failure is a mismatch |
| Bitstamp.PopulateFields | src/exchange/bitstamp.ts:7-38 | a record populates iff its rewritten name equals the oracle's answer for its URL symbol, and is a mismatch otherwise; a populated record has the URL symbol as raw pair, counter decimals for price and quote, base decimals for base, the leading token of the minimum order as minimum quote, no minimum base, is spot only, and carries its trading status |
| Bitstamp.Select | src/exchange/bitstamp.ts:40-43 | `All` keeps every record; `Spot` keeps exactly the enabled ones; `Futures` and `Swap` keep none |
| Bitstamp.Pairs | src/exchange/bitstamp.ts:15-46 | a failure is a transport error or a mismatch; every value sits under its own normalized pair |
| Bitstamp.GetPairs | src/exchange/bitstamp.ts:15-46 | the method (transport check, `forEach`, filter reassignments, map) computes `Pairs` |
| Bitstamp.NonSpotFiltersEmpty | src/exchange/bitstamp.ts:40-43 | `Futures` and `Swap` give an empty map once population succeeds, and the same failure otherwise |
| Bitstamp.SpotSelection | src/exchange/bitstamp.ts:40-45 | on populated records `Spot` keys exactly the enabled records, a subset of the `All` keys, never a larger map, and every value is enabled |
| Bitstamp.SpotWithinAll | src/exchange/bitstamp.ts:15-46 | when `All` succeeds, `Spot` succeeds with the enabled records' pairs as keys, within and no larger than the `All` result |
| Bitstamp.SpotSubmap | src/exchange/bitstamp.ts:40-45 | on records with distinct normalized pairs, the `Spot` map is a submap of the `All` map: each `Spot` entry is the `All` entry |
| Bitstamp.SpotDiffersOnRepeatedPair | src/exchange/bitstamp.ts:40-45 | with a repeated pair, an enabled record followed by a disabled one, `Spot` keeps the enabled record while `All` keeps the later disabled one, so the submap property needs distinct pairs |
| Bitstamp.SpotSubmapOfPairs | src/exchange/bitstamp.ts:15-46 | when `All` succeeds on records with distinct pairs, `Spot` succeeds and every `Spot` entry is the `All` entry |
| Bitstamp.TransportFailure | src/exchange/bitstamp.ts:19-20 | a bad transport aborts with a transport error |
| Bitstamp.PairsAgreeWithOracle | src/exchange/bitstamp.ts:24-45 | every value is keyed by its normalized pair, agrees with the oracle, is spot, and comes from a listed element whose rewritten name is the key |
| Bitstamp.GetExchangeInfo | src/exchange/bitstamp.ts:48-65 | the descriptor is Bitstamp's, not a DEX, running, with fees 0.005/0.005, carrying exactly the pairs; it fails iff fetching the pairs fails |
| Newdex.GetTableRowsRobust | src/exchange/newdex.ts:9-23 | a failed race fails with every endpoint unavailable (the error kind only) |
| Newdex.FirstFulfilled | src/exchange/newdex.ts:9-23 | the race succeeds iff some endpoint succeeds, and then answers with the first successful reply, all earlier replies having failed |
| Newdex.GetGlobalConfig | src/exchange/newdex.ts:25-46 | the config read fails with every endpoint down, and is malformed otherwise; it succeeds iff the race succeeds with no more rows pending, at least four rows, and digit-string fee rows; then the status is whether row 1 reads "1", the taker fee is row 2's value over 10000 and the maker fee row 3's |
| Newdex.GlobalConfigDecodes | src/exchange/newdex.ts:40-44 | for fee rows that are the decimal text of a natural, the config is the status row 1 == "1" with those naturals over 10000 as taker and maker fee |
| Newdex.Rename | src/exchange/newdex.ts:53 | the ticker "KEY" becomes "MYKEY"; any other tickers are kept |
| Newdex.DescriptorParts | src/exchange/newdex.ts:52-58 | a `precision,ticker` symbol splits into its precision text and its ticker |
| Newdex.Populate | src/exchange/newdex.ts:49-55 | a populated record has the pair symbol as raw pair and the oracle's answer for it as normalized pair; a failure is a malformed record or a mismatch |
| Newdex.PopulateOfDescriptors | src/exchange/newdex.ts:49-64 | for well-formed symbols, the record is the renamed base ticker `_` quote ticker, checked against the oracle, with the parsed precisions, minimum quote 0.01, both contracts, spot, and the row's status code |
| Newdex.PopulateStamps | src/exchange/newdex.ts:49-64 | a populated record is Newdex's, keyed by the oracle's answer for its pair symbol, spot, with minimum quote 0.01, no price precision, the row's contracts and status code |
| Newdex.KeyRenamedOnBaseOnly | src/exchange/newdex.ts:53-54 | "4,KEY"/"4,KEY" gives "MYKEY_KEY": only the base ticker is renamed |
| Newdex.MissingTickerMalformed | src/exchange/newdex.ts:52-54 | a symbol without a comma gives a malformed record |
| Newdex.Kept | src/exchange/newdex.ts:76-77 | without the filter the page's rows are kept as they are; with it a row is kept iff it is one of the page's rows and active |
| Newdex.MaxId | src/exchange/newdex.ts:81 | the maximum pair id bounds every row and is attained |
| Newdex.NextBound | src/exchange/newdex.ts:80-82 | an empty page keeps the bound; otherwise the new bound exceeds every kept id and is one more than one of them |
| Newdex.PrependTwice | src/exchange/newdex.ts:78 | accumulating two pages in turn is accumulating their concatenation |
| Newdex.Collect | src/exchange/newdex.ts:73-83 | a fetch without fuel has not finished, and a finished fetch fails only with every endpoint down |
| Newdex.CollectStep | src/exchange/newdex.ts:73-83 | one round of the loop: a final page ends the fetch with its kept rows; otherwise its kept rows precede the fetch from the next bound |
| Newdex.AccumulateStep | src/exchange/newdex.ts:73-83 | the loop invariant (the rows so far followed by the rest of the fetch) survives one round |
| Newdex.Accumulated | src/exchange/newdex.ts:70-83 | the fetch from bound 1 fails only with every endpoint down, and under any filter but `All` accumulates only active rows |
| Newdex.FetchPairRows | src/exchange/newdex.ts:70-83 | when the fetch finishes, the `while (more)` loop returns the accumulated rows, or the first failed page's error |
| Newdex.CollectFuelIrrelevant | src/exchange/newdex.ts:73-83 | once the fetch finishes within some bound, any larger bound gives the same outcome |
| Newdex.StuckPageNeverFinishes | src/exchange/newdex.ts:79-82 | a page that reports more rows but contributes none leaves the bound unchanged, and the loop never finishes |
| Newdex.StuckFirstPage | src/exchange/newdex.ts:72-82 | such a first page means `getPairs` does not finish |
| Newdex.ConcatAllActive | src/exchange/newdex.ts:77-78 | concatenating active rows keeps them active |
| Newdex.CollectedRowsActive | src/exchange/newdex.ts:73-83 | with the filter, every accumulated row is active |
| Newdex.KeepIdsFrom | src/exchange/newdex.ts:77 | filtering keeps ids strictly increasing from the bound |
| Newdex.ConcatIdsFrom | src/exchange/newdex.ts:78 | increasing runs joined below the next bound stay increasing |
| Newdex.KeptIdsFrom | src/exchange/newdex.ts:75-77 | a page served in id order from its bound keeps its kept rows in id order from that bound |
| Newdex.NextBoundAbove | src/exchange/newdex.ts:80-82 | the bound never moves down and ends above every kept id |
| Newdex.CollectedIdsIncrease | src/exchange/newdex.ts:73-83 | from a source serving rows in id order at or above the bound, the accumulated rows have strictly increasing ids: no row is collected twice |
| Newdex.AccumulatedIdsIncrease | src/exchange/newdex.ts:70-83 | the rows `getPairs` accumulates from bound 1 have strictly increasing ids |
| Newdex.AboveMembers | src/exchange/newdex.ts:75 | a query at a lower bound asks for exactly the rows whose id is at least the bound |
| Newdex.AboveConcat | src/exchange/newdex.ts:75 | asking a concatenation is asking each part |
| Newdex.AboveAll | src/exchange/newdex.ts:75 | rows all at or above the bound are all asked for |
| Newdex.AboveTwice | src/exchange/newdex.ts:75 | asking from a higher bound among the rows from a lower one is asking from the higher bound |
| Newdex.AboveIdsFrom | src/exchange/newdex.ts:75 | the rows of an ordered table from a bound on are ordered and none is below the bound |
| Newdex.KeptConcat | src/exchange/newdex.ts:77-78 | filtering a concatenation of pages is concatenating the filtered pages |
| Newdex.NothingKeptAbove | src/exchange/newdex.ts:77-81 | when every row passing the filter is below a bound, none from that bound on passes |
| Newdex.AfterPage | src/exchange/newdex.ts:75-81 | in an ordered run split into a page and what follows, each row after the page lies above every row of the page |
| Newdex.NextBoundInPage | src/exchange/newdex.ts:80-82 | a page that kept rows moves the bound just past one of its rows |
| Newdex.NothingKeptPastNext | src/exchange/newdex.ts:77-82 | no row of the page at or above the next bound passes the filter |
| Newdex.NextPageResumes | src/exchange/newdex.ts:73-83 | the query at the next bound yields, once filtered, exactly the filtered rows after the page: none is skipped, and rows not kept are asked for again |
| Newdex.ResumeAfterKept | src/exchange/newdex.ts:80-82 | `NextPageResumes` for a page that kept some row |
| Newdex.ServedPage | src/exchange/newdex.ts:75-79 | a served page is a prefix of the table from its bound on; the rest is empty when `more` is false and shorter than the whole when it is true |
| Newdex.CollectLast | src/exchange/newdex.ts:76-79 | a last page ends the fetch with its kept rows |
| Newdex.CollectMore | src/exchange/newdex.ts:76-82 | a page with more to come precedes the rows of the fetch from the next bound |
| Newdex.NextSome | src/exchange/newdex.ts:79-82 | a finished fetch past a page with more to come finishes from the next bound too |
| Newdex.MoreSome | src/exchange/newdex.ts:79-82 | a page with more to come finishes when the fetch from the next bound does |
| Newdex.CollectReadsTable | src/exchange/newdex.ts:73-83 | from any bound, over a source serving a table in id order, a finished fetch returns exactly the kept table rows at or above the bound, in order |
| Newdex.UnfilteredFetchFinishes | src/exchange/newdex.ts:73-83 | without the filter the fetch of a served table finishes within one more page than there are rows left |
| Newdex.AccumulatedReadsTable | src/exchange/newdex.ts:67-83 | over a source serving a table, a finished `getPairs` fetch returns every table row once, in id order (every active row under any filter but `All`) |
| Newdex.UnfilteredReadsWholeTable | src/exchange/newdex.ts:67-83 | under `All` the fetch of a served table always finishes with the whole table |
| Newdex.Pairs | src/exchange/newdex.ts:67-88 | a failure is every endpoint down, a malformed record or a mismatch; every value sits under its own normalized pair |
| Newdex.GetPairs | src/exchange/newdex.ts:67-88 | the method (loop, `forEach`, map) computes `Pairs` |
| Newdex.ActivePairsWithin | src/exchange/newdex.ts:77-87 | when every row of a table populates, so do its active rows, whose pairs are among the table's pairs and no more numerous |
| Newdex.SpotWithinAll | src/exchange/newdex.ts:67-88 | over a source serving a table, when `All` succeeds `Spot` succeeds, with its keys within the `All` keys and no more pairs |
| Newdex.NonAllFiltersAgree | src/exchange/newdex.ts:77 | `Spot`, `Futures` and `Swap` all filter alike and yield the same map |
| Newdex.PairsStamped | src/exchange/newdex.ts:67-88 | every value is keyed by its normalized pair, agrees with the oracle, is Newdex's and spot, with minimum quote 0.01, comes from an accumulated row (pair symbol, status, contracts), and has status 0 under any filter but `All` |
| Newdex.GetExchangeInfo | src/exchange/newdex.ts:90-113 | the config is read first and its failure is the outcome, with no demand that paging finish; success iff config and pairs both succeed; status and fees come from the config; the descriptor is Newdex's, a DEX on EOS, carrying exactly the pairs |
| Newdex.ConfigFailureSkipsPaging | src/exchange/newdex.ts:106-111 | with a config read that fails and a page source on which paging never finishes, `getExchangeInfo` still fails with the config error |
| ZB.Stamp | src/exchange/zb.ts:14-17 | a record keeps its key as raw pair and its market; the normalized pair has the key's length, each lower-case letter of the key 32 code points down to its upper case, and every other character of the key |
| ZB.Listing | src/exchange/zb.ts:13-18 | one record per listed key, in key order, each stamped from its entry |
| ZB.GetPairs | src/exchange/zb.ts:6-21 | a bad transport aborts with a transport error; otherwise the key loop returns `Listing` |
| ZB.ListingRecords | src/exchange/zb.ts:14-17 | each record keeps its key as raw pair and its market untouched; the normalized pair is `ToUpper` of the raw pair; it has the key's length, holds no lower-case letter, keeps every other character, and is a fixed point of upper-casing |
| ZB.ListingKeys | src/exchange/zb.ts:13-18 | the raw pairs are exactly the keys, in order |
| ZB.UpperExample | src/exchange/zb.ts:16 | "btc_usdt" is published as "BTC_USDT" |
| ZB.GetExchangeInfo | src/exchange/zb.ts:23-38 | the descriptor is ZB's, not a DEX, running, with fees 0.001/0.001, carrying the listing as an array; it fails iff the transport fails |
| Dispatcher.Select | src/index.ts:35-60 | a name selects an adapter iff it is one of the nine listed, and that adapter's name is the name; any other name fails as an unknown exchange |
| Dispatcher.SelectAdapterName | src/index.ts:16-26 | every adapter's name is listed and selects that adapter (round trip) |
| Dispatcher.ExchangesDistinct | src/index.ts:16-26 | the list holds nine distinct names |
| Dispatcher.UnlistedNamesRejected | src/index.ts:57-58 | "BitFlyer" (wrong case), "Kraken" and "ZB" are not dispatched |
| Dispatcher.GetExchangeInfo | src/index.ts:35-60 | a success is for a listed name; an unlisted name fails as unknown; Bitstamp and Newdex report the requested name |
| Dispatcher.DispatchOutcome | src/index.ts:35-60 | an unknown name fails; Bitstamp and Newdex succeed iff their adapters do and report the requested name and the adapter's `All` pairs; a failed Newdex config read is the outcome; other listed names give their adapter's result |

## Left out

- HTTP transport: the requests, and the `status == 200` and `statusText == 'OK'` checks, become one flag `transportOk` in each venue's reply. Network calls are not modelled.
- The normalization oracle (`normalizePair` from `crypto-pair`, and `normalize` in `src/exchange/kraken.ts`) is a function parameter; its own rules are not part of this model.
- `promiseAny` over the EOS endpoints is modelled as taking the first success in arrival order, with replies given as a sequence; the concurrency and timing that decide that order are not modelled.
- Newdex.GetTableRowsRobust: its own contract states only the error kind of a failed race; that the race fails exactly when every endpoint failed, and otherwise answers with the first success, is stated separately by `Newdex.FirstFulfilled`.
- Newdex page source: each fetch at a given bound is a function of that bound, so a listing that changes between fetches is not modelled.
- Newdex.FetchPairRows: it requires that the fetch finishes within a ghost page bound (`Terminates`), because the source loop need not finish. `Newdex.Pairs` requires the same; `Newdex.GetExchangeInfo` and the dispatcher require it only after a successful config read.
- Floating point: fees and quantities are exact reals. `parseFloat` of Bitstamp's minimum order is kept as its leading text token (`LeadingToken`), not converted to a number. `parseInt(...) / 10000` is exact division.
- JavaScript `undefined` and `NaN`: a Newdex symbol without a comma gives the text "undefined" inside the normalized pair, and a precision text with no leading digit (after whitespace and a sign) gives `NaN`. Here each, and any precision text that is not a digit string, is a malformed-record failure.
- `parseInt(s, 10)` in JavaScript also skips leading whitespace, accepts a sign, and reads the digit prefix of text such as "12abc" or "0.5" (giving 0). Here any precision or fee text that is not a non-empty ASCII digit string is a malformed-record failure.
- Fewer than four Newdex configuration rows make the source throw a `TypeError` when it reads the missing row's `value`. A fee text with no leading digit (after whitespace and a sign) makes it compute `NaN`. Here each, and any fee text that is not a digit string, is a malformed-record failure. Rows beyond the fourth are ignored, as in the source.
- `toUpperCase` is modelled on ASCII letters only; other Unicode case mappings are not modelled.
- In-place mutation: the adapters write fields into the fetched objects. Here each record is mapped to a new `PairInfo`, so aliasing of the response objects is not modelled. Raw fields the source leaves on the objects, or deletes (`current_price`), are not carried. The exception is the raw trading status, which `PairInfo.status` carries for Bitstamp and Newdex.
- `convertArrayToMap` lives in `src/pojo/pair_info.ts`, which is not part of this model. It is taken as keying each record by its normalized pair, with a later record overwriting an earlier one with the same key.
- The `MIN_BASE_QUANTITY` lookup is on a plain JavaScript object, so a base such as "constructor" would find an inherited property. Only the listed keys are modelled.
- The order of `Object.values` and `Object.keys` over a venue's JSON object is taken as given, as the order of the reply's sequence.
- The Kraken and ZB adapters are not in the dispatcher's exchange list, so they are reachable only through their own modules, as in the source.
- The adapters for Binance, Bitfinex, Coinbase, Coincheck, Huobi, WhaleEx and bitFlyer are not part of this model. The dispatcher takes their results as the `others` input.
