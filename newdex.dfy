/** The Newdex adapter: pairs and venue configuration read from the `newdexpublic` contract's
    on-chain tables. Every table query is raced over several EOS endpoints, and the `exchangepair`
    table is read page by page with a `lower_bound` cursor. */
module Newdex {
  import opened Outcomes
  import opened Text
  import opened Canonical

  const EXCHANGE := "Newdex"

  /** An asset descriptor: `sym` is "precision,TICKER" (for instance "4,EOS"), `contract` the
      account that issues the token. */
  datatype ExtendedSymbol = ExtendedSymbol(sym: string, contract: string)

  /** One row of the `exchangepair` table, with the columns the adapter reads. Its `current_price`
      column is deleted by the adapter and is not part of this model. */
  datatype NewdexPairInfo = NewdexPairInfo(
    pairId: int,
    pairSymbol: string,
    baseSymbol: ExtendedSymbol,
    quoteSymbol: ExtendedSymbol,
    status: int)

  /** One row of the `globalconfig` table. */
  datatype ConfigRow = ConfigRow(globalId: int, key: string, value: string, memo: string)

  /** The reply to one table query: rows from the lower bound on, and whether more rows follow. */
  datatype TableRows<T> = TableRows(rows: seq<T>, more: bool)

  /** The replies all endpoints give to one query, in the order they settle. */
  type Replies<T> = seq<Result<TableRows<T>>>

  /** `getTableRowsRobust`: the race resolves with the first endpoint to answer successfully, and
      fails only when every endpoint has failed. */
  function GetTableRowsRobust<T>(replies: Replies<T>): (r: Result<TableRows<T>>)
    ensures r.Failure? ==> r.error == AllEndpointsUnavailable
  {
    if |replies| == 0 then Failure(AllEndpointsUnavailable)
    else if replies[0].Success? then replies[0]
    else GetTableRowsRobust(replies[1..])
  }

  /** The race succeeds exactly when some endpoint answers, and then with the reply of the first
      endpoint that did, every earlier one having failed. */
  lemma {:induction false} FirstFulfilled<T>(replies: Replies<T>)
    ensures GetTableRowsRobust(replies).Success? <==> exists i :: 0 <= i < |replies| && replies[i].Success?
    ensures GetTableRowsRobust(replies).Success? ==>
      exists i :: 0 <= i < |replies| && replies[i] == GetTableRowsRobust(replies)
        && forall j :: 0 <= j < i ==> replies[j].Failure?
  {
    if |replies| > 0 && replies[0].Failure? {
      var tail := replies[1..];
      FirstFulfilled(tail);
      if exists i :: 0 <= i < |replies| && replies[i].Success? {
        var i :| 0 <= i < |replies| && replies[i].Success?;
        assert tail[i - 1].Success?;
      }
      if GetTableRowsRobust(tail).Success? {
        var i :| 0 <= i < |tail| && tail[i] == GetTableRowsRobust(tail) && forall j :: 0 <= j < i ==> tail[j].Failure?;
        assert replies[i + 1] == GetTableRowsRobust(replies);
        assert forall j :: 0 <= j < i + 1 ==> replies[j].Failure? by {
          forall j | 0 <= j < i + 1
            ensures replies[j].Failure?
          {
            if j > 0 { assert replies[j] == tail[j - 1]; }
          }
        }
      }
    }
  }

  // ---------------------------------------------------------------- global configuration

  /** The live venue configuration: operational status and fee rates. */
  datatype GlobalConfig = GlobalConfig(status: bool, makerFee: real, takerFee: real)

  /** `getGlobalConfig`: a single page (`more` must be false), read at fixed positions: status in
      row 1 ("1" means running), taker fee in row 2 and maker fee in row 3, each in ten-thousandths. */
  function GetGlobalConfig(replies: Replies<ConfigRow>): (r: Result<GlobalConfig>)
    ensures GetTableRowsRobust(replies).Failure? ==> r == Failure(AllEndpointsUnavailable)
    ensures GetTableRowsRobust(replies).Success? && r.Failure? ==> r.error == MalformedRawRecord
    ensures r.Success? <==>
      && GetTableRowsRobust(replies).Success?
      && !GetTableRowsRobust(replies).value.more
      && |GetTableRowsRobust(replies).value.rows| >= 4
      && IsDigits(GetTableRowsRobust(replies).value.rows[2].value)
      && IsDigits(GetTableRowsRobust(replies).value.rows[3].value)
    ensures r.Success? ==>
      var rows := GetTableRowsRobust(replies).value.rows;
      && r.value.status == (rows[1].value == "1")
      && r.value.takerFee == DecimalValue(rows[2].value) as real / 10000.0
      && r.value.makerFee == DecimalValue(rows[3].value) as real / 10000.0
  {
    var table :- GetTableRowsRobust(replies);
    if table.more || |table.rows| < 4 then Failure(MalformedRawRecord)
    else
      var taker := ParseNat(table.rows[2].value);
      var maker := ParseNat(table.rows[3].value);
      if taker.None? || maker.None? then Failure(MalformedRawRecord)
      else Success(GlobalConfig(
        status := table.rows[1].value == "1",
        makerFee := maker.value as real / 10000.0,
        takerFee := taker.value as real / 10000.0))
  }

  /** A configuration table whose fee rows hold the decimal text of whole numbers of
      ten-thousandths decodes to exactly those rates. */
  lemma GlobalConfigDecodes(replies: Replies<ConfigRow>, status: string, taker: nat, maker: nat)
    requires GetTableRowsRobust(replies).Success?
    requires var table := GetTableRowsRobust(replies).value;
      && !table.more && |table.rows| >= 4
      && table.rows[1].value == status
      && table.rows[2].value == DecimalText(taker)
      && table.rows[3].value == DecimalText(maker)
    ensures GetGlobalConfig(replies) ==
      Success(GlobalConfig(status == "1", maker as real / 10000.0, taker as real / 10000.0))
  {
    ParseDecimalText(taker);
    ParseDecimalText(maker);
  }

  // ---------------------------------------------------------------- one record

  /** The single rename: the legacy `KEY` ticker is published as `MYKEY`. */
  function Rename(ticker: string): (r: string)
    ensures ticker == "KEY" ==> r == "MYKEY"
    ensures ticker != "KEY" ==> r == ticker
  {
    if ticker == "KEY" then "MYKEY" else ticker
  }

  /** `populateCommonFields`: the ticker is the text after the first comma of `sym` and the
      precision the integer before it; the base ticker alone is renamed. A descriptor without a
      comma or without a digit precision is malformed. */
  function Populate(p: NewdexPairInfo, oracle: Oracle): (r: Result<PairInfo>)
    ensures r.Failure? ==> r.error == MalformedRawRecord || r.error == CanonicalizationMismatch
    ensures r.Success? ==> r.value.rawPair == p.pairSymbol && r.value.normalizedPair == oracle(p.pairSymbol, EXCHANGE)
  {
    var baseParts := Split(p.baseSymbol.sym, ',');
    var quoteParts := Split(p.quoteSymbol.sym, ',');
    if |baseParts| < 2 || |quoteParts| < 2 then Failure(MalformedRawRecord)
    else
      var normalized := Rename(baseParts[1]) + "_" + quoteParts[1];
      if normalized != oracle(p.pairSymbol, EXCHANGE) then Failure(CanonicalizationMismatch)
      else
        var basePrecision := ParseNat(baseParts[0]);
        var quotePrecision := ParseNat(quoteParts[0]);
        if basePrecision.None? || quotePrecision.None? then Failure(MalformedRawRecord)
        else Success(PairInfo(
          exchange := EXCHANGE,
          rawPair := p.pairSymbol,
          normalizedPair := normalized,
          pricePrecision := None,
          basePrecision := basePrecision.value,
          quotePrecision := quotePrecision.value,
          minBaseQuantity := None,
          minQuoteQuantity := Amount(0.01),
          baseContract := Some(p.baseSymbol.contract),
          quoteContract := Some(p.quoteSymbol.contract),
          spotEnabled := true,
          futuresEnabled := None,
          swapEnabled := None,
          status := CodeStatus(p.status)))
  }

  lemma DescriptorParts(precision: nat, ticker: string)
    requires ',' !in ticker
    ensures Split(DecimalText(precision) + "," + ticker, ',') == [DecimalText(precision), ticker]
  {
    assert ',' !in DecimalText(precision);
    SplitAfterPiece(DecimalText(precision), ticker, ',');
    SplitWithoutSeparator(ticker, ',');
  }

  /** For well-formed descriptors the record is determined: normalized pair the renamed base
      ticker, `_`, the quote ticker as it is; precisions parsed from the descriptors; raw pair the
      pair symbol; contracts copied; and a disagreement with the oracle aborts. */
  lemma PopulateOfDescriptors(p: NewdexPairInfo, oracle: Oracle,
                              basePrecision: nat, baseTicker: string, quotePrecision: nat, quoteTicker: string)
    requires p.baseSymbol.sym == DecimalText(basePrecision) + "," + baseTicker && ',' !in baseTicker
    requires p.quoteSymbol.sym == DecimalText(quotePrecision) + "," + quoteTicker && ',' !in quoteTicker
    ensures var normalized := Rename(baseTicker) + "_" + quoteTicker;
      Populate(p, oracle) ==
        if normalized != oracle(p.pairSymbol, EXCHANGE) then Failure(CanonicalizationMismatch)
        else Success(PairInfo(EXCHANGE, p.pairSymbol, normalized, None, basePrecision, quotePrecision,
                              None, Amount(0.01), Some(p.baseSymbol.contract), Some(p.quoteSymbol.contract),
                              true, None, None, CodeStatus(p.status)))
  {
    DescriptorParts(basePrecision, baseTicker);
    DescriptorParts(quotePrecision, quoteTicker);
    ParseDecimalText(basePrecision);
    ParseDecimalText(quotePrecision);
  }

  /** What any successful population fixes, whatever the descriptors: the venue, the raw pair, the
      agreement with the oracle, the 0.01 quote minimum, the contracts and the status code. */
  lemma PopulateStamps(p: NewdexPairInfo, oracle: Oracle)
    requires Populate(p, oracle).Success?
    ensures var v := Populate(p, oracle).value;
      && v.exchange == EXCHANGE && v.rawPair == p.pairSymbol
      && v.normalizedPair == oracle(p.pairSymbol, EXCHANGE)
      && v.spotEnabled && v.minQuoteQuantity == Amount(0.01) && v.pricePrecision.None?
      && v.baseContract == Some(p.baseSymbol.contract) && v.quoteContract == Some(p.quoteSymbol.contract)
      && v.status == CodeStatus(p.status)
  {
  }

  /** So `KEY` as the base becomes `MYKEY`, while `KEY` as the quote is kept. */
  lemma KeyRenamedOnBaseOnly(p: NewdexPairInfo, oracle: Oracle)
    requires p.baseSymbol.sym == "4,KEY" && p.quoteSymbol.sym == "4,KEY"
    requires oracle(p.pairSymbol, EXCHANGE) == "MYKEY_KEY"
    ensures Populate(p, oracle).Success? && Populate(p, oracle).value.normalizedPair == "MYKEY_KEY"
  {
    assert DecimalText(4) + "," + "KEY" == "4,KEY";
    PopulateOfDescriptors(p, oracle, 4, "KEY", 4, "KEY");
    assert Rename("KEY") + "_" + "KEY" == "MYKEY_KEY";
  }

  /** A descriptor without a comma is rejected. */
  lemma MissingTickerMalformed(p: NewdexPairInfo, oracle: Oracle)
    requires ',' !in p.baseSymbol.sym || ',' !in p.quoteSymbol.sym
    ensures Populate(p, oracle) == Failure(MalformedRawRecord)
  {
    if ',' !in p.baseSymbol.sym {
      SplitWithoutSeparator(p.baseSymbol.sym, ',');
    } else {
      SplitWithoutSeparator(p.quoteSymbol.sym, ',');
    }
  }

  // ---------------------------------------------------------------- pagination

  /** The query the loop issues at a given lower bound: the endpoints' replies for that page. */
  type PageSource = int -> Replies<NewdexPairInfo>

  /** The cursor's first value. */
  const FIRST_BOUND := 1

  /** Status 0 marks a pair that is actively trading. */
  predicate IsActive(p: NewdexPairInfo)
  {
    p.status == 0
  }

  predicate AllActive(rows: seq<NewdexPairInfo>)
  {
    forall i :: 0 <= i < |rows| ==> rows[i].status == 0
  }

  /** The rows of one page that the loop keeps: all of them, or only the active ones when the
      filter is anything but `All` (the only test the loop makes of the filter). */
  function Kept(rows: seq<NewdexPairInfo>, activeOnly: bool): (r: seq<NewdexPairInfo>)
    ensures !activeOnly ==> r == rows
    ensures activeOnly ==> AllActive(r)
    ensures forall x :: x in r <==> x in rows && (activeOnly ==> IsActive(x))
  {
    if activeOnly then
      var r := Keep(rows, IsActive);
      assert forall i :: 0 <= i < |r| ==> r[i] in r;
      r
    else rows
  }

  /** `Math.max(...rows.map(x => x.pair_id))`. */
  function MaxId(rows: seq<NewdexPairInfo>): (m: int)
    requires |rows| > 0
    ensures forall i :: 0 <= i < |rows| ==> rows[i].pairId <= m
    ensures exists i :: 0 <= i < |rows| && rows[i].pairId == m
  {
    if |rows| == 1 then rows[0].pairId
    else
      var rest := MaxId(rows[1..]);
      assert rest in (set i | 1 <= i < |rows| :: rows[i].pairId);
      if rows[0].pairId >= rest then rows[0].pairId else rest
  }

  /** The cursor after a page: one past the largest kept id, or unchanged when nothing was kept. */
  function NextBound(bound: int, kept: seq<NewdexPairInfo>): (b: int)
    ensures |kept| == 0 ==> b == bound
    ensures |kept| > 0 ==> forall i :: 0 <= i < |kept| ==> kept[i].pairId < b
    ensures |kept| > 0 ==> exists i :: 0 <= i < |kept| && b == kept[i].pairId + 1
  {
    if |kept| > 0 then MaxId(kept) + 1 else bound
  }

  /** Prefix the rows of one page to the outcome of the pages after it. */
  function Prepend(kept: seq<NewdexPairInfo>, rest: Option<Result<seq<NewdexPairInfo>>>): Option<Result<seq<NewdexPairInfo>>>
  {
    match rest
    case None => None
    case Some(Failure(e)) => Some(Failure(e))
    case Some(Success(rows)) => Some(Success(kept + rows))
  }

  lemma PrependTwice(a: seq<NewdexPairInfo>, b: seq<NewdexPairInfo>, rest: Option<Result<seq<NewdexPairInfo>>>)
    ensures Prepend(a, Prepend(b, rest)) == Prepend(a + b, rest)
  {
    if rest.Some? && rest.value.Success? {
      assert a + (b + rest.value.value) == a + b + rest.value.value;
    }
  }

  /** The `while (more)` loop as a value: the concatenation, in fetch order, of the kept rows of
      every page from `bound` on, up to and including the first page that reports `more = false`.
      `None` means that page is not reached within `fuel` fetches. */
  function Collect(source: PageSource, activeOnly: bool, bound: int, fuel: nat): (r: Option<Result<seq<NewdexPairInfo>>>)
    ensures fuel == 0 ==> r == None
    ensures r.Some? && r.value.Failure? ==> r.value.error == AllEndpointsUnavailable
    decreases fuel
  {
    if fuel == 0 then None
    else
      match GetTableRowsRobust(source(bound))
      case Failure(e) => Some(Failure(e))
      case Success(page) =>
        var kept := Kept(page.rows, activeOnly);
        if !page.more then Some(Success(kept))
        else Prepend(kept, Collect(source, activeOnly, NextBound(bound, kept), fuel - 1))
  }

  /** One fetch of the loop, unfolded. */
  lemma CollectStep(source: PageSource, activeOnly: bool, bound: int, fuel: nat)
    requires fuel > 0 && GetTableRowsRobust(source(bound)).Success?
    ensures var page := GetTableRowsRobust(source(bound)).value;
      var kept := Kept(page.rows, activeOnly);
      Collect(source, activeOnly, bound, fuel) ==
        if !page.more then Some(Success(kept))
        else Prepend(kept, Collect(source, activeOnly, NextBound(bound, kept), fuel - 1))
  {
  }

  /** One iteration of the loop: if the rows accumulated so far followed by the outcome from
      `bound` on is the whole outcome, so is the longer accumulation followed by the outcome from the
      next bound, or the accumulation alone once `more` is false. */
  lemma AccumulateStep(source: PageSource, activeOnly: bool, whole: Option<Result<seq<NewdexPairInfo>>>,
                       arr: seq<NewdexPairInfo>, bound: int, fuel: nat)
    requires Collect(source, activeOnly, bound, fuel).Some?
    requires whole == Prepend(arr, Collect(source, activeOnly, bound, fuel))
    requires GetTableRowsRobust(source(bound)).Success?
    ensures fuel > 0
    ensures var page := GetTableRowsRobust(source(bound)).value;
      var kept := Kept(page.rows, activeOnly);
      var rest := Collect(source, activeOnly, NextBound(bound, kept), fuel - 1);
      && (page.more ==> rest.Some? && whole == Prepend(arr + kept, rest))
      && (!page.more ==> whole == Some(Success(arr + kept)))
  {
    var page := GetTableRowsRobust(source(bound)).value;
    var kept := Kept(page.rows, activeOnly);
    CollectStep(source, activeOnly, bound, fuel);
    if page.more {
      PrependTwice(arr, kept, Collect(source, activeOnly, NextBound(bound, kept), fuel - 1));
    }
  }

  /** The rows `getPairs` accumulates for a filter, within `pages` fetches. */
  function Accumulated(source: PageSource, filter: Filter, pages: nat): (r: Option<Result<seq<NewdexPairInfo>>>)
    ensures r.Some? && r.value.Failure? ==> r.value.error == AllEndpointsUnavailable
    ensures filter != All && r.Some? && r.value.Success? ==> AllActive(r.value.value)
  {
    var r := Collect(source, filter != All, FIRST_BOUND, pages);
    if filter != All && r.Some? && r.value.Success? then
      CollectedRowsActive(source, FIRST_BOUND, pages, r.value.value); r
    else r
  }

  /** The termination assumption: from the first bound, the loop stops within `pages` fetches. */
  predicate Terminates(source: PageSource, filter: Filter, pages: nat)
  {
    Accumulated(source, filter, pages).Some?
  }

  /** The pagination loop of `getPairs`, as the source runs it. */
  method FetchPairRows(source: PageSource, filter: Filter, ghost pages: nat) returns (r: Result<seq<NewdexPairInfo>>)
    requires Terminates(source, filter, pages)
    ensures r == Accumulated(source, filter, pages).value
  {
    var arr: seq<NewdexPairInfo> := [];
    var more := true;
    var lowerBound := FIRST_BOUND;
    ghost var fuel := pages;
    ghost var whole := Collect(source, filter != All, FIRST_BOUND, pages);
    assert whole.value.Success? ==> [] + whole.value.value == whole.value.value;
    while more
      invariant more ==> Collect(source, filter != All, lowerBound, fuel).Some?
      invariant more ==> whole == Prepend(arr, Collect(source, filter != All, lowerBound, fuel))
      invariant !more ==> whole == Some(Success(arr))
      decreases more, fuel
    {
      var result := GetTableRowsRobust(source(lowerBound));
      if result.Failure? {
        return Failure(result.error);
      }
      var pairs := Kept(result.value.rows, filter != All);
      AccumulateStep(source, filter != All, whole, arr, lowerBound, fuel);
      arr := arr + pairs;
      more := result.value.more;
      lowerBound := NextBound(lowerBound, pairs);
      fuel := fuel - 1;
    }
    r := Success(arr);
  }

  /** Extra fuel does not change a settled outcome: the loop's result does not depend on the bound
      chosen for it. */
  lemma {:induction false} CollectFuelIrrelevant(source: PageSource, activeOnly: bool, bound: int, n: nat, m: nat)
    requires Collect(source, activeOnly, bound, n).Some? && n <= m
    ensures Collect(source, activeOnly, bound, m) == Collect(source, activeOnly, bound, n)
    decreases n
  {
    if GetTableRowsRobust(source(bound)).Success? {
      var page := GetTableRowsRobust(source(bound)).value;
      var kept := Kept(page.rows, activeOnly);
      CollectStep(source, activeOnly, bound, n);
      CollectStep(source, activeOnly, bound, m);
      if page.more {
        CollectFuelIrrelevant(source, activeOnly, NextBound(bound, kept), n - 1, m - 1);
      }
    }
  }

  /** A page that reports `more` but keeps no row leaves the cursor where it was, so the same page
      is fetched again forever: no amount of fuel reaches the end. With a filter other than `All`
      this happens as soon as one full page holds only inactive pairs. */
  lemma {:induction false} StuckPageNeverFinishes(source: PageSource, activeOnly: bool, bound: int, fuel: nat)
    requires GetTableRowsRobust(source(bound)).Success?
    requires GetTableRowsRobust(source(bound)).value.more
    requires Kept(GetTableRowsRobust(source(bound)).value.rows, activeOnly) == []
    ensures Collect(source, activeOnly, bound, fuel) == None
  {
    if fuel > 0 {
      StuckPageNeverFinishes(source, activeOnly, bound, fuel - 1);
    }
  }

  lemma ConcatAllActive(a: seq<NewdexPairInfo>, b: seq<NewdexPairInfo>)
    requires AllActive(a) && AllActive(b)
    ensures AllActive(a + b)
  {
  }

  /** When only active rows are kept, every accumulated row is active. */
  lemma {:induction false} CollectedRowsActive(source: PageSource, bound: int, fuel: nat, rows: seq<NewdexPairInfo>)
    requires Collect(source, true, bound, fuel) == Some(Success(rows))
    ensures AllActive(rows)
    decreases fuel
  {
    var page := GetTableRowsRobust(source(bound)).value;
    var kept := Kept(page.rows, true);
    CollectStep(source, true, bound, fuel);
    if page.more {
      var next := NextBound(bound, kept);
      var tail := Collect(source, true, next, fuel - 1).value.value;
      CollectedRowsActive(source, next, fuel - 1, tail);
      ConcatAllActive(kept, tail);
    }
  }

  /** Ids strictly increase along the rows, and none is below `bound`. */
  predicate IdsFrom(rows: seq<NewdexPairInfo>, bound: int)
  {
    && (forall i :: 0 <= i < |rows| ==> bound <= rows[i].pairId)
    && (forall i, j :: 0 <= i < j < |rows| ==> rows[i].pairId < rows[j].pairId)
  }

  /** What an on-chain table guarantees for a query at a lower bound: rows in increasing id order,
      none below the bound. */
  ghost predicate OrderedPage(source: PageSource, bound: int)
  {
    GetTableRowsRobust(source(bound)).Success? ==> IdsFrom(GetTableRowsRobust(source(bound)).value.rows, bound)
  }

  /** The table guarantee at every lower bound. */
  ghost predicate OrderedSource(source: PageSource)
  {
    forall bound :: OrderedPage(source, bound)
  }

  lemma {:induction false} KeepIdsFrom(rows: seq<NewdexPairInfo>, bound: int)
    requires IdsFrom(rows, bound)
    ensures IdsFrom(Keep(rows, IsActive), bound)
  {
    if |rows| > 0 {
      var head := rows[0];
      var tail := rows[1..];
      assert IdsFrom(tail, head.pairId + 1);
      KeepIdsFrom(tail, head.pairId + 1);
      var kt := Keep(tail, IsActive);
      assert Keep(rows, IsActive) == (if IsActive(head) then [head] else []) + kt;
      if IsActive(head) {
        ConcatIdsFrom([head], kt, bound, head.pairId + 1);
      }
    }
  }

  lemma ConcatIdsFrom(a: seq<NewdexPairInfo>, b: seq<NewdexPairInfo>, bound: int, next: int)
    requires IdsFrom(a, bound) && IdsFrom(b, next)
    requires forall i :: 0 <= i < |a| ==> a[i].pairId < next
    requires bound <= next
    ensures IdsFrom(a + b, bound)
  {
  }

  /** The kept rows of a page of an ordered source are ordered and above the bound. */
  lemma KeptIdsFrom(source: PageSource, activeOnly: bool, bound: int)
    requires OrderedSource(source) && GetTableRowsRobust(source(bound)).Success?
    ensures IdsFrom(Kept(GetTableRowsRobust(source(bound)).value.rows, activeOnly), bound)
  {
    var rows := GetTableRowsRobust(source(bound)).value.rows;
    assert OrderedPage(source, bound);
    if activeOnly {
      KeepIdsFrom(rows, bound);
    }
  }

  /** The cursor never moves backwards, and moves past every kept row. */
  lemma NextBoundAbove(bound: int, kept: seq<NewdexPairInfo>)
    requires IdsFrom(kept, bound)
    ensures bound <= NextBound(bound, kept)
    ensures forall i :: 0 <= i < |kept| ==> kept[i].pairId < NextBound(bound, kept)
  {
    if |kept| > 0 {
      var i :| 0 <= i < |kept| && NextBound(bound, kept) == kept[i].pairId + 1;
    }
  }

  /** Over an ordered source the cursor never revisits a row: the accumulated ids strictly
      increase, so each row id appears at most once. */
  lemma {:induction false} CollectedIdsIncrease(source: PageSource, activeOnly: bool, bound: int, fuel: nat,
                                                rows: seq<NewdexPairInfo>)
    requires OrderedSource(source)
    requires Collect(source, activeOnly, bound, fuel) == Some(Success(rows))
    ensures IdsFrom(rows, bound)
    decreases fuel
  {
    var page := GetTableRowsRobust(source(bound)).value;
    var kept := Kept(page.rows, activeOnly);
    CollectStep(source, activeOnly, bound, fuel);
    KeptIdsFrom(source, activeOnly, bound);
    if page.more {
      var next := NextBound(bound, kept);
      var tail := Collect(source, activeOnly, next, fuel - 1).value.value;
      CollectedIdsIncrease(source, activeOnly, next, fuel - 1, tail);
      NextBoundAbove(bound, kept);
      ConcatIdsFrom(kept, tail, bound, next);
      assert rows == kept + tail;
    }
  }

  // ---------------------------------------------------------------- a table read in full

  /** The rows of `table` whose id is at least `bound`, in table order: what a query at that lower
      bound asks for. */
  function Above(table: seq<NewdexPairInfo>, bound: int): seq<NewdexPairInfo>
  {
    if |table| == 0 then []
    else (if bound <= table[0].pairId then [table[0]] else []) + Above(table[1..], bound)
  }

  /** `Above` keeps exactly the rows at or above the bound. */
  lemma {:induction false} AboveMembers(table: seq<NewdexPairInfo>, bound: int)
    ensures forall x :: x in Above(table, bound) <==> x in table && bound <= x.pairId
  {
    if |table| > 0 {
      AboveMembers(table[1..], bound);
      assert table == [table[0]] + table[1..];
    }
  }

  lemma {:induction false} AboveConcat(a: seq<NewdexPairInfo>, b: seq<NewdexPairInfo>, bound: int)
    ensures Above(a + b, bound) == Above(a, bound) + Above(b, bound)
  {
    if |a| == 0 {
      assert a + b == b;
    } else {
      assert (a + b)[0] == a[0] && (a + b)[1..] == a[1..] + b;
      AboveConcat(a[1..], b, bound);
    }
  }

  lemma {:induction false} AboveAll(t: seq<NewdexPairInfo>, bound: int)
    requires forall i :: 0 <= i < |t| ==> bound <= t[i].pairId
    ensures Above(t, bound) == t
  {
    if |t| > 0 {
      AboveAll(t[1..], bound);
      assert [t[0]] + t[1..] == t;
    }
  }

  /** Asking for the rows from `hi` on among the rows from `lo` on is asking for the rows from `hi`
      on. */
  lemma {:induction false} AboveTwice(t: seq<NewdexPairInfo>, lo: int, hi: int)
    requires lo <= hi
    ensures Above(Above(t, lo), hi) == Above(t, hi)
  {
    if |t| > 0 {
      var head: seq<NewdexPairInfo> := if lo <= t[0].pairId then [t[0]] else [];
      AboveConcat(head, Above(t[1..], lo), hi);
      AboveTwice(t[1..], lo, hi);
      assert [t[0]][1..] == [];
    }
  }

  /** The rows of an ordered table from any bound on are ordered and none is below the bound. */
  lemma {:induction false} AboveIdsFrom(t: seq<NewdexPairInfo>, lo: int, bound: int)
    requires IdsFrom(t, lo)
    ensures IdsFrom(Above(t, bound), bound)
  {
    if |t| > 0 {
      var head := t[0];
      assert IdsFrom(t[1..], head.pairId + 1);
      AboveIdsFrom(t[1..], head.pairId + 1, bound);
      var rest := Above(t[1..], bound);
      AboveMembers(t[1..], bound);
      assert forall i :: 0 <= i < |rest| ==> rest[i] in t[1..];
      if bound <= head.pairId {
        ConcatIdsFrom([head], rest, bound, head.pairId + 1);
      }
    }
  }

  lemma KeptConcat(a: seq<NewdexPairInfo>, b: seq<NewdexPairInfo>, activeOnly: bool)
    ensures Kept(a + b, activeOnly) == Kept(a, activeOnly) + Kept(b, activeOnly)
  {
    if activeOnly {
      KeepConcat(a, b, IsActive);
    }
  }

  /** When every row that passes the filter lies below `next`, nothing from `next` on passes. */
  lemma {:induction false} NothingKeptAbove(rows: seq<NewdexPairInfo>, next: int, activeOnly: bool)
    requires forall i :: 0 <= i < |rows| ==> (activeOnly ==> IsActive(rows[i])) ==> rows[i].pairId < next
    ensures Kept(Above(rows, next), activeOnly) == []
  {
    if |rows| > 0 {
      NothingKeptAbove(rows[1..], next, activeOnly);
      var head: seq<NewdexPairInfo> := if next <= rows[0].pairId then [rows[0]] else [];
      KeptConcat(head, Above(rows[1..], next), activeOnly);
      if activeOnly {
        KeepSingle(rows[0], IsActive);
      }
    }
  }

  /** In an ordered run split into a page and what follows it, every row after the page lies above
      each row of the page. */
  lemma AfterPage(front: seq<NewdexPairInfo>, back: seq<NewdexPairInfo>, bound: int, a: int)
    requires IdsFrom(front + back, bound) && 0 <= a < |front|
    ensures bound <= front[a].pairId
    ensures forall j :: 0 <= j < |back| ==> front[a].pairId + 1 <= back[j].pairId
  {
    var rest := front + back;
    assert rest[a] == front[a];
    forall j | 0 <= j < |back|
      ensures front[a].pairId + 1 <= back[j].pairId
    {
      assert rest[a] == front[a] && rest[|front| + j] == back[j];
    }
  }

  /** The next bound lies just past some kept row of the page. */
  lemma NextBoundInPage(front: seq<NewdexPairInfo>, bound: int, activeOnly: bool)
    requires |Kept(front, activeOnly)| > 0
    ensures exists a :: 0 <= a < |front| && NextBound(bound, Kept(front, activeOnly)) == front[a].pairId + 1
  {
    var kept := Kept(front, activeOnly);
    var i :| 0 <= i < |kept| && NextBound(bound, kept) == kept[i].pairId + 1;
    assert kept[i] in front;
  }

  /** No row of the page at or above the next bound passes the filter. */
  lemma NothingKeptPastNext(front: seq<NewdexPairInfo>, bound: int, activeOnly: bool)
    ensures var next := NextBound(bound, Kept(front, activeOnly));
      |Kept(front, activeOnly)| > 0 ==> Kept(Above(front, next), activeOnly) == []
  {
    var kept := Kept(front, activeOnly);
    var next := NextBound(bound, kept);
    if |kept| > 0 {
      forall j | 0 <= j < |front|
        ensures (activeOnly ==> IsActive(front[j])) ==> front[j].pairId < next
      {
        assert front[j] in front;
        assert (activeOnly ==> IsActive(front[j])) ==> front[j] in kept;
      }
      NothingKeptAbove(front, next, activeOnly);
    }
  }

  /** The cursor resumes just past the last kept row. Asked for from the next bound, the table
      yields, once filtered, exactly the filtered rows not yet fetched: unkept rows above the last
      kept id are asked for again rather than passed over, and no row after the page is skipped. */
  lemma NextPageResumes(table: seq<NewdexPairInfo>, bound: int, front: seq<NewdexPairInfo>,
                        back: seq<NewdexPairInfo>, activeOnly: bool)
    requires IdsFrom(front + back, bound)
    requires Above(table, bound) == front + back
    ensures Kept(Above(table, NextBound(bound, Kept(front, activeOnly))), activeOnly) == Kept(back, activeOnly)
  {
    if |Kept(front, activeOnly)| > 0 {
      ResumeAfterKept(table, bound, front, back, activeOnly);
    } else {
      KeptConcat(front, back, activeOnly);
      assert Kept(front + back, activeOnly) == [] + Kept(back, activeOnly);
    }
  }

  /** `NextPageResumes` when the page kept some row, so the bound moves past it. */
  lemma ResumeAfterKept(table: seq<NewdexPairInfo>, bound: int, front: seq<NewdexPairInfo>,
                        back: seq<NewdexPairInfo>, activeOnly: bool)
    requires IdsFrom(front + back, bound) && |Kept(front, activeOnly)| > 0
    requires Above(table, bound) == front + back
    ensures Kept(Above(table, NextBound(bound, Kept(front, activeOnly))), activeOnly) == Kept(back, activeOnly)
  {
    var next := NextBound(bound, Kept(front, activeOnly));
    NextBoundInPage(front, bound, activeOnly);
    var a :| 0 <= a < |front| && next == front[a].pairId + 1;
    AfterPage(front, back, bound, a);
    calc {
      Kept(Above(table, next), activeOnly);
      { AboveTwice(table, bound, next); }
      Kept(Above(front + back, next), activeOnly);
      { AboveConcat(front, back, next); AboveAll(back, next); }
      Kept(Above(front, next) + back, activeOnly);
      { KeptConcat(Above(front, next), back, activeOnly); NothingKeptPastNext(front, bound, activeOnly); }
      [] + Kept(back, activeOnly);
    }
  }

  /** The replies at one lower bound of a source that serves `table`: the query succeeds with a
      prefix of the table's rows from that bound on, one that is non-empty while any rows remain,
      and reports `more` exactly when rows are left over. */
  predicate ServesPage(source: PageSource, table: seq<NewdexPairInfo>, bound: int)
  {
    var reply := GetTableRowsRobust(source(bound));
    var rest := Above(table, bound);
    && reply.Success?
    && |reply.value.rows| <= |rest|
    && reply.value.rows == rest[..|reply.value.rows|]
    && (|rest| > 0 ==> |reply.value.rows| > 0)
    && (reply.value.more <==> |reply.value.rows| < |rest|)
  }

  /** A source that serves the `exchangepair` table `table`, whose ids increase from the first
      bound, at every lower bound. */
  ghost predicate ServesTable(source: PageSource, table: seq<NewdexPairInfo>)
  {
    IdsFrom(table, FIRST_BOUND) && forall bound :: ServesPage(source, table, bound)
  }

  /** One page of a served table: the rows from the bound on split into the page and the rest,
      ordered from the bound; the rest is empty once `more` is false, and shorter than the whole
      while it is true. */
  lemma ServedPage(source: PageSource, table: seq<NewdexPairInfo>, bound: int)
    requires ServesTable(source, table)
    ensures GetTableRowsRobust(source(bound)).Success?
    ensures var page := GetTableRowsRobust(source(bound)).value;
      var rest := Above(table, bound);
      && |page.rows| <= |rest|
      && rest == page.rows + rest[|page.rows|..]
      && IdsFrom(rest, bound)
      && (!page.more ==> page.rows == rest)
      && (page.more ==> |rest[|page.rows|..]| < |rest|)
  {
    assert ServesPage(source, table, bound);
    AboveIdsFrom(table, FIRST_BOUND, bound);
    var page := GetTableRowsRobust(source(bound)).value;
    var rest := Above(table, bound);
    assert rest == page.rows + rest[|page.rows|..];
  }

  /** The last page of a fetch, with the page and its kept rows named. */
  lemma CollectLast(source: PageSource, activeOnly: bool, bound: int, fuel: nat, page: TableRows<NewdexPairInfo>)
    requires fuel > 0 && GetTableRowsRobust(source(bound)) == Success(page) && !page.more
    ensures Collect(source, activeOnly, bound, fuel) == Some(Success(Kept(page.rows, activeOnly)))
  {
  }

  /** A page with more to come, with the page, its kept rows and the next bound named. */
  lemma CollectMore(source: PageSource, activeOnly: bool, bound: int, fuel: nat, page: TableRows<NewdexPairInfo>,
                    rows: seq<NewdexPairInfo>)
    requires fuel > 0 && GetTableRowsRobust(source(bound)) == Success(page) && page.more
    requires Collect(source, activeOnly, NextBound(bound, Kept(page.rows, activeOnly)), fuel - 1) == Some(Success(rows))
    ensures Collect(source, activeOnly, bound, fuel) == Some(Success(Kept(page.rows, activeOnly) + rows))
  {
  }

  /** Over a source that serves a table, a fetch from any bound that finishes returns exactly the
      kept rows of the table from that bound on, in table order. */
  lemma {:induction false} CollectReadsTable(source: PageSource, table: seq<NewdexPairInfo>, activeOnly: bool,
                                             bound: int, fuel: nat)
    requires ServesTable(source, table)
    requires Collect(source, activeOnly, bound, fuel).Some?
    ensures Collect(source, activeOnly, bound, fuel) == Some(Success(Kept(Above(table, bound), activeOnly)))
    decreases fuel
  {
    ServedPage(source, table, bound);
    var page := GetTableRowsRobust(source(bound)).value;
    var rest := Above(table, bound);
    var front := page.rows;
    var back := rest[|front|..];
    if page.more {
      var next := NextBound(bound, Kept(front, activeOnly));
      NextSome(source, activeOnly, bound, fuel, page);
      CollectReadsTable(source, table, activeOnly, next, fuel - 1);
      NextPageResumes(table, bound, front, back, activeOnly);
      CollectMore(source, activeOnly, bound, fuel, page, Kept(back, activeOnly));
      KeptConcat(front, back, activeOnly);
    } else {
      CollectLast(source, activeOnly, bound, fuel, page);
    }
  }

  /** A fetch that finishes past a page with more to come finishes from the next bound too. */
  lemma NextSome(source: PageSource, activeOnly: bool, bound: int, fuel: nat, page: TableRows<NewdexPairInfo>)
    requires GetTableRowsRobust(source(bound)) == Success(page) && page.more
    requires Collect(source, activeOnly, bound, fuel).Some?
    ensures fuel > 0 && Collect(source, activeOnly, NextBound(bound, Kept(page.rows, activeOnly)), fuel - 1).Some?
  {
  }

  /** Without a filter every page of a served table keeps at least one row while rows remain, so
      the fetch from any bound finishes within one more fetch than there are rows left. */
  lemma {:induction false} UnfilteredFetchFinishes(source: PageSource, table: seq<NewdexPairInfo>, bound: int)
    requires ServesTable(source, table)
    ensures Collect(source, false, bound, |Above(table, bound)| + 1).Some?
    decreases |Above(table, bound)|
  {
    ServedPage(source, table, bound);
    var page := GetTableRowsRobust(source(bound)).value;
    var rest := Above(table, bound);
    var front := page.rows;
    var back := rest[|front|..];
    if page.more {
      var next := NextBound(bound, Kept(front, false));
      NextPageResumes(table, bound, front, back, false);
      assert Above(table, next) == back;
      UnfilteredFetchFinishes(source, table, next);
      CollectFuelIrrelevant(source, false, next, |back| + 1, |rest|);
      MoreSome(source, false, bound, |rest| + 1, page);
    } else {
      CollectLast(source, false, bound, |rest| + 1, page);
    }
  }

  /** A page with more to come finishes when the fetch from the next bound does. */
  lemma MoreSome(source: PageSource, activeOnly: bool, bound: int, fuel: nat, page: TableRows<NewdexPairInfo>)
    requires fuel > 0 && GetTableRowsRobust(source(bound)) == Success(page) && page.more
    requires Collect(source, activeOnly, NextBound(bound, Kept(page.rows, activeOnly)), fuel - 1).Some?
    ensures Collect(source, activeOnly, bound, fuel).Some?
  {
  }

  /** Over a source that serves a table, a finished `getPairs` fetch accumulates the table's rows
      exactly once each, in id order: all of them under `All`, the active ones under any other
      filter. No row is fetched twice and none is skipped. */
  lemma AccumulatedReadsTable(source: PageSource, table: seq<NewdexPairInfo>, filter: Filter, pages: nat)
    requires ServesTable(source, table) && Terminates(source, filter, pages)
    ensures Accumulated(source, filter, pages) == Some(Success(Kept(table, filter != All)))
  {
    AboveAll(table, FIRST_BOUND);
    CollectReadsTable(source, table, filter != All, FIRST_BOUND, pages);
  }

  /** Under `All` the fetch of a served table always finishes, with the whole table. */
  lemma UnfilteredReadsWholeTable(source: PageSource, table: seq<NewdexPairInfo>)
    requires ServesTable(source, table)
    ensures Terminates(source, All, |table| + 1)
    ensures Accumulated(source, All, |table| + 1) == Some(Success(table))
  {
    AboveAll(table, FIRST_BOUND);
    UnfilteredFetchFinishes(source, table, FIRST_BOUND);
    AccumulatedReadsTable(source, table, All, |table| + 1);
  }

  // ---------------------------------------------------------------- getPairs and getExchangeInfo

  /** `getPairs` as a value: the loop, then population of every accumulated row (the first
      failure aborts), then `convertArrayToMap`. */
  function Pairs(source: PageSource, filter: Filter, oracle: Oracle, pages: nat): (r: Result<map<string, PairInfo>>)
    requires Terminates(source, filter, pages)
    ensures r.Failure? ==>
      r.error == AllEndpointsUnavailable || r.error == MalformedRawRecord || r.error == CanonicalizationMismatch
    ensures r.Success? ==> forall k :: k in r.value ==> r.value[k].normalizedPair == k
  {
    var rows :- Accumulated(source, filter, pages).value;
    var records :- MapAll(rows, p => Populate(p, oracle));
    Success(ToMap(records))
  }

  /** When every row of a table populates, so does every active row, and the active rows' pairs
      are among the table's. */
  lemma ActivePairsWithin(table: seq<NewdexPairInfo>, oracle: Oracle)
    requires MapAll(table, p => Populate(p, oracle)).Success?
    ensures MapAll(Kept(table, true), p => Populate(p, oracle)).Success?
    ensures var all := MapAll(table, p => Populate(p, oracle)).value;
      var spot := MapAll(Kept(table, true), p => Populate(p, oracle)).value;
      ToMap(spot).Keys <= ToMap(all).Keys && |ToMap(spot)| <= |ToMap(all)|
  {
    var active := Kept(table, true);
    forall i | 0 <= i < |active|
      ensures Populate(active[i], oracle).Success?
    {
      assert active[i] in table;
    }
    var all := MapAll(table, p => Populate(p, oracle)).value;
    var spot := MapAll(active, p => Populate(p, oracle)).value;
    forall k | k in ToMap(spot)
      ensures k in ToMap(all)
    {
      var i :| 0 <= i < |spot| && spot[i].normalizedPair == k;
      assert active[i] in table;
      var j :| 0 <= j < |table| && table[j] == active[i];
      assert all[j] == spot[i];
    }
    SubsetCardinality(ToMap(spot).Keys, ToMap(all).Keys);
  }

  /** Over a source that serves a table, every pair `getPairs` publishes under `Spot` is one it
      publishes under `All`, so `All` has at least as many: the `status === 0` filter only drops
      rows, and each kept row populates as it does unfiltered. */
  lemma SpotWithinAll(source: PageSource, table: seq<NewdexPairInfo>, oracle: Oracle, p1: nat, p2: nat)
    requires ServesTable(source, table)
    requires Terminates(source, All, p1) && Terminates(source, Spot, p2)
    requires Pairs(source, All, oracle, p1).Success?
    ensures Pairs(source, Spot, oracle, p2).Success?
    ensures Pairs(source, Spot, oracle, p2).value.Keys <= Pairs(source, All, oracle, p1).value.Keys
    ensures |Pairs(source, Spot, oracle, p2).value| <= |Pairs(source, All, oracle, p1).value|
  {
    AccumulatedReadsTable(source, table, All, p1);
    AccumulatedReadsTable(source, table, Spot, p2);
    assert Accumulated(source, All, p1).value == Success(table);
    assert Accumulated(source, Spot, p2).value == Success(Kept(table, true));
    ActivePairsWithin(table, oracle);
  }

  /** `getPairs` as the source runs it. */
  method GetPairs(source: PageSource, filter: Filter, oracle: Oracle, ghost pages: nat)
    returns (r: Result<map<string, PairInfo>>)
    requires Terminates(source, filter, pages)
    ensures r == Pairs(source, filter, oracle, pages)
  {
    var rows := FetchPairRows(source, filter, pages);
    if rows.Failure? {
      return Failure(rows.error);
    }
    var populated := PopulateEach(rows.value, p => Populate(p, oracle));
    if populated.Failure? {
      return Failure(populated.error);
    }
    r := Success(ToMap(populated.value));
  }

  /** Any filter other than `All` gives the active pairs, `Futures` and `Swap` included. */
  lemma NonAllFiltersAgree(source: PageSource, oracle: Oracle, pages: nat, filter: Filter)
    requires filter != All && Terminates(source, Spot, pages)
    ensures Terminates(source, filter, pages)
    ensures Pairs(source, filter, oracle, pages) == Pairs(source, Spot, oracle, pages)
  {
  }

  /** A first page that reports `more` but keeps nothing means `getPairs` never returns, however
      many fetches are allowed. */
  lemma StuckFirstPage(source: PageSource, filter: Filter, pages: nat)
    requires GetTableRowsRobust(source(FIRST_BOUND)).Success?
    requires GetTableRowsRobust(source(FIRST_BOUND)).value.more
    requires Kept(GetTableRowsRobust(source(FIRST_BOUND)).value.rows, filter != All) == []
    ensures !Terminates(source, filter, pages)
  {
    StuckPageNeverFinishes(source, filter != All, FIRST_BOUND, pages);
  }

  /** Over an ordered source the accumulated rows, whatever the filter, have strictly increasing
      ids, so no pair row is fetched twice. */
  lemma AccumulatedIdsIncrease(source: PageSource, filter: Filter, pages: nat)
    requires OrderedSource(source)
    requires Terminates(source, filter, pages) && Accumulated(source, filter, pages).value.Success?
    ensures IdsFrom(Accumulated(source, filter, pages).value.value, FIRST_BOUND)
  {
    CollectedIdsIncrease(source, filter != All, FIRST_BOUND, pages, Accumulated(source, filter, pages).value.value);
  }

  /** Every record of a successful result is stamped as a Newdex spot pair with the 0.01 minimum,
      keyed by its normalized pair, agrees with the oracle on its pair symbol, carries the contracts
      of an accumulated row, and is active unless the filter is `All`. */
  lemma PairsStamped(source: PageSource, filter: Filter, oracle: Oracle, pages: nat, k: string)
    requires Terminates(source, filter, pages)
    requires Pairs(source, filter, oracle, pages).Success? && k in Pairs(source, filter, oracle, pages).value
    ensures var v := Pairs(source, filter, oracle, pages).value[k];
      && v.normalizedPair == k && v.normalizedPair == oracle(v.rawPair, EXCHANGE)
      && v.exchange == EXCHANGE && v.spotEnabled && v.minQuoteQuantity == Amount(0.01)
      && (exists p :: p in Accumulated(source, filter, pages).value.value
            && v.rawPair == p.pairSymbol && v.status == CodeStatus(p.status)
            && v.baseContract == Some(p.baseSymbol.contract) && v.quoteContract == Some(p.quoteSymbol.contract))
      && (filter != All ==> v.status == CodeStatus(0))
  {
    var rows := Accumulated(source, filter, pages).value.value;
    var f := (p: NewdexPairInfo) => Populate(p, oracle);
    MapAllToMapValue(rows, f, k);
    var i :| 0 <= i < |rows| && f(rows[i]) == Success(Pairs(source, filter, oracle, pages).value[k]);
    PopulateStamps(rows[i], oracle);
    assert rows[i] in rows;
    if filter != All {
      CollectedRowsActive(source, FIRST_BOUND, pages, rows);
    }
  }

  /** The static descriptor, whose default status and fees are overwritten by the live
      configuration. */
  const DEFAULT_INFO := ExchangeInfo(
    name := EXCHANGE,
    apiDoc := "https://github.com/newdex/api-docs",
    websocketEndpoint := "wss://ws.newdex.io",
    restfulEndpoint := "https://api.newdex.io/v1",
    isDex := true,
    blockchain := Some("EOS"),
    status := true,
    makerFee := 0.002,
    takerFee := 0.002,
    pairs := map[])

  /** `getExchangeInfo`: the configuration is read first, its status and fees replace the defaults,
      and the pairs are attached; either failure aborts. A failed configuration read aborts before
      any page is fetched, so the pagination loop need only finish when the read succeeds. */
  function GetExchangeInfo(configReplies: Replies<ConfigRow>, source: PageSource, filter: Filter,
                           oracle: Oracle, pages: nat): (r: Result<ExchangeInfo>)
    requires GetGlobalConfig(configReplies).Success? ==> Terminates(source, filter, pages)
    ensures GetGlobalConfig(configReplies).Failure? ==> r == Failure(GetGlobalConfig(configReplies).error)
    ensures r.Success? <==> GetGlobalConfig(configReplies).Success? && Pairs(source, filter, oracle, pages).Success?
    ensures r.Success? ==>
      var config := GetGlobalConfig(configReplies).value;
      && r.value.status == config.status
      && r.value.makerFee == config.makerFee && r.value.takerFee == config.takerFee
      && r.value.pairs == Pairs(source, filter, oracle, pages).value
      && r.value.name == EXCHANGE && r.value.isDex && r.value.blockchain == Some("EOS")
  {
    var config :- GetGlobalConfig(configReplies);
    var pairs :- Pairs(source, filter, oracle, pages);
    Success(DEFAULT_INFO.(status := config.status, makerFee := config.makerFee,
                          takerFee := config.takerFee, pairs := pairs))
  }

  /** A failed configuration read is the outcome whatever the page source does, even one whose
      pagination never finishes: no page is fetched. */
  lemma ConfigFailureSkipsPaging(source: PageSource, filter: Filter, oracle: Oracle, pages: nat)
    requires GetTableRowsRobust(source(FIRST_BOUND)).Success?
    requires GetTableRowsRobust(source(FIRST_BOUND)).value.more
    requires Kept(GetTableRowsRobust(source(FIRST_BOUND)).value.rows, filter != All) == []
    ensures !Terminates(source, filter, pages)
    ensures GetExchangeInfo([], source, filter, oracle, pages) == Failure(AllEndpointsUnavailable)
  {
    StuckFirstPage(source, filter, pages);
  }
}
