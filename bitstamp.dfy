/** The Bitstamp adapter: the trading-pairs-info listing, a plain JSON array; the normalized pair is
    the display `name` ("ETH/BTC") with its first slash turned into an underscore. */
module Bitstamp {
  import opened Outcomes
  import opened Text
  import opened Canonical

  const EXCHANGE := "Bitstamp"

  /** One element of the listing. */
  datatype BitstampPairInfo = BitstampPairInfo(
    name: string,
    urlSymbol: string,
    baseDecimals: nat,
    counterDecimals: nat,
    minimumOrder: string,
    trading: string)

  /** The HTTP reply: whether the transport reported 200/OK, and the listing. */
  datatype Response = Response(transportOk: bool, data: seq<BitstampPairInfo>)

  /** `extractNormalizedPair`: only the first `/` of the name is replaced; the number of
      separators is not checked, and a name without a slash is kept as it is. */
  function NormalizedPair(p: BitstampPairInfo): (r: string)
    ensures |r| == |p.name|
    ensures '/' !in p.name ==> r == p.name
  {
    ReplaceFirstAbsent(p.name, '/', '_');
    ReplaceFirst(p.name, '/', '_')
  }

  /** A name with exactly one slash becomes its two halves joined by `_`; a name without a slash
      is kept as it is; further slashes after the first survive. */
  lemma NormalizedPairShape(p: BitstampPairInfo)
    ensures var parts := Split(p.name, '/');
      && (|parts| == 2 ==> NormalizedPair(p) == parts[0] + "_" + parts[1])
      && (|parts| == 1 ==> NormalizedPair(p) == p.name)
      && (|parts| >= 2 ==> NormalizedPair(p) == parts[0] + "_" + Join(parts[1..], '/'))
  {
    ReplaceFirstBySplit(p.name, '/', '_');
    var parts := Split(p.name, '/');
    if |parts| == 2 {
      assert parts[1..] == [parts[1]];
    }
  }

  lemma NormalizedPairExamples()
    ensures ReplaceFirst("ETH/BTC", '/', '_') == "ETH_BTC"
    ensures ReplaceFirst("A/B/C", '/', '_') == "A_B/C"
  {
  }

  /** The `minimum_order` text is "<amount> <currency>"; the amount is its first space-separated
      token. */
  lemma MinimumOrderTokenOf(amount: string, rest: string)
    requires ' ' !in amount
    ensures FirstPiece(amount + " " + rest, ' ') == amount
  {
    SplitAfterPiece(amount, rest, ' ');
  }

  /** The `forEach` body for one element: derive, cross-check against the oracle, fill. The raw
      pair (`extractRawPair`) is the URL symbol. */
  function Populate(p: BitstampPairInfo, oracle: Oracle): (r: Result<PairInfo>)
    ensures r.Failure? ==> r.error == CanonicalizationMismatch
    ensures r.Success? ==> r.value.rawPair == p.urlSymbol && r.value.normalizedPair == oracle(p.urlSymbol, EXCHANGE)
  {
    var normalized := NormalizedPair(p);
    if normalized != oracle(p.urlSymbol, EXCHANGE) then Failure(CanonicalizationMismatch)
    else Success(PairInfo(
      exchange := EXCHANGE,
      rawPair := p.urlSymbol,
      normalizedPair := normalized,
      pricePrecision := Some(p.counterDecimals),
      basePrecision := p.baseDecimals,
      quotePrecision := p.counterDecimals,
      minBaseQuantity := None,
      minQuoteQuantity := LeadingToken(FirstPiece(p.minimumOrder, ' ')),
      baseContract := None,
      quoteContract := None,
      spotEnabled := true,
      futuresEnabled := Some(false),
      swapEnabled := Some(false),
      status := TextStatus(p.trading)))
  }

  /** What a populated element is: keyed by the oracle's answer for its URL symbol, with the
      counter decimals for price and quote and the base decimals for base. */
  lemma PopulateFields(p: BitstampPairInfo, oracle: Oracle)
    ensures Populate(p, oracle).Success? <==> NormalizedPair(p) == oracle(p.urlSymbol, EXCHANGE)
    ensures Populate(p, oracle).Failure? ==> Populate(p, oracle).error == CanonicalizationMismatch
    ensures Populate(p, oracle).Success? ==>
      var v := Populate(p, oracle).value;
      && v.exchange == EXCHANGE && v.rawPair == p.urlSymbol
      && v.normalizedPair == ReplaceFirst(p.name, '/', '_') == oracle(p.urlSymbol, EXCHANGE)
      && v.pricePrecision == Some(p.counterDecimals) && v.quotePrecision == p.counterDecimals
      && v.basePrecision == p.baseDecimals
      && v.minQuoteQuantity == LeadingToken(FirstPiece(p.minimumOrder, ' ')) && v.minBaseQuantity.None?
      && v.spotEnabled && v.futuresEnabled == Some(false) && v.swapEnabled == Some(false)
      && v.status == TextStatus(p.trading)
  {
  }

  predicate IsEnabled(v: PairInfo)
  {
    v.status == TextStatus("Enabled")
  }

  /** The filter cascade applied to the populated records: `All` keeps every record, `Spot` the
      enabled ones, `Futures` and `Swap` none. */
  function Select(records: seq<PairInfo>, filter: Filter): (r: seq<PairInfo>)
    ensures |r| <= |records|
    ensures filter == All ==> r == records
    ensures filter == Spot ==> forall x :: x in r <==> x in records && IsEnabled(x)
    ensures filter == Futures || filter == Swap ==> r == []
  {
    if filter != All then
      var enabled := Keep(records, IsEnabled);
      if filter != Spot then [] else enabled
    else records
  }

  /** `getPairs` as a value: transport check, population of every element (the first failure
      aborts, whatever the filter), the filter cascade, and `convertArrayToMap`. */
  function Pairs(resp: Response, filter: Filter, oracle: Oracle): (r: Result<map<string, PairInfo>>)
    ensures r.Failure? ==> r.error == TransportError || r.error == CanonicalizationMismatch
    ensures r.Success? ==> forall k :: k in r.value ==> r.value[k].normalizedPair == k
  {
    if !resp.transportOk then Failure(TransportError)
    else
      var records :- MapAll(resp.data, p => Populate(p, oracle));
      Success(ToMap(Select(records, filter)))
  }

  /** `getPairs` as the source runs it: `forEach`, then reassignment of `arr` by the cascade. */
  method GetPairs(resp: Response, filter: Filter, oracle: Oracle) returns (r: Result<map<string, PairInfo>>)
    ensures r == Pairs(resp, filter, oracle)
  {
    if !resp.transportOk {
      return Failure(TransportError);
    }
    var populated := PopulateEach(resp.data, p => Populate(p, oracle));
    if populated.Failure? {
      return Failure(populated.error);
    }
    var arr := populated.value;
    if filter != All {
      arr := Keep(arr, IsEnabled);
      if filter != Spot {
        arr := [];
      }
    }
    r := Success(ToMap(arr));
  }

  /** `Futures` and `Swap` give an empty map once the listing is populated. */
  lemma NonSpotFiltersEmpty(resp: Response, oracle: Oracle, filter: Filter)
    requires filter == Futures || filter == Swap
    ensures Pairs(resp, filter, oracle) ==
      if Pairs(resp, All, oracle).Success? then Success(map[]) else Pairs(resp, All, oracle)
  {
  }

  /** On populated records, `Spot` keeps exactly those whose trading status is "Enabled": its keys
      are their normalized pairs, a subset of the keys `All` gives, so the map is never larger. */
  lemma SpotSelection(records: seq<PairInfo>)
    ensures var spot := ToMap(Select(records, Spot));
      && spot.Keys == (set i | 0 <= i < |records| && IsEnabled(records[i]) :: records[i].normalizedPair)
      && spot.Keys <= ToMap(Select(records, All)).Keys
      && |spot| <= |ToMap(Select(records, All))|
      && forall k :: k in spot ==> IsEnabled(spot[k])
  {
    var enabled := Keep(records, IsEnabled);
    var spot := ToMap(enabled);
    var all := ToMap(records);
    forall k | k in spot.Keys
      ensures exists i :: 0 <= i < |records| && IsEnabled(records[i]) && records[i].normalizedPair == k
    {
      var j :| 0 <= j < |enabled| && enabled[j].normalizedPair == k;
      assert enabled[j] in records;
    }
    forall i | 0 <= i < |records| && IsEnabled(records[i])
      ensures records[i].normalizedPair in spot.Keys
    {
      assert records[i] in enabled;
    }
    SubsetCardinality(spot.Keys, all.Keys);
    forall k | k in spot
      ensures IsEnabled(spot[k])
    {
      ToMapValuesFromRecords(enabled, k);
    }
  }

  /** When no two records share a normalized pair, the `Spot` map is a sub-map of the `All` map:
      each of its entries is the `All` entry under the same key. */
  lemma SpotSubmap(records: seq<PairInfo>)
    requires DistinctPairs(records)
    ensures var spot := ToMap(Select(records, Spot));
      var all := ToMap(Select(records, All));
      forall k :: k in spot ==> k in all && spot[k] == all[k]
  {
    var enabled := Keep(records, IsEnabled);
    var spot := ToMap(enabled);
    forall k | k in spot
      ensures k in ToMap(records) && spot[k] == ToMap(records)[k]
    {
      ToMapValuesFromRecords(enabled, k);
      var i :| 0 <= i < |records| && records[i] == spot[k];
      ToMapLastWins(records, i);
    }
  }

  /** With a repeated normalized pair the sub-map property fails: an enabled record followed by a
      disabled one under the same key is what `Spot` keeps, while `All` keeps the later one. */
  lemma SpotDiffersOnRepeatedPair(a: PairInfo, b: PairInfo)
    requires a.normalizedPair == b.normalizedPair && IsEnabled(a) && !IsEnabled(b)
    ensures ToMap(Select([a, b], Spot)) == map[a.normalizedPair := a]
    ensures ToMap(Select([a, b], All))[a.normalizedPair] == b != a
  {
    KeepSingle(a, IsEnabled);
    KeepSingle(b, IsEnabled);
    KeepConcat([a], [b], IsEnabled);
    assert [a] + [b] == [a, b];
    assert [a, b][..1] == [a];
  }

  /** So on a successful listing, the `Spot` result is the enabled part of the `All` result. */
  lemma SpotWithinAll(resp: Response, oracle: Oracle)
    requires Pairs(resp, All, oracle).Success?
    ensures Pairs(resp, Spot, oracle).Success?
    ensures var records := MapAll(resp.data, p => Populate(p, oracle)).value;
      Pairs(resp, Spot, oracle).value.Keys
        == set i | 0 <= i < |records| && IsEnabled(records[i]) :: records[i].normalizedPair
    ensures Pairs(resp, Spot, oracle).value.Keys <= Pairs(resp, All, oracle).value.Keys
    ensures |Pairs(resp, Spot, oracle).value| <= |Pairs(resp, All, oracle).value|
    ensures forall k :: k in Pairs(resp, Spot, oracle).value ==> IsEnabled(Pairs(resp, Spot, oracle).value[k])
  {
    SpotSelection(MapAll(resp.data, p => Populate(p, oracle)).value);
  }

  /** On a successful listing whose populated records have distinct normalized pairs, the `Spot`
      result is a sub-map of the `All` result. */
  lemma SpotSubmapOfPairs(resp: Response, oracle: Oracle)
    requires Pairs(resp, All, oracle).Success?
    requires DistinctPairs(MapAll(resp.data, p => Populate(p, oracle)).value)
    ensures Pairs(resp, Spot, oracle).Success?
    ensures var spot := Pairs(resp, Spot, oracle).value;
      forall k :: k in spot ==> k in Pairs(resp, All, oracle).value && spot[k] == Pairs(resp, All, oracle).value[k]
  {
    var records := MapAll(resp.data, p => Populate(p, oracle)).value;
    assert Pairs(resp, Spot, oracle).value == ToMap(Select(records, Spot));
    assert Pairs(resp, All, oracle).value == ToMap(Select(records, All));
    SpotSubmap(records);
  }

  /** A failed transport aborts the call. */
  lemma TransportFailure(resp: Response, filter: Filter, oracle: Oracle)
    requires !resp.transportOk
    ensures Pairs(resp, filter, oracle) == Failure(TransportError)
  {
  }

  /** Every record of a successful result is keyed by its normalized pair, agrees with the oracle
      on its URL symbol, and comes from an element of the listing. */
  lemma PairsAgreeWithOracle(resp: Response, filter: Filter, oracle: Oracle, k: string)
    requires Pairs(resp, filter, oracle).Success? && k in Pairs(resp, filter, oracle).value
    ensures var v := Pairs(resp, filter, oracle).value[k];
      && v.normalizedPair == k
      && v.normalizedPair == oracle(v.rawPair, EXCHANGE)
      && v.exchange == EXCHANGE && v.spotEnabled
      && exists p :: p in resp.data && p.urlSymbol == v.rawPair && ReplaceFirst(p.name, '/', '_') == k
  {
    var f := (p: BitstampPairInfo) => Populate(p, oracle);
    var records := MapAll(resp.data, f).value;
    var selected := Select(records, filter);
    assert Pairs(resp, filter, oracle).value == ToMap(selected);
    var v := ToMap(selected)[k];
    ToMapValuesFromRecords(selected, k);
    assert v in records;
    var i :| 0 <= i < |records| && records[i] == v;
    var p := resp.data[i];
    assert f(p) == Success(v);
    PopulateFields(p, oracle);
    assert p in resp.data && p.urlSymbol == v.rawPair && ReplaceFirst(p.name, '/', '_') == k;
  }

  /** The static descriptor with the pairs attached. */
  function GetExchangeInfo(resp: Response, filter: Filter, oracle: Oracle): (r: Result<ExchangeInfo>)
    ensures r.Success? <==> Pairs(resp, filter, oracle).Success?
    ensures r.Success? ==>
      && r.value.name == EXCHANGE && !r.value.isDex && r.value.status
      && r.value.makerFee == 0.005 && r.value.takerFee == 0.005
      && r.value.pairs == Pairs(resp, filter, oracle).value
    ensures r.Failure? ==> r.error == Pairs(resp, filter, oracle).error
  {
    var pairs :- Pairs(resp, filter, oracle);
    Success(ExchangeInfo(
      name := EXCHANGE,
      apiDoc := "https://www.bitstamp.net/api/",
      websocketEndpoint := "wss://ws.bitstamp.net",
      restfulEndpoint := "https://www.bitstamp.net/api/v2",
      isDex := false,
      blockchain := None,
      status := true,
      makerFee := 0.005,
      takerFee := 0.005,
      pairs := pairs))
  }
}
