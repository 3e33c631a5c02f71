/** The Kraken adapter: asset pairs from the `{result, error}` envelope of the public AssetPairs
    endpoint, keyed by the `wsname` field ("XBT/USD"), with the XBT and XDG legacy tickers aliased. */
module Kraken {
  import opened Outcomes
  import opened Text
  import opened Canonical

  const EXCHANGE := "Kraken"

  /** Kraken's documented minimum order size per base ticker (`MIN_BASE_QUANTITY`). */
  const MIN_BASE_QUANTITY: map<string, real> := map[
    "ADA" := 1.0, "ATOM" := 1.0, "BAT" := 50.0, "BCH" := 0.000002, "BTC" := 0.002,
    "DAI" := 10.0, "DASH" := 0.03, "DOGE" := 3000.0, "EOS" := 3.0, "ETC" := 0.3,
    "ETH" := 0.02, "GNO" := 0.03, "ICX" := 50.0, "LINK" := 10.0, "LSK" := 10.0,
    "LTC" := 0.1, "MLN" := 0.1, "NANO" := 10.0, "OMG" := 10.0, "PAXG" := 0.01,
    "QTUM" := 0.1, "REP" := 0.3, "SC" := 5000.0, "USDC" := 5.0, "USDT" := 5.0,
    "WAVES" := 10.0, "XLM" := 30.0, "XMR" := 0.1, "XRP" := 30.0, "XTZ" := 1.0,
    "ZEC" := 0.03]

  /** One value of the `result` object. An absent `wsname` is represented by the empty string:
      both are falsy and are dropped alike. */
  datatype KrakenPairInfo = KrakenPairInfo(wsname: string, pairDecimals: nat, lotDecimals: nat)

  /** The HTTP reply: whether the transport reported 200/OK, the envelope's `error` list, and the
      values of its `result` object in iteration order. */
  datatype Response = Response(transportOk: bool, error: seq<string>, result: seq<KrakenPairInfo>)

  /** `filter(x => x.wsname)`. */
  predicate HasWsname(p: KrakenPairInfo)
  {
    p.wsname != ""
  }

  /** The per-side legacy-ticker rewrite of `extractNormalizedPair`. */
  function Alias(token: string): (r: string)
    ensures token == "XBT" ==> r == "BTC"
    ensures token == "XDG" ==> r == "DOGE"
    ensures token != "XBT" && token != "XDG" ==> r == token
  {
    if token == "XBT" then "BTC" else if token == "XDG" then "DOGE" else token
  }

  /** `extractNormalizedPair` as a value: fails unless the name splits on `/` into exactly two tokens. */
  function NormalizedPair(wsname: string): (r: Result<string>)
    ensures r.Failure? <==> Occurrences(wsname, '/') != 1
    ensures r.Failure? ==> r.error == MalformedRawRecord
  {
    var tokens := Split(wsname, '/');
    if |tokens| != 2 then Failure(MalformedRawRecord)
    else Success(Alias(tokens[0]) + "_" + Alias(tokens[1]))
  }

  /** A name made of two slash-free tokens normalizes to the aliased tokens joined by `_`. */
  lemma NormalizedPairOfTokens(base: string, quote: string)
    requires '/' !in base && '/' !in quote
    ensures NormalizedPair(base + "/" + quote) == Success(Alias(base) + "_" + Alias(quote))
  {
    SplitAfterPiece(base, quote, '/');
    SplitWithoutSeparator(quote, '/');
  }

  /** The aliasing applies to the base side ... */
  lemma AliasBaseExample()
    ensures NormalizedPair("XBT/USD") == Success("BTC_USD")
  {
    NormalizedPairOfTokens("XBT", "USD");
    assert "XBT" + "/" + "USD" == "XBT/USD";
    assert Alias("XBT") + "_" + Alias("USD") == "BTC_USD";
  }

  lemma AliasDogeExample()
    ensures NormalizedPair("XDG/EUR") == Success("DOGE_EUR")
  {
    NormalizedPairOfTokens("XDG", "EUR");
    assert "XDG" + "/" + "EUR" == "XDG/EUR";
    assert Alias("XDG") + "_" + Alias("EUR") == "DOGE_EUR";
  }

  /** ... and to the quote side alike. */
  lemma AliasQuoteExample()
    ensures NormalizedPair("ETH/XBT") == Success("ETH_BTC")
  {
    NormalizedPairOfTokens("ETH", "XBT");
    assert "ETH" + "/" + "XBT" == "ETH/XBT";
    assert Alias("ETH") + "_" + Alias("XBT") == "ETH_BTC";
  }

  /** A name with no slash, or with two, is rejected rather than partially joined. */
  lemma MalformedExamples()
    ensures NormalizedPair("XBTUSD") == Failure(MalformedRawRecord)
    ensures NormalizedPair("A/B/C") == Failure(MalformedRawRecord)
  {
    assert Occurrences("XBTUSD", '/') == 0;
    assert Occurrences("A/B/C", '/') == 2;
  }

  /** `extractNormalizedPair` as the source runs it: split, check for two tokens, rewrite the
      tokens of a local array in place, and join. */
  method ExtractNormalizedPair(wsname: string) returns (r: Result<string>)
    ensures r == NormalizedPair(wsname)
  {
    var tokens := Split(wsname, '/');
    if |tokens| != 2 {
      return Failure(MalformedRawRecord);
    }
    var arr := new string[2](i requires 0 <= i < 2 => tokens[i]);
    for i := 0 to arr.Length
      invariant forall j :: 0 <= j < i ==> arr[j] == Alias(tokens[j])
      invariant forall j :: i <= j < arr.Length ==> arr[j] == tokens[j]
    {
      if arr[i] == "XBT" {
        arr[i] := "BTC";
      }
      if arr[i] == "XDG" {
        arr[i] := "DOGE";
      }
    }
    r := Success(arr[0] + "_" + arr[1]);
  }

  /** `MIN_BASE_QUANTITY[base]`; a ticker not in the table yields no value. */
  function MinBaseQuantity(base: string): (q: Option<Quantity>)
    ensures q.Some? <==> base in MIN_BASE_QUANTITY
  {
    if base in MIN_BASE_QUANTITY then Some(Amount(MIN_BASE_QUANTITY[base])) else None
  }

  /** The fields the `forEach` body assigns once the normalized pair is known. */
  function Fill(p: KrakenPairInfo, normalized: string): PairInfo
  {
    PairInfo(
      exchange := EXCHANGE,
      rawPair := p.wsname,
      normalizedPair := normalized,
      pricePrecision := Some(p.pairDecimals),
      basePrecision := p.lotDecimals,
      quotePrecision := p.pairDecimals,
      minBaseQuantity := MinBaseQuantity(FirstPiece(normalized, '_')),
      minQuoteQuantity := Amount(0.0),
      baseContract := None,
      quoteContract := None,
      spotEnabled := true,
      futuresEnabled := None,
      swapEnabled := None,
      status := Unreported)
  }

  /** The `forEach` body for one entry: derive, cross-check against the oracle, fill. The raw
      pair (`extractRawPair`) is the websocket name. */
  function Populate(p: KrakenPairInfo, oracle: Oracle): (r: Result<PairInfo>)
    ensures r.Failure? ==> r.error == MalformedRawRecord || r.error == CanonicalizationMismatch
    ensures r.Success? ==> r.value.rawPair == p.wsname && r.value.normalizedPair == oracle(p.wsname, EXCHANGE)
  {
    var normalized :- NormalizedPair(p.wsname);
    if normalized != oracle(p.wsname, EXCHANGE) then Failure(CanonicalizationMismatch)
    else Success(Fill(p, normalized))
  }

  /** What a populated entry is: raw pair the websocket name, normalized pair the oracle's answer
      for it, and the precision and quantity fields as Kraken reports them. */
  lemma PopulateFields(p: KrakenPairInfo, oracle: Oracle)
    ensures Populate(p, oracle).Success? <==>
      NormalizedPair(p.wsname).Success? && NormalizedPair(p.wsname).value == oracle(p.wsname, EXCHANGE)
    ensures Occurrences(p.wsname, '/') != 1 ==> Populate(p, oracle) == Failure(MalformedRawRecord)
    ensures NormalizedPair(p.wsname).Success? && NormalizedPair(p.wsname).value != oracle(p.wsname, EXCHANGE)
      ==> Populate(p, oracle) == Failure(CanonicalizationMismatch)
    ensures Populate(p, oracle).Success? ==>
      var v := Populate(p, oracle).value;
      && v.exchange == EXCHANGE && v.rawPair == p.wsname
      && v.normalizedPair == oracle(p.wsname, EXCHANGE)
      && v.pricePrecision == Some(p.pairDecimals) && v.quotePrecision == p.pairDecimals
      && v.basePrecision == p.lotDecimals
      && v.minQuoteQuantity == Amount(0.0) && v.spotEnabled
  {
  }

  /** Population decided by its two steps: the normalized pair, then the oracle check. */
  lemma PopulateByParts(p: KrakenPairInfo, oracle: Oracle, normalized: Result<string>)
    requires normalized == NormalizedPair(p.wsname)
    ensures Populate(p, oracle) ==
      if normalized.Failure? then Failure(normalized.error)
      else if normalized.value != oracle(p.wsname, EXCHANGE) then Failure(CanonicalizationMismatch)
      else Success(Fill(p, normalized.value))
  {
  }

  /** The minimum base quantity is looked up under the ALIASED base ticker. */
  lemma MinBaseFollowsAlias(p: KrakenPairInfo, oracle: Oracle, base: string, quote: string)
    requires p.wsname == base + "/" + quote && '/' !in base && '/' !in quote
    requires '_' !in Alias(base)
    requires Populate(p, oracle).Success?
    ensures Populate(p, oracle).value.minBaseQuantity == MinBaseQuantity(Alias(base))
  {
    NormalizedPairOfTokens(base, quote);
    SplitAfterPiece(Alias(base), Alias(quote), '_');
    assert Alias(base) + "_" + Alias(quote) == Alias(base) + ['_'] + Alias(quote);
  }

  /** So an `XBT` pair gets the `BTC` minimum, an `XDG` pair the `DOGE` one, and a base missing
      from the table none. */
  lemma MinBaseExamples()
    ensures MinBaseQuantity(Alias("XBT")) == Some(Amount(0.002))
    ensures MinBaseQuantity(Alias("XDG")) == Some(Amount(3000.0))
    ensures MinBaseQuantity(Alias("FOO")) == None
  {
  }

  /** `getPairs` as a value: transport and envelope checks, the `wsname` filter, population of
      every entry (the first failure aborts), and the market-type filter. */
  function Pairs(resp: Response, filter: Filter, oracle: Oracle): (r: Result<map<string, PairInfo>>)
    ensures r.Failure? ==>
      r.error == TransportError || r.error == MalformedRawRecord || r.error == CanonicalizationMismatch
    ensures r.Success? ==> forall k :: k in r.value ==> r.value[k].normalizedPair == k
  {
    if !resp.transportOk || |resp.error| != 0 then Failure(TransportError)
    else
      var records :- MapAll(Keep(resp.result, HasWsname), p => Populate(p, oracle));
      if filter == All || filter == Spot then Success(ToMap(records)) else Success(map[])
  }

  /** The `forEach` over the listed entries: each calls the loop-based `extractNormalizedPair` and
      asserts agreement with the oracle; the first failure aborts. */
  method PopulateListed(arr: seq<KrakenPairInfo>, oracle: Oracle) returns (r: Result<seq<PairInfo>>)
    ensures r == MapAll(arr, p => Populate(p, oracle))
  {
    ghost var f := (p: KrakenPairInfo) => Populate(p, oracle);
    var populated: seq<PairInfo> := [];
    var i := 0;
    while i < |arr|
      invariant 0 <= i <= |arr|
      invariant |populated| == i
      invariant forall j :: 0 <= j < i ==> f(arr[j]).Success? && populated[j] == f(arr[j]).value
    {
      var p := arr[i];
      var normalized := ExtractNormalizedPair(p.wsname);
      PopulateByParts(p, oracle, normalized);
      if normalized.Failure? || normalized.value != oracle(p.wsname, EXCHANGE) {
        MapAllRejects(arr, f, i);
        return if normalized.Failure? then Failure(normalized.error) else Failure(CanonicalizationMismatch);
      }
      populated := populated + [Fill(p, normalized.value)];
      i := i + 1;
    }
    MapAllAccepts(arr, f, populated);
    r := Success(populated);
  }

  /** `getPairs` as the source runs it: transport and envelope checks, the `wsname` filter, the
      `forEach`, and the market-type filter. */
  method GetPairs(resp: Response, filter: Filter, oracle: Oracle) returns (r: Result<map<string, PairInfo>>)
    ensures r == Pairs(resp, filter, oracle)
  {
    if !resp.transportOk || |resp.error| != 0 {
      return Failure(TransportError);
    }
    var arr := Keep(resp.result, HasWsname);
    var populated := PopulateListed(arr, oracle);
    if populated.Failure? {
      return Failure(populated.error);
    }
    if filter == All || filter == Spot {
      return Success(ToMap(populated.value));
    }
    return Success(map[]);
  }

  /** `All` and `Spot` give the same map; every other filter gives an empty map, once the listing
      itself has been fetched and populated successfully. */
  lemma FilterOutcomes(resp: Response, oracle: Oracle)
    ensures Pairs(resp, Spot, oracle) == Pairs(resp, All, oracle)
    ensures Pairs(resp, Futures, oracle) == Pairs(resp, Swap, oracle)
    ensures Pairs(resp, Futures, oracle) ==
      if Pairs(resp, All, oracle).Success? then Success(map[]) else Pairs(resp, All, oracle)
  {
  }

  /** A failed transport or a non-empty `error` list aborts the call. */
  lemma TransportFailures(resp: Response, filter: Filter, oracle: Oracle)
    requires !resp.transportOk || |resp.error| > 0
    ensures Pairs(resp, filter, oracle) == Failure(TransportError)
  {
  }

  /** Every record of a successful result is keyed by its normalized pair, agrees with the oracle,
      and comes from a listed entry with a non-empty websocket name. */
  lemma PairsAgreeWithOracle(resp: Response, filter: Filter, oracle: Oracle, k: string)
    requires Pairs(resp, filter, oracle).Success? && k in Pairs(resp, filter, oracle).value
    ensures var v := Pairs(resp, filter, oracle).value[k];
      && v.normalizedPair == k
      && v.normalizedPair == oracle(v.rawPair, EXCHANGE)
      && v.exchange == EXCHANGE && v.spotEnabled
      && exists p :: p in resp.result && p.wsname != "" && p.wsname == v.rawPair
  {
    var arr := Keep(resp.result, HasWsname);
    var f := (p: KrakenPairInfo) => Populate(p, oracle);
    MapAllToMapValue(arr, f, k);
    var i :| 0 <= i < |arr| && f(arr[i]) == Success(Pairs(resp, filter, oracle).value[k]);
    PopulateFields(arr[i], oracle);
    assert arr[i] in arr;
  }

  /** With `All`, the keys are exactly the normalized pairs of the listed entries. */
  lemma PairsKeys(resp: Response, oracle: Oracle)
    requires Pairs(resp, All, oracle).Success?
    ensures var arr := Keep(resp.result, HasWsname);
      Pairs(resp, All, oracle).value.Keys == set i | 0 <= i < |arr| :: NormalizedPair(arr[i].wsname).value
  {
    var arr := Keep(resp.result, HasWsname);
    var f := (p: KrakenPairInfo) => Populate(p, oracle);
    var records := MapAll(arr, f).value;
    forall i | 0 <= i < |arr|
      ensures records[i].normalizedPair == NormalizedPair(arr[i].wsname).value
    {
      PopulateByParts(arr[i], oracle, NormalizedPair(arr[i].wsname));
    }
    assert (set i | 0 <= i < |records| :: records[i].normalizedPair)
        == (set i | 0 <= i < |arr| :: NormalizedPair(arr[i].wsname).value);
  }

  /** `getExchangeInfo`: the static descriptor with the pairs attached. */
  function GetExchangeInfo(resp: Response, filter: Filter, oracle: Oracle): (r: Result<ExchangeInfo>)
    ensures r.Success? <==> Pairs(resp, filter, oracle).Success?
    ensures r.Success? ==>
      && r.value.name == EXCHANGE && !r.value.isDex && r.value.status
      && r.value.makerFee == 0.0016 && r.value.takerFee == 0.0026
      && r.value.pairs == Pairs(resp, filter, oracle).value
    ensures r.Failure? ==> r.error == Pairs(resp, filter, oracle).error
  {
    var pairs :- Pairs(resp, filter, oracle);
    Success(ExchangeInfo(
      name := EXCHANGE,
      apiDoc := "https://www.kraken.com/features/api",
      websocketEndpoint := "wss://ws.kraken.com",
      restfulEndpoint := "https://api.kraken.com",
      isDex := false,
      blockchain := None,
      status := true,
      makerFee := 0.0016,
      takerFee := 0.0026,
      pairs := pairs))
  }
}
