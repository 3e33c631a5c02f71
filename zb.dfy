/** The ZB adapter: the markets listing is a JSON object keyed by the exchange's own pair name
    ("btc_usdt"); each entry is kept as it is and stamped with its key and the key in upper case. */
module ZB {
  import opened Outcomes
  import opened Text

  /** A market entry of the listing, stamped with its key. `V` is the exchange's own market
      description, which the adapter passes through untouched. */
  datatype ZBPairInfo<V> = ZBPairInfo(rawPair: string, normalizedPair: string, market: V)

  /** The HTTP reply: whether the transport reported 200/OK, and the entries of the listing in the
      order `Object.keys` yields them. */
  datatype Response<V> = Response(transportOk: bool, markets: seq<(string, V)>)

  /** The stamped record for one entry: the key is the raw pair, the market is untouched, and the
      normalized pair is the key upper-cased: same length, every lower-case letter 32 code points
      down to its upper case, every other character kept. */
  function Stamp<V>(key: string, market: V): (r: ZBPairInfo<V>)
    ensures r.rawPair == key && r.market == market
    ensures |r.normalizedPair| == |key|
    ensures forall j :: 0 <= j < |key| ==> !IsLower(r.normalizedPair[j])
    ensures forall j :: 0 <= j < |key| && IsLower(key[j]) ==> r.normalizedPair[j] as int == key[j] as int - 32
    ensures forall j :: 0 <= j < |key| && !IsLower(key[j]) ==> r.normalizedPair[j] == key[j]
  {
    ZBPairInfo(rawPair := key, normalizedPair := ToUpper(key), market := market)
  }

  /** The listing as a value: one stamped record per entry, in key order. */
  function Listing<V>(markets: seq<(string, V)>): (r: seq<ZBPairInfo<V>>)
    ensures |r| == |markets|
    ensures forall i :: 0 <= i < |r| ==> r[i] == Stamp(markets[i].0, markets[i].1)
  {
    if |markets| == 0 then []
    else [Stamp(markets[0].0, markets[0].1)] + Listing(markets[1..])
  }

  /** `getPairs`: a failed transport aborts; otherwise every key of the listing yields a record,
      pushed in key order. */
  method GetPairs<V>(resp: Response<V>) returns (r: Result<seq<ZBPairInfo<V>>>)
    ensures !resp.transportOk ==> r == Failure(TransportError)
    ensures resp.transportOk ==> r == Success(Listing(resp.markets))
  {
    if !resp.transportOk {
      return Failure(TransportError);
    }
    var arr: seq<ZBPairInfo<V>> := [];
    var i := 0;
    while i < |resp.markets|
      invariant 0 <= i <= |resp.markets|
      invariant arr == Listing(resp.markets)[..i]
    {
      var (key, value) := resp.markets[i];
      arr := arr + [Stamp(key, value)];
      i := i + 1;
    }
    assert Listing(resp.markets)[..i] == Listing(resp.markets);
    r := Success(arr);
  }

  /** Every record keeps its key as the raw pair and carries the market unchanged; its normalized
      pair is `toUpperCase` of the key: every ASCII lower-case letter raised, no lower-case letter
      left, of the same length, and a fixed point of upper-casing. */
  lemma ListingRecords<V>(markets: seq<(string, V)>, i: int)
    requires 0 <= i < |markets|
    ensures var v := Listing(markets)[i];
      && v.rawPair == markets[i].0 && v.market == markets[i].1
      && v.normalizedPair == ToUpper(v.rawPair)
      && |v.normalizedPair| == |v.rawPair|
      && (forall j :: 0 <= j < |v.normalizedPair| ==> !IsLower(v.normalizedPair[j]))
      && (forall j :: 0 <= j < |v.rawPair| && !IsLower(v.rawPair[j]) ==> v.normalizedPair[j] == v.rawPair[j])
      && ToUpper(v.normalizedPair) == v.normalizedPair
  {
    ToUpperProperties(markets[i].0);
  }

  /** The raw pairs of the listing are exactly its keys, in order. */
  lemma ListingKeys<V>(markets: seq<(string, V)>)
    ensures seq(|Listing(markets)|, i requires 0 <= i < |Listing(markets)| => Listing(markets)[i].rawPair)
         == seq(|markets|, i requires 0 <= i < |markets| => markets[i].0)
  {
  }

  /** An exchange key such as "btc_usdt" is published as "BTC_USDT". */
  lemma UpperExample()
    ensures ToUpper("btc_usdt") == "BTC_USDT"
  {
    assert ToUpper("btc_usdt")[0] == 'B';
  }

  /** The descriptor ZB's `getExchangeInfo` returns: unlike the other venues its `pairs` is the
      array of stamped market entries, not a map. */
  datatype Descriptor<V> = Descriptor(
    name: string,
    apiDoc: string,
    websocketEndpoint: string,
    restfulEndpoint: string,
    isDex: bool,
    status: bool,
    makerFee: real,
    takerFee: real,
    pairs: seq<ZBPairInfo<V>>)

  /** `getExchangeInfo`: the static descriptor with the listing attached. */
  method GetExchangeInfo<V>(resp: Response<V>) returns (r: Result<Descriptor<V>>)
    ensures r.Success? <==> resp.transportOk
    ensures r.Failure? ==> r.error == TransportError
    ensures r.Success? ==>
      && r.value.name == "ZB" && !r.value.isDex && r.value.status
      && r.value.makerFee == 0.001 && r.value.takerFee == 0.001
      && r.value.pairs == Listing(resp.markets)
  {
    var pairs :- GetPairs(resp);
    r := Success(Descriptor(
      name := "ZB",
      apiDoc := "https://web.zb.com/i/developer",
      websocketEndpoint := "wss://api.zb.cn/websocket",
      restfulEndpoint := "http://api.zb.plus/data/v1",
      isDex := false,
      status := true,
      makerFee := 0.001,
      takerFee := 0.001,
      pairs := pairs));
  }
}
