/** The package entry point: the list of supported exchanges and `getExchangeInfo`, which dispatches
    on the exchange name to the adapter of that venue. */
module Dispatcher {
  import opened Outcomes
  import opened Canonical
  import BitstampApi = Bitstamp
  import NewdexApi = Newdex

  /** `EXCHANGES`, in the order the package exports them. The names are case-sensitive. */
  const EXCHANGES: seq<string> :=
    ["Binance", "Bitfinex", "Bitstamp", "Coinbase", "Coincheck", "Huobi", "Newdex", "WhaleEx", "bitFlyer"]

  /** The adapters the entry point can reach, one per supported exchange. */
  datatype Adapter = Binance | Bitfinex | Bitstamp | Coinbase | Coincheck | Huobi | Newdex | WhaleEx | BitFlyer

  /** The `case` label under which the switch reaches an adapter. */
  function AdapterName(a: Adapter): string
  {
    match a
    case Binance => "Binance"
    case Bitfinex => "Bitfinex"
    case Bitstamp => "Bitstamp"
    case Coinbase => "Coinbase"
    case Coincheck => "Coincheck"
    case Huobi => "Huobi"
    case Newdex => "Newdex"
    case WhaleEx => "WhaleEx"
    case BitFlyer => "bitFlyer"
  }

  /** The `switch`: the adapter whose label is exactly the name, or the unknown-exchange error. */
  function Select(name: string): (r: Result<Adapter>)
    ensures r.Success? <==> name in EXCHANGES
    ensures r.Success? ==> AdapterName(r.value) == name
    ensures r.Failure? ==> r.error == UnsupportedExchange(name)
  {
    if name == "Binance" then Success(Binance)
    else if name == "Bitfinex" then Success(Bitfinex)
    else if name == "Bitstamp" then Success(Bitstamp)
    else if name == "Coinbase" then Success(Coinbase)
    else if name == "Coincheck" then Success(Coincheck)
    else if name == "Huobi" then Success(Huobi)
    else if name == "Newdex" then Success(Newdex)
    else if name == "WhaleEx" then Success(WhaleEx)
    else if name == "bitFlyer" then Success(BitFlyer)
    else Failure(UnsupportedExchange(name))
  }

  /** Every adapter is reached by its own label and by no other: the switch has one case per
      exported name and no two cases share an adapter. */
  lemma SelectAdapterName(a: Adapter)
    ensures AdapterName(a) in EXCHANGES
    ensures Select(AdapterName(a)) == Success(a)
  {
  }

  /** The exported names are nine distinct strings. */
  lemma ExchangesDistinct()
    ensures |EXCHANGES| == 9
    ensures forall i, j :: 0 <= i < j < |EXCHANGES| ==> EXCHANGES[i] != EXCHANGES[j]
  {
  }

  /** Names are matched exactly: a different capitalisation, and the adapters of this package that
      the entry point does not list, are rejected. */
  lemma UnlistedNamesRejected()
    ensures Select("BitFlyer") == Failure(UnsupportedExchange("BitFlyer"))
    ensures Select("Kraken") == Failure(UnsupportedExchange("Kraken"))
    ensures Select("ZB") == Failure(UnsupportedExchange("ZB"))
  {
  }

  /** What the adapters read from the outside world: the normalization oracle, the replies the
      Bitstamp and Newdex adapters receive, the number of pages within which the Newdex loop stops,
      and the outcome of each adapter whose source is not part of this model. */
  datatype Inputs = Inputs(
    oracle: Oracle,
    bitstamp: BitstampApi.Response,
    newdexConfig: NewdexApi.Replies<NewdexApi.ConfigRow>,
    newdexPairs: NewdexApi.PageSource,
    newdexPages: nat,
    others: Adapter -> Result<ExchangeInfo>)

  /** The Newdex adapter is asked for and its configuration read succeeds, so its pagination
      loop runs. */
  predicate NewdexReachesPairs(name: string, env: Inputs)
  {
    name == "Newdex" && NewdexApi.GetGlobalConfig(env.newdexConfig).Success?
  }

  /** `getExchangeInfo(exchangeName)`: each adapter is called with its default filter, `All`. */
  function GetExchangeInfo(name: string, env: Inputs): (r: Result<ExchangeInfo>)
    requires NewdexReachesPairs(name, env) ==> NewdexApi.Terminates(env.newdexPairs, All, env.newdexPages)
    ensures r.Success? ==> name in EXCHANGES
    ensures name !in EXCHANGES ==> r == Failure(UnsupportedExchange(name))
    ensures (name == "Bitstamp" || name == "Newdex") && r.Success? ==> r.value.name == name
  {
    var adapter :- Select(name);
    match adapter
    case Bitstamp => BitstampApi.GetExchangeInfo(env.bitstamp, All, env.oracle)
    case Newdex => NewdexApi.GetExchangeInfo(env.newdexConfig, env.newdexPairs, All, env.oracle, env.newdexPages)
    case _ => env.others(adapter)
  }

  /** An unlisted name is refused with the name in the error; a listed one reaches its adapter, and
      the modelled adapters answer with a descriptor named after the requested exchange that
      carries every pair the adapter's `All` listing gives. */
  lemma DispatchOutcome(name: string, env: Inputs)
    requires NewdexReachesPairs(name, env) ==> NewdexApi.Terminates(env.newdexPairs, All, env.newdexPages)
    ensures name !in EXCHANGES ==> GetExchangeInfo(name, env) == Failure(UnsupportedExchange(name))
    ensures name in EXCHANGES && name != "Bitstamp" && name != "Newdex" ==>
      GetExchangeInfo(name, env) == env.others(Select(name).value)
    ensures name == "Bitstamp" ==>
      (GetExchangeInfo(name, env).Success? <==> BitstampApi.Pairs(env.bitstamp, All, env.oracle).Success?)
    ensures name == "Newdex" ==>
      (GetExchangeInfo(name, env).Success? <==>
         NewdexApi.GetGlobalConfig(env.newdexConfig).Success?
         && NewdexApi.Pairs(env.newdexPairs, All, env.oracle, env.newdexPages).Success?)
    ensures name == "Newdex" && NewdexApi.GetGlobalConfig(env.newdexConfig).Failure? ==>
      GetExchangeInfo(name, env) == Failure(NewdexApi.GetGlobalConfig(env.newdexConfig).error)
    ensures (name == "Bitstamp" || name == "Newdex") && GetExchangeInfo(name, env).Success? ==>
      GetExchangeInfo(name, env).value.name == name
    ensures name == "Bitstamp" && GetExchangeInfo(name, env).Success? ==>
      GetExchangeInfo(name, env).value.pairs == BitstampApi.Pairs(env.bitstamp, All, env.oracle).value
    ensures name == "Newdex" && GetExchangeInfo(name, env).Success? ==>
      GetExchangeInfo(name, env).value.pairs == NewdexApi.Pairs(env.newdexPairs, All, env.oracle, env.newdexPages).value
  {
  }
}
