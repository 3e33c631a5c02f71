/** The canonical record every adapter produces, the exchange descriptor that carries a map of them,
    the fail-fast per-record population shared by the adapters, and `convertArrayToMap`. */
module Canonical {
  import opened Outcomes

  /** The external normalization oracle: (raw pair, exchange name) to canonical `BASE_QUOTE` pair. */
  type Oracle = (string, string) -> string

  /** The market-type filter every `getPairs` accepts; `All` is the default. */
  datatype Filter = All | Spot | Futures | Swap

  /** A minimum order size: a number the adapter sets, or the leading token of an exchange text
      whose `parseFloat` is not modelled. */
  datatype Quantity = Amount(amount: real) | LeadingToken(text: string)

  /** The exchange-native trading status a record keeps from its raw form, used by filters. */
  datatype RawStatus = Unreported | TextStatus(text: string) | CodeStatus(code: int)

  /** One tradable pair in the canonical shape. `None` stands for a field the adapter leaves unset. */
  datatype PairInfo = PairInfo(
    exchange: string,
    rawPair: string,
    normalizedPair: string,
    pricePrecision: Option<nat>,
    basePrecision: nat,
    quotePrecision: nat,
    minBaseQuantity: Option<Quantity>,
    minQuoteQuantity: Quantity,
    baseContract: Option<string>,
    quoteContract: Option<string>,
    spotEnabled: bool,
    futuresEnabled: Option<bool>,
    swapEnabled: Option<bool>,
    status: RawStatus)

  /** The descriptor `getExchangeInfo` returns: static venue metadata plus the pairs. */
  datatype ExchangeInfo = ExchangeInfo(
    name: string,
    apiDoc: string,
    websocketEndpoint: string,
    restfulEndpoint: string,
    isDex: bool,
    blockchain: Option<string>,
    status: bool,
    makerFee: real,
    takerFee: real,
    pairs: map<string, PairInfo>)

  /** A subset of keys is no larger than the set it lies in. */
  lemma SubsetCardinality(a: set<string>, b: set<string>)
    requires a <= b
    ensures |a| <= |b|
  {
    assert b == a + (b - a);
  }

  /** `convertArrayToMap`: records keyed by their normalized pair; a later record with the same key
      replaces an earlier one. */
  function ToMap(records: seq<PairInfo>): (m: map<string, PairInfo>)
    ensures m.Keys == set i | 0 <= i < |records| :: records[i].normalizedPair
    ensures forall k :: k in m ==> m[k].normalizedPair == k
  {
    if |records| == 0 then map[]
    else
      var last := records[|records| - 1];
      ToMap(records[..|records| - 1])[last.normalizedPair := last]
  }

  /** Every value of the map is one of the records, namely the LAST one carrying its key. */
  lemma {:induction false} ToMapLastWins(records: seq<PairInfo>, i: nat)
    requires i < |records|
    requires forall j :: i < j < |records| ==> records[j].normalizedPair != records[i].normalizedPair
    ensures ToMap(records)[records[i].normalizedPair] == records[i]
  {
    var n := |records|;
    if i < n - 1 {
      var front := records[..n - 1];
      assert forall j :: i < j < |front| ==> front[j] == records[j];
      ToMapLastWins(front, i);
    }
  }

  /** Every value of the map is one of the input records. */
  lemma {:induction false} ToMapValuesFromRecords(records: seq<PairInfo>, k: string)
    requires k in ToMap(records)
    ensures ToMap(records)[k] in records
  {
    var n := |records|;
    if records[n - 1].normalizedPair != k {
      var front := records[..n - 1];
      ToMapValuesFromRecords(front, k);
      assert ToMap(front)[k] in front;
    }
  }

  /** The fail-fast `forEach` over raw records: every record is populated by `f` in order, and the
      first record `f` rejects aborts the whole batch with that record's error. */
  function MapAll<R>(raws: seq<R>, f: R -> Result<PairInfo>): (r: Result<seq<PairInfo>>)
    ensures r.Success? <==> forall i :: 0 <= i < |raws| ==> f(raws[i]).Success?
    ensures r.Success? ==>
      |r.value| == |raws| && forall i :: 0 <= i < |raws| ==> r.value[i] == f(raws[i]).value
    ensures r.Failure? ==> exists i :: FirstRejected(raws, f, i) && f(raws[i]).error == r.error
  {
    if |raws| == 0 then Success([])
    else
      match f(raws[0])
      case Failure(e) => assert FirstRejected(raws, f, 0); Failure(e)
      case Success(p) =>
        var rest := MapAll(raws[1..], f);
        match rest
        case Failure(e) =>
          var i :| FirstRejected(raws[1..], f, i) && f(raws[1..][i]).error == e;
          assert FirstRejected(raws, f, i + 1);
          Failure(e)
        case Success(ps) => Success([p] + ps)
  }

  /** `i` is the first position whose record `f` rejects. */
  predicate FirstRejected<R>(raws: seq<R>, f: R -> Result<PairInfo>, i: int)
  {
    0 <= i < |raws| && f(raws[i]).Failure? && forall j :: 0 <= j < i ==> f(raws[j]).Success?
  }

  /** The first rejected position is unique, so the error of a rejected batch is determined. */
  lemma FirstRejectedUnique<R>(raws: seq<R>, f: R -> Result<PairInfo>, i: int, j: int)
    requires FirstRejected(raws, f, i) && FirstRejected(raws, f, j)
    ensures i == j
  {
  }

  /** A rejected batch fails with the error of its first rejected record. */
  lemma MapAllRejects<R>(raws: seq<R>, f: R -> Result<PairInfo>, i: int)
    requires FirstRejected(raws, f, i)
    ensures MapAll(raws, f) == Failure(f(raws[i]).error)
  {
    var whole := MapAll(raws, f);
    var k :| FirstRejected(raws, f, k) && f(raws[k]).error == whole.error;
    FirstRejectedUnique(raws, f, i, k);
  }

  /** A batch whose records are all accepted yields exactly the populated records, in order. */
  lemma MapAllAccepts<R>(raws: seq<R>, f: R -> Result<PairInfo>, out: seq<PairInfo>)
    requires |out| == |raws|
    requires forall j :: 0 <= j < |raws| ==> f(raws[j]).Success? && out[j] == f(raws[j]).value
    ensures MapAll(raws, f) == Success(out)
  {
    assert MapAll(raws, f).value == out;
  }

  /** Every value of the map built from a populated batch is the population of some raw record. */
  lemma MapAllToMapValue<R>(raws: seq<R>, f: R -> Result<PairInfo>, k: string)
    requires MapAll(raws, f).Success? && k in ToMap(MapAll(raws, f).value)
    ensures exists i :: 0 <= i < |raws| && f(raws[i]) == Success(ToMap(MapAll(raws, f).value)[k])
  {
    var records := MapAll(raws, f).value;
    ToMapValuesFromRecords(records, k);
    var i :| 0 <= i < |records| && records[i] == ToMap(records)[k];
    assert f(raws[i]) == Success(records[i]);
  }

  /** The `forEach` loop itself: populate each record in turn, stopping at the first rejection. */
  method PopulateEach<R>(raws: seq<R>, f: R -> Result<PairInfo>) returns (r: Result<seq<PairInfo>>)
    ensures r == MapAll(raws, f)
  {
    var arr: seq<PairInfo> := [];
    var i := 0;
    while i < |raws|
      invariant 0 <= i <= |raws|
      invariant |arr| == i
      invariant forall j :: 0 <= j < i ==> f(raws[j]).Success? && arr[j] == f(raws[j]).value
    {
      var p := f(raws[i]);
      if p.Failure? {
        MapAllRejects(raws, f, i);
        return Failure(p.error);
      }
      arr := arr + [p.value];
      i := i + 1;
    }
    MapAllAccepts(raws, f, arr);
    r := Success(arr);
  }

  /** `Array.prototype.filter`: the elements satisfying `p`, in their original order. */
  function Keep<T(!new)>(s: seq<T>, p: T -> bool): (r: seq<T>)
    ensures |r| <= |s|
    ensures forall x :: x in r <==> x in s && p(x)
  {
    if |s| == 0 then []
    else (if p(s[0]) then [s[0]] else []) + Keep(s[1..], p)
  }

  /** Filtering a single element keeps it exactly when it satisfies `p`. */
  lemma KeepSingle<T(!new)>(x: T, p: T -> bool)
    ensures Keep([x], p) == if p(x) then [x] else []
  {
    assert [x][1..] == [];
  }

  /** Filtering distributes over concatenation, so `Keep` preserves the order and the
      multiplicity of the elements it keeps. */
  lemma {:induction false} KeepConcat<T(!new)>(a: seq<T>, b: seq<T>, p: T -> bool)
    ensures Keep(a + b, p) == Keep(a, p) + Keep(b, p)
  {
    if |a| == 0 {
      assert a + b == b;
    } else {
      assert (a + b)[0] == a[0] && (a + b)[1..] == a[1..] + b;
      KeepConcat(a[1..], b, p);
    }
  }

  /** No two records share a normalized pair, so `convertArrayToMap` overwrites nothing. */
  predicate DistinctPairs(records: seq<PairInfo>)
  {
    forall i, j :: 0 <= i < j < |records| ==> records[i].normalizedPair != records[j].normalizedPair
  }
}
