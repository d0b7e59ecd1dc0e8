/** The price table of the currency-swap form (`usePrices`, lines 27-52):
    the fetched price records are reduced to one price per currency, the
    one with the latest date, and the currency names are listed in sorted
    order. Dates are the time values `new Date(date)` parses them to; an
    unparseable date is `None` (an Invalid Date, whose time value is NaN). */
module Prices {
  import opened Wrappers
  import StringOrder

  /** One element of the fetched `prices.json` array. */
  datatype PriceRecord = PriceRecord(currency: string, date: Option<int>, price: real)

  /** What the intermediate `priceMap` stores per currency. */
  datatype Entry = Entry(price: real, date: Option<int>)

  /** `new Date(a) > new Date(b)`: false whenever either side is NaN. */
  predicate Later(a: Option<int>, b: Option<int>) {
    a.Some? && b.Some? && a.value > b.value
  }

  /** The currencies named by some record. */
  function CurrenciesIn(records: seq<PriceRecord>): set<string> {
    set i | 0 <= i < |records| :: records[i].currency
  }

  /** One iteration of the `forEach` (lines 34-37): the record is stored when
      its currency is new or its date is strictly later than the stored one. */
  function Step(m: map<string, Entry>, r: PriceRecord): (m': map<string, Entry>)
    ensures m'.Keys == m.Keys + {r.currency}
    ensures forall c :: c in m && c != r.currency ==> m'[c] == m[c]
    ensures r.currency !in m ==> m'[r.currency] == Entry(r.price, r.date)
    ensures r.currency in m && r.date.None? ==> m' == m
    ensures r.currency in m && m[r.currency].date.None? ==> m' == m
  {
    if r.currency !in m || Later(r.date, m[r.currency].date) then
      m[r.currency := Entry(r.price, r.date)]
    else
      m
  }

  /** `priceMap` after the `forEach` has visited all of `records`. */
  function LatestEntries(records: seq<PriceRecord>): (m: map<string, Entry>)
    ensures m.Keys == CurrenciesIn(records)
  {
    if records == [] then map[]
    else
      var init := records[..|records| - 1];
      assert CurrenciesIn(records) == CurrenciesIn(init) + {records[|records| - 1].currency} by {
        assert forall i :: 0 <= i < |init| ==> init[i] == records[i];
      }
      Step(LatestEntries(init), records[|records| - 1])
  }

  /** Some record before index `i` has currency `c`. */
  predicate SeenBefore(records: seq<PriceRecord>, c: string, i: int)
    requires 0 <= i <= |records|
  {
    exists j :: 0 <= j < i && records[j].currency == c
  }

  /** The record at `w` is the one the reduction keeps for `c`: every earlier
      record of `c` has a strictly earlier date or is an undated record that
      is not the first of its currency, and no later record of `c` has a
      strictly later date. So the strictly latest date wins, the earlier
      record wins a tie, an undated record is never taken over an existing
      one and an undated first record is never replaced. */
  predicate Chosen(records: seq<PriceRecord>, c: string, w: int) {
    && 0 <= w < |records| && records[w].currency == c
    && (forall i :: 0 <= i < w && records[i].currency == c ==>
          Later(records[w].date, records[i].date)
          || (records[i].date.None? && SeenBefore(records, c, i)))
    && (forall i :: w < i < |records| && records[i].currency == c ==>
          !Later(records[i].date, records[w].date))
  }

  /** The entry the reduction stores for each currency is that of its chosen record. */
  lemma {:induction false} LatestEntriesChosen(records: seq<PriceRecord>, c: string)
    requires c in LatestEntries(records)
    ensures exists w :: (Chosen(records, c, w)
      && LatestEntries(records)[c] == Entry(records[w].price, records[w].date))
  {
    var n := |records| - 1;
    var init, r := records[..n], records[n];
    var m := LatestEntries(init);
    if c != r.currency || c in m {
      LatestEntriesChosen(init, c);
      var w :| Chosen(init, c, w) && m[c] == Entry(init[w].price, init[w].date);
      assert init[w] == records[w];
      if c == r.currency && Later(r.date, m[c].date) {
        ChosenReplace(records, c, w);
      } else {
        ChosenExtend(records, c, w);
      }
    } else {
      assert forall i :: 0 <= i < n ==> records[i].currency != c by {
        assert forall i :: 0 <= i < n ==> init[i] == records[i];
      }
      assert Chosen(records, c, n);
    }
  }

  /** A strictly later record of `c` takes over from the chosen one. */
  lemma ChosenReplace(records: seq<PriceRecord>, c: string, w: int)
    requires records != [] && Chosen(records[..|records| - 1], c, w)
    requires var r := records[|records| - 1];
      r.currency == c && Later(r.date, records[w].date)
    ensures Chosen(records, c, |records| - 1)
  {
    var n := |records| - 1;
    var init := records[..n];
    forall i | 0 <= i < n && records[i].currency == c
      ensures Later(records[n].date, records[i].date)
              || (records[i].date.None? && SeenBefore(records, c, i))
    {
      var dn, dw, di := records[n].date, records[w].date, records[i].date;
      assert init[i] == records[i] && init[w] == records[w];
      if i < w {
        if !Later(dw, di) {
          var j :| 0 <= j < i && init[j].currency == c;
          assert records[j] == init[j];
        }
      } else if i > w {
        assert !Later(di, dw);
      }
    }
  }

  /** A record that is of another currency, or not strictly later, keeps
      the chosen record chosen. */
  lemma ChosenExtend(records: seq<PriceRecord>, c: string, w: int)
    requires records != [] && Chosen(records[..|records| - 1], c, w)
    requires var r := records[|records| - 1];
      r.currency != c || !Later(r.date, records[w].date)
    ensures Chosen(records, c, w)
  {
    var n := |records| - 1;
    var init := records[..n];
    forall i | 0 <= i < w && records[i].currency == c
      ensures Later(records[w].date, records[i].date)
              || (records[i].date.None? && SeenBefore(records, c, i))
    {
      assert init[i] == records[i];
      if !Later(records[w].date, records[i].date) {
        var j :| 0 <= j < i && init[j].currency == c;
        assert records[j] == init[j];
      }
    }
    forall i | w < i < |records| && records[i].currency == c
      ensures !Later(records[i].date, records[w].date)
    {
      if i < n {
        assert init[i] == records[i];
      }
    }
  }

  /** Below any record of `c` there is a first record of `c`. */
  lemma {:induction false} FirstOfCurrency(records: seq<PriceRecord>, c: string, j: int)
    requires 0 <= j < |records| && records[j].currency == c
    ensures exists f :: 0 <= f <= j && records[f].currency == c && !SeenBefore(records, c, f)
    decreases j
  {
    if SeenBefore(records, c, j) {
      var j' :| 0 <= j' < j && records[j'].currency == c;
      FirstOfCurrency(records, c, j');
    }
  }

  /** At most one record is chosen for a currency. */
  lemma ChosenUnique(records: seq<PriceRecord>, c: string, w1: int, w2: int)
    requires Chosen(records, c, w1) && Chosen(records, c, w2)
    ensures w1 == w2
  {
    if w1 != w2 {
      var a, b := if w1 < w2 then w1 else w2, if w1 < w2 then w2 else w1;
      // b's first clause at a, and a's second clause at b
      assert !Later(records[b].date, records[a].date);
      assert records[a].date.None? && SeenBefore(records, c, a);
      var j :| 0 <= j < a && records[j].currency == c;
      FirstOfCurrency(records, c, j);
      assert false;
    }
  }

  /** `StringOrder.Sort` of distinct names is strictly increasing. */
  function SortedCurrencies(keys: seq<string>): (r: seq<string>)
    ensures |r| == |keys|
    ensures forall x :: x in r <==> x in keys
    ensures StringOrder.Distinct(keys) ==> StringOrder.StrictlySorted(r)
  {
    var r := StringOrder.Sort(keys);
    assert |r| == |multiset(r)| == |multiset(keys)| == |keys|;
    assert forall x :: x in r <==> x in multiset(r);
    assert forall x :: x in keys <==> x in multiset(keys);
    if StringOrder.Distinct(keys) then
      StringOrder.SortDistinct(keys);
      r
    else
      r
  }

  /** Lines 30-38: the `forEach` that fills `priceMap`; `keys` lists its
      keys in insertion order, the order a JavaScript `Map` iterates in. */
  method LatestPriceMap(records: seq<PriceRecord>)
    returns (priceMap: map<string, Entry>, keys: seq<string>)
    ensures priceMap == LatestEntries(records)
    ensures StringOrder.Distinct(keys) && (forall c :: c in keys <==> c in priceMap)
  {
    priceMap := map[];
    keys := [];
    var n := 0;
    while n < |records|
      invariant 0 <= n <= |records|
      invariant priceMap == LatestEntries(records[..n])
      invariant StringOrder.Distinct(keys) && (forall c :: c in keys <==> c in priceMap)
    {
      var record := records[n];
      ghost var prev := priceMap;
      LatestEntriesPrefix(records, n);
      KeysAfterStep(keys, priceMap, record);
      if record.currency !in priceMap || Later(record.date, priceMap[record.currency].date) {
        if record.currency !in priceMap {
          keys := keys + [record.currency];
        }
        priceMap := priceMap[record.currency := Entry(record.price, record.date)];
      }
      assert priceMap == Step(prev, record);
      assert priceMap == LatestEntries(records[..n + 1]);
      n := n + 1;
    }
    assert records[..n] == records;
  }

  /** The `forEach` state after one more record is `Step` of the state before it. */
  lemma LatestEntriesPrefix(records: seq<PriceRecord>, n: int)
    requires 0 <= n < |records|
    ensures LatestEntries(records[..n + 1]) == Step(LatestEntries(records[..n]), records[n])
  {
    assert records[..n + 1][..n] == records[..n];
  }

  /** Appending a currency to the key list exactly when it is new keeps the
      list duplicate-free and in step with the map's keys. */
  lemma KeysAfterStep(keys: seq<string>, m: map<string, Entry>, r: PriceRecord)
    requires StringOrder.Distinct(keys) && (forall c :: c in keys <==> c in m)
    ensures var keys' := if r.currency in m then keys else keys + [r.currency];
      StringOrder.Distinct(keys') && (forall c :: c in keys' <==> c in Step(m, r))
  {
    if r.currency !in m {
      StringOrder.DistinctAppend(keys, r.currency);
    }
  }

  /** Lines 41-44: the second `forEach`, keeping only the prices. */
  method PricesOnly(priceMap: map<string, Entry>, keys: seq<string>)
    returns (result: map<string, real>)
    requires forall c :: c in keys <==> c in priceMap
    ensures result.Keys == priceMap.Keys
    ensures forall c :: c in result ==> result[c] == priceMap[c].price
  {
    result := map[];
    var k := 0;
    while k < |keys|
      invariant 0 <= k <= |keys|
      invariant forall c :: c in result <==> c in keys[..k]
      invariant forall c :: c in result ==> result[c] == priceMap[c].price
    {
      result := result[keys[k] := priceMap[keys[k]].price];
      k := k + 1;
    }
    assert keys[..k] == keys;
  }

  /** `usePrices` lines 27-52: `currencyPrices`, a `Map` from currency to
      price whose keys in insertion order are `keys`, and `currencies`. Each
      currency of the data is a key once, with the price of its chosen
      record; absent or empty data gives an empty map and an empty list. */
  method CurrencyPrices(prices: Option<seq<PriceRecord>>)
    returns (currencyPrices: map<string, real>, keys: seq<string>, currencies: seq<string>)
    ensures prices.None? ==> currencyPrices == map[] && currencies == []
    ensures prices.Some? ==> currencyPrices.Keys == CurrenciesIn(prices.value)
    ensures prices.Some? ==> forall c :: c in currencyPrices ==>
      exists w :: Chosen(prices.value, c, w) && currencyPrices[c] == prices.value[w].price
    ensures prices.Some? && prices.value == [] ==> currencyPrices == map[] && currencies == []
    ensures StringOrder.Distinct(keys) && (forall c :: c in keys <==> c in currencyPrices)
    ensures currencies == SortedCurrencies(keys)
    ensures StringOrder.StrictlySorted(currencies)
    ensures forall c :: c in currencies <==> c in currencyPrices
  {
    if prices.None? {
      return map[], [], [];
    }
    var records := prices.value;
    var priceMap;
    priceMap, keys := LatestPriceMap(records);
    currencyPrices := PricesOnly(priceMap, keys);
    forall c | c in currencyPrices
      ensures exists w :: Chosen(records, c, w) && currencyPrices[c] == records[w].price
    {
      LatestEntriesChosen(records, c);
    }
    assert records == [] ==> |keys| == 0 by {
      assert keys != [] ==> keys[0] in priceMap;
    }
    currencies := SortedCurrencies(keys);
  }
}
