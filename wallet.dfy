/** The wallet page of `refactored.tsx`: every balance gets the priority of
    its blockchain, balances of unknown chains or without a positive amount
    are dropped, the rest are sorted by descending priority and rendered one
    row each. */
module Wallet {
  import opened Wrappers

  /** `WalletBalance`; the amount is a JavaScript number, modelled as a real. */
  datatype WalletBalance = WalletBalance(currency: string, amount: real, blockchain: string, priority: int)

  /** What a `WalletRow` is given: its key, the amount and the USD value,
      which is `None` when there is no price for the currency (the product
      with `undefined` is NaN). */
  datatype Row = Row(key: string, amount: real, usdValue: Option<real>)

  /** `DEFAULT_PRIORITY`. */
  const DefaultPriority: int := -99

  /** `BLOCKCHAIN_PRIORITIES`. */
  const Priorities: map<string, int> :=
    map["Osmosis" := 100, "Ethereum" := 50, "Arbitrum" := 30, "Zilliqa" := 20, "Neo" := 20]

  /** `getPriority`: the table entry of the chain, or the default. */
  function Priority(blockchain: string): (p: int)
    ensures blockchain in Priorities ==> p == Priorities[blockchain] && p >= 20
    ensures blockchain !in Priorities ==> p == DefaultPriority
    ensures p > DefaultPriority <==> blockchain in {"Osmosis", "Ethereum", "Arbitrum", "Zilliqa", "Neo"}
  {
    if blockchain in Priorities then Priorities[blockchain] else DefaultPriority
  }

  /** The balance with the priority of its chain; the spread copies the rest. */
  function WithPriority(b: WalletBalance): WalletBalance {
    b.(priority := Priority(b.blockchain))
  }

  /** The `map` of lines 53-56. */
  function MapPriorities(balances: seq<WalletBalance>): (r: seq<WalletBalance>)
    ensures |r| == |balances|
    ensures forall i :: 0 <= i < |r| ==>
      && r[i].currency == balances[i].currency
      && r[i].amount == balances[i].amount
      && r[i].blockchain == balances[i].blockchain
      && r[i].priority == Priority(balances[i].blockchain)
  {
    if balances == [] then [] else [WithPriority(balances[0])] + MapPriorities(balances[1..])
  }

  /** The predicate of the `filter` on line 58. */
  predicate Kept(b: WalletBalance) {
    b.priority > DefaultPriority && b.amount > 0.0
  }

  /** The `filter` of line 58: the kept balances, in their order. */
  function FilterKept(balances: seq<WalletBalance>): (r: seq<WalletBalance>)
    ensures forall i :: 0 <= i < |r| ==> Kept(r[i])
    ensures forall b :: multiset(r)[b] == (if Kept(b) then multiset(balances)[b] else 0)
  {
    if balances == [] then []
    else
      var rest := FilterKept(balances[1..]);
      assert balances == [balances[0]] + balances[1..];
      if Kept(balances[0]) then [balances[0]] + rest else rest
  }

  /** Non-increasing priorities. */
  predicate SortedByPriority(s: seq<WalletBalance>) {
    forall i, j :: 0 <= i < j < |s| ==> s[i].priority >= s[j].priority
  }

  /** The elements of `s` with priority `p`, in their order. */
  function WithPriorityValue(s: seq<WalletBalance>, p: int): seq<WalletBalance> {
    if s == [] then []
    else (if s[0].priority == p then [s[0]] else []) + WithPriorityValue(s[1..], p)
  }

  /** Places `b` before the first element of `s` whose priority is not
      larger, so after all those of larger priority and before the ones of
      equal priority, which come later in the input. */
  function Insert(b: WalletBalance, s: seq<WalletBalance>): (r: seq<WalletBalance>)
    ensures multiset(r) == multiset(s) + multiset{b}
  {
    if s == [] || s[0].priority <= b.priority then
      [b] + s
    else
      assert s == [s[0]] + s[1..];
      [s[0]] + Insert(b, s[1..])
  }

  /** A bound on every priority survives the insertion of a balance within it. */
  lemma {:induction false} InsertBounded(b: WalletBalance, s: seq<WalletBalance>, q: int)
    requires b.priority <= q
    requires forall k :: 0 <= k < |s| ==> s[k].priority <= q
    ensures forall k :: 0 <= k < |Insert(b, s)| ==> Insert(b, s)[k].priority <= q
  {
    if s != [] && s[0].priority > b.priority {
      InsertBounded(b, s[1..], q);
    }
  }

  /** A balance of at least every priority in a sorted sequence can head it. */
  lemma ConsSorted(x: WalletBalance, t: seq<WalletBalance>)
    requires SortedByPriority(t)
    requires forall k :: 0 <= k < |t| ==> t[k].priority <= x.priority
    ensures SortedByPriority([x] + t)
  {
  }

  /** Inserting into a sorted sequence keeps it sorted. */
  lemma {:induction false} InsertSorted(b: WalletBalance, s: seq<WalletBalance>)
    requires SortedByPriority(s)
    ensures SortedByPriority(Insert(b, s))
  {
    if s == [] || s[0].priority <= b.priority {
      ConsSorted(b, s);
    } else {
      InsertSorted(b, s[1..]);
      InsertBounded(b, s[1..], s[0].priority);
      ConsSorted(s[0], Insert(b, s[1..]));
    }
  }

  /** Inserting `b` puts it in front of the elements of equal priority and
      leaves the order among every priority's elements as it was. */
  lemma {:induction false} InsertKeepsGroups(b: WalletBalance, s: seq<WalletBalance>, p: int)
    ensures WithPriorityValue(Insert(b, s), p) ==
      (if p == b.priority then [b] + WithPriorityValue(s, p) else WithPriorityValue(s, p))
  {
    if s == [] || s[0].priority <= b.priority {
      WithPriorityCons(b, s, p);
    } else {
      InsertKeepsGroups(b, s[1..], p);
      WithPriorityCons(s[0], Insert(b, s[1..]), p);
    }
  }

  /** The group of a sequence with one more element in front. */
  lemma WithPriorityCons(x: WalletBalance, t: seq<WalletBalance>, p: int)
    ensures WithPriorityValue([x] + t, p) == (if x.priority == p then [x] else []) + WithPriorityValue(t, p)
  {
    assert ([x] + t)[1..] == t;
  }

  /** The comparator sort of line 60: a sort by descending priority. */
  function SortByPriority(s: seq<WalletBalance>): (r: seq<WalletBalance>)
    ensures SortedByPriority(r)
    ensures multiset(r) == multiset(s)
  {
    if s == [] then []
    else
      assert s == [s[0]] + s[1..];
      InsertSorted(s[0], SortByPriority(s[1..]));
      Insert(s[0], SortByPriority(s[1..]))
  }

  /** The sort is stable (`Array.prototype.sort` is since ES2019): the
      balances of each priority keep their input order. */
  lemma {:induction false} SortKeepsGroups(s: seq<WalletBalance>, p: int)
    ensures WithPriorityValue(SortByPriority(s), p) == WithPriorityValue(s, p)
  {
    if s != [] {
      var t := SortByPriority(s[1..]);
      assert SortByPriority(s) == Insert(s[0], t);
      SortKeepsGroups(s[1..], p);
      InsertKeepsGroups(s[0], t, p);
    }
  }

  /** `sortedBalances` (lines 52-60). */
  function SortedBalances(balances: seq<WalletBalance>): seq<WalletBalance> {
    SortByPriority(FilterKept(MapPriorities(balances)))
  }

  /** The row of one balance: its currency as key, its amount, and its
      USD value when the currency has a price. */
  function RowOf(b: WalletBalance, prices: map<string, real>): (row: Row)
    ensures row.key == b.currency && row.amount == b.amount
    ensures b.currency in prices <==> row.usdValue.Some?
    ensures b.currency in prices ==> row.usdValue.value == prices[b.currency] * b.amount
  {
    Row(b.currency, b.amount, if b.currency in prices then Some(prices[b.currency] * b.amount) else None)
  }

  /** The `map` of lines 63-77: one row per balance, in order. */
  function Rows(sorted: seq<WalletBalance>, prices: map<string, real>): (rows: seq<Row>)
    ensures |rows| == |sorted|
    ensures forall i :: 0 <= i < |rows| ==> rows[i] == RowOf(sorted[i], prices)
  {
    if sorted == [] then []
    else [RowOf(sorted[0], prices)] + Rows(sorted[1..], prices)
  }

  /** `rows` (lines 50-78): one row per sorted balance, in sorted order. */
  function WalletRows(balances: seq<WalletBalance>, prices: map<string, real>): (rows: seq<Row>)
    ensures |rows| == |SortedBalances(balances)|
    ensures forall i :: 0 <= i < |rows| ==> rows[i].key == SortedBalances(balances)[i].currency
  {
    Rows(SortedBalances(balances), prices)
  }

  /** What the page renders: the sorted balances are exactly the kept
      balances with their chain's priority, in descending priority, with
      balances of equal priority in their input order; every one of them
      has a known chain and a positive amount. */
  lemma {:induction false} SortedBalancesSpec(balances: seq<WalletBalance>)
    ensures var r := SortedBalances(balances);
      && SortedByPriority(r)
      && (forall i :: 0 <= i < |r| ==> r[i].priority > DefaultPriority && r[i].amount > 0.0)
      && (forall i :: 0 <= i < |r| ==> r[i].priority == Priority(r[i].blockchain))
      && (forall b :: multiset(r)[b] ==
            (if Kept(b) then multiset(MapPriorities(balances))[b] else 0))
      && (forall p :: WithPriorityValue(r, p) == WithPriorityValue(FilterKept(MapPriorities(balances)), p))
  {
    forall p {
      SortKeepsGroups(FilterKept(MapPriorities(balances)), p);
    }
    var r := SortedBalances(balances);
    forall i | 0 <= i < |r|
      ensures r[i].priority > DefaultPriority && r[i].amount > 0.0
      ensures r[i].priority == Priority(r[i].blockchain)
    {
      SortedElement(balances, r[i]);
    }
  }

  /** Every sorted balance is a kept one carrying its chain's priority. */
  lemma SortedElement(balances: seq<WalletBalance>, x: WalletBalance)
    requires x in multiset(SortedBalances(balances))
    ensures Kept(x) && x.priority == Priority(x.blockchain)
  {
    var mapped := MapPriorities(balances);
    assert x in multiset(FilterKept(mapped));
    assert x in mapped;
  }
}
