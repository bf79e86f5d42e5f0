/** The order book snapshot: orders of one side aggregated by price level in the script's loop, sent
    as one flat array of texts, and decoded.  (crates/shared/src/cache.rs) */
module Snapshot {
  import opened Types
  import opened PriorityLaws
  import opened SortedBook
  import opened Books
  import opened Recovery
  import opened Text
  import opened Store

  datatype Level = Level(price: int, quantity: int)

  // ---- What the levels say -------------------------------------------------------------------------

  /** The positive remaining quantities at a price. */
  function SumAt(orders: seq<Order>, price: int): int {
    if orders == [] then 0
    else
      (if orders[0].PriceOrZero() == price && orders[0].remaining > 0 then orders[0].remaining else 0)
      + SumAt(orders[1..], price)
  }

  function QuantityAt(levels: seq<Level>, price: int): int {
    if levels == [] then 0
    else (if levels[0].price == price then levels[0].quantity else 0) + QuantityAt(levels[1..], price)
  }

  /** Prices in the order of a side: asks upwards, bids downwards. */
  predicate Better(side: Side, a: int, b: int) { if side.Buy? then a > b else a < b }

  ghost predicate StrictlyOrdered(side: Side, levels: seq<Level>) {
    forall i, j :: 0 <= i < j < |levels| ==> Better(side, levels[i].price, levels[j].price)
  }

  ghost predicate DistinctPrices(levels: seq<Level>) {
    forall i, j :: 0 <= i < j < |levels| ==> levels[i].price != levels[j].price
  }

  /** One level for each price with something on offer, holding all of it. */
  ghost predicate Aggregates(levels: seq<Level>, orders: seq<Order>) {
    && DistinctPrices(levels)
    && (forall i :: 0 <= i < |levels| ==> levels[i].quantity > 0)
    && forall p :: QuantityAt(levels, p) == SumAt(orders, p)
  }

  // ---- The loop of the script ------------------------------------------------------------------------

  function PriceIndex(levels: seq<Level>, price: int): (i: nat)
    ensures i <= |levels|
    ensures i < |levels| ==> levels[i].price == price
    ensures forall j :: 0 <= j < i ==> levels[j].price != price
  {
    if levels == [] || levels[0].price == price then 0 else 1 + PriceIndex(levels[1..], price)
  }

  /** A known level grows, a new one goes to the end. */
  function AddOrder(levels: seq<Level>, order: Order): seq<Level> {
    var i := PriceIndex(levels, order.PriceOrZero());
    if order.remaining <= 0 then levels
    else if i < |levels| then levels[i := levels[i].(quantity := levels[i].quantity + order.remaining)]
    else levels + [Level(order.PriceOrZero(), order.remaining)]
  }

  lemma {:induction false} QuantityConcat(a: seq<Level>, b: seq<Level>, p: int)
    ensures QuantityAt(a + b, p) == QuantityAt(a, p) + QuantityAt(b, p)
  {
    if a == [] {
      assert a + b == b;
    } else {
      assert (a + b)[0] == a[0] && (a + b)[1..] == a[1..] + b;
      QuantityConcat(a[1..], b, p);
    }
  }

  lemma {:induction false} SumConcat(a: seq<Order>, b: seq<Order>, p: int)
    ensures SumAt(a + b, p) == SumAt(a, p) + SumAt(b, p)
  {
    if a == [] {
      assert a + b == b;
    } else {
      assert (a + b)[0] == a[0] && (a + b)[1..] == a[1..] + b;
      SumConcat(a[1..], b, p);
    }
  }

  lemma {:induction false} QuantityGrown(levels: seq<Level>, i: nat, more: int, p: int)
    requires i < |levels|
    ensures QuantityAt(levels[i := levels[i].(quantity := levels[i].quantity + more)], p)
         == QuantityAt(levels, p) + if p == levels[i].price then more else 0
  {
    var grown := levels[i := levels[i].(quantity := levels[i].quantity + more)];
    if i > 0 {
      QuantityGrown(levels[1..], i - 1, more, p);
      assert grown[1..] == levels[1..][i - 1 := grown[i]];
    } else {
      assert grown[1..] == levels[1..];
    }
  }

  lemma AddOrderAggregates(levels: seq<Level>, orders: seq<Order>, order: Order)
    requires Aggregates(levels, orders)
    ensures Aggregates(AddOrder(levels, order), orders + [order])
  {
    var after := AddOrder(levels, order);
    var i := PriceIndex(levels, order.PriceOrZero());
    forall p ensures QuantityAt(after, p) == SumAt(orders + [order], p) {
      SumConcat(orders, [order], p);
      assert [order][1..] == [];
      assert QuantityAt(levels, p) == SumAt(orders, p);
      if order.remaining > 0 {
        if i < |levels| {
          QuantityGrown(levels, i, order.remaining, p);
        } else {
          var level := Level(order.PriceOrZero(), order.remaining);
          QuantityConcat(levels, [level], p);
          assert [level][1..] == [];
        }
      }
    }
  }

  /** Every level's price is that of an order with something left. */
  lemma {:induction false} LevelHasOrder(orders: seq<Order>, p: int)
    requires SumAt(orders, p) != 0
    ensures exists i :: 0 <= i < |orders| && orders[i].PriceOrZero() == p && orders[i].remaining > 0
  {
    if !(orders[0].PriceOrZero() == p && orders[0].remaining > 0) {
      LevelHasOrder(orders[1..], p);
      var i :| 0 <= i < |orders[1..]| && orders[1..][i].PriceOrZero() == p && orders[1..][i].remaining > 0;
      assert orders[i + 1] == orders[1..][i];
    }
  }

  /** On a sorted side the last level is that of the last price seen, so levels come out in order. */
  lemma AddOrderOrdered(side: Side, levels: seq<Level>, orders: seq<Order>, order: Order)
    requires Aggregates(levels, orders) && StrictlyOrdered(side, levels)
    requires SideSorted(side, orders + [order])
    ensures StrictlyOrdered(side, AddOrder(levels, order))
  {
    var p := order.PriceOrZero();
    if order.remaining > 0 && PriceIndex(levels, p) == |levels| {
      var after := AddOrder(levels, order);
      forall i, j | 0 <= i < j < |after| ensures Better(side, after[i].price, after[j].price) {
        if j == |levels| {
          var q := levels[i].price;
          QuantityHere(levels, i);
          assert QuantityAt(levels, q) == SumAt(orders, q);
          LevelHasOrder(orders, q);
          var k :| 0 <= k < |orders| && orders[k].PriceOrZero() == q && orders[k].remaining > 0;
          var all := orders + [order];
          assert all[k] == orders[k] && all[|orders|] == order;
          assert all[k].Score() <= all[|orders|].Score();
        }
      }
    }
  }

  lemma {:induction false} QuantityHere(levels: seq<Level>, i: nat)
    requires i < |levels| && forall j :: 0 <= j < |levels| ==> levels[j].quantity > 0
    ensures QuantityAt(levels, levels[i].price) > 0
    decreases levels
  {
    QuantityNonNegative(levels[1..], levels[i].price);
    if i > 0 {
      QuantityHere(levels[1..], i - 1);
    }
  }

  lemma {:induction false} QuantityNonNegative(levels: seq<Level>, p: int)
    requires forall j :: 0 <= j < |levels| ==> levels[j].quantity > 0
    ensures QuantityAt(levels, p) >= 0
  {
    if levels != [] {
      QuantityNonNegative(levels[1..], p);
    }
  }

  function Take(ids: seq<OrderId>, limit: nat): seq<OrderId> {
    if |ids| <= limit then ids else ids[..limit]
  }

  /** The orders that a snapshot of a side looks at: the first `limit` of its set. */
  function Shown(st: Store, side: Side, limit: nat): seq<Order> {
    Load(st.hashes, Take(Range(st.Of(side), None), limit))
  }

  /** On a cache that represents valid books, these are the best `limit` orders of the side. */
  lemma ShownAreBest(st: Store, b: Books, side: Side, limit: nat)
    requires Represents(st, b) && ValidBooks(b)
    ensures Shown(st, side, limit) == b.Of(side)[..Min(limit, |b.Of(side)|)]
    ensures SideSorted(side, Shown(st, side, limit))
  {
    var book := b.Of(side);
    var n := Min(limit, |book|);
    NearAll(book);
    IdsInRange(side, book, None);
    assert book[..|book|] == book;
    IdListPrefix(book, n);
    assert Take(Range(st.Of(side), None), limit) == IdList(book[..n]);
    HashedAt(side, book, st.hashes);
    LoadsListed(st.hashes, book[..n]);
    ValidFacts(side, book);
    assert forall i :: 0 <= i < n ==> book[..n][i] == book[i];
  }

  lemma {:induction false} NearAll(book: seq<Order>)
    ensures Near(book, None) == |book|
  {
    if book != [] {
      NearAll(book[1..]);
    }
  }

  lemma {:induction false} LoadOneMore(hashes: Hashes, ids: seq<OrderId>, n: nat)
    requires n < |ids|
    ensures Load(hashes, ids[..n + 1]) == Load(hashes, ids[..n]) + if ids[n] in hashes then [hashes[ids[n]]] else []
  {
    if n == 0 {
      assert ids[..1] == [ids[0]] && [ids[0]][1..] == [];
    } else {
      assert ids[..n + 1][0] == ids[0] && ids[..n + 1][1..] == ids[1..][..n];
      assert ids[..n][0] == ids[0] && ids[..n][1..] == ids[1..][..n - 1];
      LoadOneMore(hashes, ids[1..], n - 1);
    }
  }

  /** The table of the script: quantities by price, and the prices in order of appearance. */
  ghost predicate Tables(levels: map<int, int>, order: seq<int>, list: seq<Level>) {
    && |order| == |list|
    && (forall i :: 0 <= i < |list| ==>
          order[i] == list[i].price && order[i] in levels && levels[order[i]] == list[i].quantity)
    && (forall p :: p in levels <==> p in order)
  }

  /** One more order in the table. */
  lemma TablesFollow(levels: map<int, int>, order: seq<int>, list: seq<Level>, o: Order)
    requires Tables(levels, order, list) && DistinctPrices(list)
    ensures var p := o.PriceOrZero();
      if o.remaining <= 0 then AddOrder(list, o) == list
      else if p in levels then Tables(levels[p := levels[p] + o.remaining], order, AddOrder(list, o))
      else Tables(levels[p := o.remaining], order + [p], AddOrder(list, o))
  {
    var p := o.PriceOrZero();
    KnownPrice(levels, order, list, p);
    if o.remaining > 0 {
      if p in levels {
        LevelGrows(levels, order, list, p, o.remaining);
      } else {
        LevelAppears(levels, order, list, p, o.remaining);
      }
    }
  }

  lemma KnownPrice(levels: map<int, int>, order: seq<int>, list: seq<Level>, p: int)
    requires Tables(levels, order, list)
    ensures p in levels <==> PriceIndex(list, p) < |list|
  {
    var i := PriceIndex(list, p);
    assert i < |list| ==> order[i] in levels;
  }

  lemma LevelGrows(levels: map<int, int>, order: seq<int>, list: seq<Level>, p: int, q: int)
    requires Tables(levels, order, list) && DistinctPrices(list) && p in levels && PriceIndex(list, p) < |list|
    ensures var i := PriceIndex(list, p);
      Tables(levels[p := levels[p] + q], order, list[i := list[i].(quantity := list[i].quantity + q)])
  {
    var i := PriceIndex(list, p);
    forall j | 0 <= j < |list| && j != i ensures list[j].price != p {
      assert j < i || list[i].price != list[j].price;
    }
  }

  lemma LevelAppears(levels: map<int, int>, order: seq<int>, list: seq<Level>, p: int, q: int)
    requires Tables(levels, order, list) && p !in levels
    ensures Tables(levels[p := q], order + [p], list + [Level(p, q)])
  {
  }

  lemma StepAggregates(side: Side, list: seq<Level>, before: seq<Order>, o: Order)
    requires Aggregates(list, before)
    requires SideSorted(side, before) ==> StrictlyOrdered(side, list)
    ensures Aggregates(AddOrder(list, o), before + [o])
    ensures SideSorted(side, before + [o]) ==> StrictlyOrdered(side, AddOrder(list, o))
  {
    AddOrderAggregates(list, before, o);
    if SideSorted(side, before + [o]) {
      SortedFront(side, before, o);
      AddOrderOrdered(side, list, before, o);
    }
  }

  /** The aggregation loop.  On a sorted side the levels are strictly ordered. */
  method AggregateSide(st: Store, side: Side, limit: nat) returns (result: seq<Level>)
    ensures Aggregates(result, Shown(st, side, limit))
    ensures SideSorted(side, Shown(st, side, limit)) ==> StrictlyOrdered(side, result)
  {
    var ids := Take(Range(st.Of(side), None), limit);
    var levels: map<int, int>, levelOrder := map[], [];
    ghost var list: seq<Level> := [];
    var i := 0;
    while i < |ids|
      invariant 0 <= i <= |ids|
      invariant Tables(levels, levelOrder, list)
      invariant Aggregates(list, Load(st.hashes, ids[..i]))
      invariant SideSorted(side, Load(st.hashes, ids[..i])) ==> StrictlyOrdered(side, list)
    {
      LoadOneMore(st.hashes, ids, i);
      if ids[i] in st.hashes {
        var o := st.hashes[ids[i]];
        StepAggregates(side, list, Load(st.hashes, ids[..i]), o);
        TablesFollow(levels, levelOrder, list, o);
        if o.remaining > 0 {
          var p := o.PriceOrZero();
          if p in levels {
            levels := levels[p := levels[p] + o.remaining];
          } else {
            levels := levels[p := o.remaining];
            levelOrder := levelOrder + [p];
          }
        }
        list := AddOrder(list, o);
      } else {
        assert Load(st.hashes, ids[..i + 1]) == Load(st.hashes, ids[..i]);
      }
      i := i + 1;
    }
    assert ids[..|ids|] == ids;
    result := seq(|levelOrder|, k requires 0 <= k < |levelOrder| && levelOrder[k] in levels =>
                    Level(levelOrder[k], levels[levelOrder[k]]));
    assert result == list;
  }

  lemma SortedFront(side: Side, orders: seq<Order>, order: Order)
    requires SideSorted(side, orders + [order])
    ensures SideSorted(side, orders)
  {
    var all := orders + [order];
    assert forall i :: 0 <= i < |orders| ==> orders[i] == all[i];
  }

  /** On a sorted side the levels are determined: there is one right snapshot. */
  lemma {:induction false} OneSnapshot(side: Side, a: seq<Level>, b: seq<Level>)
    requires StrictlyOrdered(side, a) && StrictlyOrdered(side, b)
    requires forall i :: 0 <= i < |a| ==> a[i].quantity > 0
    requires forall i :: 0 <= i < |b| ==> b[i].quantity > 0
    requires forall p :: QuantityAt(a, p) == QuantityAt(b, p)
    ensures a == b
    decreases |a|
  {
    assert a != [] ==> QuantityAt(a, a[0].price) == QuantityAt(b, a[0].price);
    assert b != [] ==> QuantityAt(a, b[0].price) == QuantityAt(b, b[0].price);
    if a != [] {
      QuantityHere(a, 0);
    }
    if b != [] {
      QuantityHere(b, 0);
    }
    if a != [] && b != [] {
      SamePriceFirst(side, a, b);
      var p := a[0].price;
      BeyondAll(side, a[1..], p);
      BeyondAll(side, b[1..], p);
      forall r ensures QuantityAt(a[1..], r) == QuantityAt(b[1..], r) {
        assert QuantityAt(a, r) == QuantityAt(b, r);
      }
      OneSnapshot(side, a[1..], b[1..]);
      assert a == [a[0]] + a[1..] && b == [b[0]] + b[1..];
    }
  }

  lemma SamePriceFirst(side: Side, a: seq<Level>, b: seq<Level>)
    requires StrictlyOrdered(side, a) && StrictlyOrdered(side, b) && a != [] && b != []
    requires QuantityAt(b, a[0].price) != 0 && QuantityAt(a, b[0].price) != 0
    ensures a[0].price == b[0].price
  {
    if Better(side, a[0].price, b[0].price) {
      BeyondAll(side, b, a[0].price);
    } else if Better(side, b[0].price, a[0].price) {
      BeyondAll(side, a, b[0].price);
    }
  }

  lemma {:induction false} BeyondAll(side: Side, levels: seq<Level>, p: int)
    requires forall i :: 0 <= i < |levels| ==> Better(side, p, levels[i].price)
    ensures QuantityAt(levels, p) == 0
  {
    if levels != [] {
      assert Better(side, p, levels[0].price);
      BeyondAll(side, levels[1..], p);
    }
  }

  // ---- The wire ------------------------------------------------------------------------------------

  /** Numbers from here on are printed with an exponent. */
  const EXPONENT_FROM := 100_000_000_000_000

  /** The script's tostring of a sum: fourteen significant digits.  `mantissa` is the rounding. */
  function ToString(n: int, mantissa: int -> string): string {
    if -EXPONENT_FROM < n < EXPONENT_FROM then Print(n)
    else mantissa(n) + "e+" + Digits(|Digits(if n < 0 then -n else n)| - 1)
  }

  /** The two texts of each level. */
  function Texts(levels: seq<Level>, mantissa: int -> string): (t: seq<(string, string)>)
    ensures |t| == |levels|
  {
    seq(|levels|, i requires 0 <= i < |levels| => (Print(levels[i].price), ToString(levels[i].quantity, mantissa)))
  }

  function Flat(texts: seq<(string, string)>): seq<string> {
    if texts == [] then [] else [texts[0].0, texts[0].1] + Flat(texts[1..])
  }

  /** Both sides in one array, each after its count of texts. */
  function Message(bids: seq<Level>, asks: seq<Level>, mantissa: int -> string): seq<string> {
    [Print(2 * |bids|)] + Flat(Texts(bids, mantissa)) + [Print(2 * |asks|)] + Flat(Texts(asks, mantissa))
  }

  function Abs(i: int): int { if i < 0 then -i else i }

  /** A decoded level: what does not parse is zero, and bid prices lose their sign. */
  function ReadLevel(side: Side, price: string, quantity: string): Level {
    var p := OrZero(ParseI64(price));
    Level(if side.Buy? then Abs(p) else p, OrZero(ParseI64(quantity)))
  }

  /** The decoded levels, and the texts left over. */
  function ReadLevels(side: Side, items: seq<string>, n: nat): (seq<Level>, seq<string>) {
    if n == 0 then ([], items)
    else if |items| < 2 then ([], [])
    else
      var rest := ReadLevels(side, items[2..], n - 1);
      ([ReadLevel(side, items[0], items[1])] + rest.0, rest.1)
  }

  function ReadCount(items: seq<string>): nat {
    if items == [] then 0 else var n := OrZero(ParseI64(items[0])); if n < 0 then 0 else n
  }

  function ReadSide(side: Side, items: seq<string>): (seq<Level>, seq<string>) {
    ReadLevels(side, if items == [] then [] else items[1..], ReadCount(items) / 2)
  }

  function ReadMessage(message: seq<string>): (seq<Level>, seq<Level>) {
    var bids := ReadSide(Buy, message);
    (bids.0, ReadSide(Sell, bids.1).0)
  }

  /** Reading one more level, or running out of texts, in front of the rest. */
  lemma ReadOn(side: Side, levels: seq<Level>, rest: seq<string>, n: nat)
    ensures var now, later := ReadLevels(side, rest, n + 1), ReadLevels(side, if |rest| < 2 then [] else rest[2..], n);
      && now.1 == later.1
      && levels + now.0 == (if |rest| < 2 then levels else levels + [ReadLevel(side, rest[0], rest[1])]) + later.0
  {
  }

  method DecodeSide(side: Side, items: seq<string>) returns (levels: seq<Level>, rest: seq<string>)
    ensures (levels, rest) == ReadSide(side, items)
  {
    rest := if items == [] then [] else items[1..];
    var count := ReadCount(items) / 2;
    levels := [];
    var i := 0;
    ghost var all := ReadSide(side, items);
    while i < count
      invariant 0 <= i <= count
      invariant all.0 == levels + ReadLevels(side, rest, count - i).0
      invariant all.1 == ReadLevels(side, rest, count - i).1
    {
      ReadOn(side, levels, rest, count - i - 1);
      if |rest| >= 2 {
        levels := levels + [ReadLevel(side, rest[0], rest[1])];
        rest := rest[2..];
      } else {
        rest := [];
      }
      i := i + 1;
    }
    assert all.0 == levels && all.1 == rest;
  }

  method DecodeMessage(message: seq<string>) returns (bids: seq<Level>, asks: seq<Level>)
    ensures (bids, asks) == ReadMessage(message)
  {
    var rest, last;
    bids, rest := DecodeSide(Buy, message);
    asks, last := DecodeSide(Sell, rest);
  }

  /** A level that survives the wire: its quantity has at most fourteen digits. */
  predicate Survives(side: Side, level: Level) {
    level.quantity < 100_000_000_000_000 && (side.Buy? ==> level.price >= 0)
  }

  ghost predicate Sendable(levels: seq<Level>) {
    && 2 * |levels| <= I64_MAX
    && forall i :: 0 <= i < |levels| ==> InI64(levels[i].price) && levels[i].quantity > 0
  }

  lemma LevelRoundTrip(side: Side, level: Level, mantissa: int -> string)
    requires InI64(level.price) && level.quantity > 0
    ensures ReadLevel(side, Print(level.price), ToString(level.quantity, mantissa)) == level <==> Survives(side, level)
  {
    PrintParses(level.price);
    if level.quantity < EXPONENT_FROM {
      PrintParses(level.quantity);
    } else {
      var s := ToString(level.quantity, mantissa);
      NeverParses(s, |mantissa(level.quantity)| + 1);
    }
  }

  /** The levels that the texts read as. */
  function Reads(side: Side, texts: seq<(string, string)>): (r: seq<Level>)
    ensures |r| == |texts|
  {
    seq(|texts|, i requires 0 <= i < |texts| => ReadLevel(side, texts[i].0, texts[i].1))
  }

  lemma {:induction false} ReadAll(side: Side, texts: seq<(string, string)>, rest: seq<string>)
    ensures ReadLevels(side, Flat(texts) + rest, |texts|) == (Reads(side, texts), rest)
    decreases |texts|
  {
    var items := Flat(texts) + rest;
    if texts == [] {
      assert items == rest;
    } else {
      var tail := Flat(texts[1..]) + rest;
      ReadAll(side, texts[1..], rest);
      assert items[0] == texts[0].0 && items[1] == texts[0].1 && items[2..] == tail;
      assert Reads(side, texts) == [ReadLevel(side, texts[0].0, texts[0].1)] + Reads(side, texts[1..]);
    }
  }

  lemma TextsRead(side: Side, levels: seq<Level>, mantissa: int -> string)
    requires Sendable(levels)
    ensures Reads(side, Texts(levels, mantissa)) == levels
      <==> forall i :: 0 <= i < |levels| ==> Survives(side, levels[i])
  {
    var read := Reads(side, Texts(levels, mantissa));
    forall i | 0 <= i < |levels| ensures read[i] == levels[i] <==> Survives(side, levels[i]) {
      LevelRoundTrip(side, levels[i], mantissa);
    }
  }

  /** What does not survive: a bid's sign is lost, and a quantity of fifteen digits or more reads as zero. */
  lemma LostInTransit(side: Side, level: Level, mantissa: int -> string)
    requires Sendable([level])
    ensures ReadLevel(side, Print(level.price), ToString(level.quantity, mantissa)) ==
      Level(if side.Buy? && level.price < 0 then -level.price else level.price,
            if level.quantity < 100_000_000_000_000 then level.quantity else 0)
  {
    assert [level][0] == level;
    PrintParses(level.price);
    if level.quantity < EXPONENT_FROM {
      PrintParses(level.quantity);
    } else {
      NeverParses(ToString(level.quantity, mantissa), |mantissa(level.quantity)| + 1);
    }
  }

  /** A side cut short reads as the levels whose two texts are there. */
  lemma {:induction false} CutShort(side: Side, items: seq<string>, n: nat)
    ensures var levels := ReadLevels(side, items, n).0;
      && |levels| == Min(n, |items| / 2)
      && forall i :: 0 <= i < |levels| ==> levels[i] == ReadLevel(side, items[2 * i], items[2 * i + 1])
    decreases n
  {
    if n > 0 && |items| >= 2 {
      CutShort(side, items[2..], n - 1);
      var levels, more := ReadLevels(side, items, n).0, ReadLevels(side, items[2..], n - 1).0;
      assert forall i :: 1 <= i < |levels| ==> levels[i] == more[i - 1];
    }
  }

  lemma CountedSide(side: Side, count: string, items: seq<string>, n: nat)
    requires ParseI64(count) == Some(2 * n)
    ensures ReadSide(side, [count] + items) == ReadLevels(side, items, n)
  {
    assert ([count] + items)[1..] == items;
    assert ReadCount([count] + items) == 2 * n;
  }

  lemma ReadSideOf(side: Side, count: string, texts: seq<(string, string)>, rest: seq<string>)
    requires ParseI64(count) == Some(2 * |texts|)
    ensures ReadSide(side, [count] + (Flat(texts) + rest)) == (Reads(side, texts), rest)
  {
    CountedSide(side, count, Flat(texts) + rest, |texts|);
    ReadAll(side, texts, rest);
  }

  /** Two runs of texts, each after its count. */
  lemma ReadBoth(nBids: string, bids: seq<(string, string)>, nAsks: string, asks: seq<(string, string)>)
    requires ParseI64(nBids) == Some(2 * |bids|) && ParseI64(nAsks) == Some(2 * |asks|)
    ensures ReadMessage([nBids] + Flat(bids) + [nAsks] + Flat(asks)) == (Reads(Buy, bids), Reads(Sell, asks))
  {
    var second := [nAsks] + (Flat(asks) + []);
    assert [nBids] + Flat(bids) + [nAsks] + Flat(asks) == [nBids] + (Flat(bids) + second);
    ReadSideOf(Buy, nBids, bids, second);
    ReadSideOf(Sell, nAsks, asks, []);
  }

  /** Decoding gives back both sides in order, exactly if every level survives: no quantity of a
      level is printed with an exponent (those read as zero), and no bid price is negative. */
  lemma WireRoundTrip(bids: seq<Level>, asks: seq<Level>, mantissa: int -> string)
    requires Sendable(bids) && Sendable(asks)
    ensures ReadMessage(Message(bids, asks, mantissa)) == (bids, asks) <==>
      && (forall i :: 0 <= i < |bids| ==> Survives(Buy, bids[i]))
      && (forall i :: 0 <= i < |asks| ==> Survives(Sell, asks[i]))
  {
    TextsRead(Buy, bids, mantissa);
    TextsRead(Sell, asks, mantissa);
    PrintParses(2 * |bids|);
    PrintParses(2 * |asks|);
    ReadBoth(Print(2 * |bids|), Texts(bids, mantissa), Print(2 * |asks|), Texts(asks, mantissa));
  }
}
