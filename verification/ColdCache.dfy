/** The cold start on the cache: the selected rows saved into empty sets and hashes, against the book
    that is live.  (crates/shared/src/cache.rs) */
module ColdCache {
  import opened Types
  import opened SortedBook
  import opened Books
  import opened Ledger
  import opened SolvencyRuns
  import opened Recovery
  import opened RecoveryRuns
  import opened Store

  function SeedStore(st: Store, selected: seq<Order>): Store
    decreases selected
  {
    if selected == [] then st else SeedStore(Save(st, selected[0]), selected[1..])
  }

  /** The loop of the cold start. */
  method SeedOrderbook(cache: Cache, selected: seq<Order>)
    modifies cache
    ensures cache.Now() == SeedStore(old(cache.Now()), selected)
  {
    ghost var before := cache.Now();
    var i := 0;
    assert selected[0..] == selected;
    while i < |selected|
      invariant 0 <= i <= |selected|
      invariant SeedStore(cache.Now(), selected[i..]) == SeedStore(before, selected)
    {
      assert selected[i..][0] == selected[i] && selected[i..][1..] == selected[i + 1..];
      cache.SaveOrderToBook(selected[i]);
      i := i + 1;
    }
  }

  /** A hash of a row put into a side that it is new to. */
  lemma SavedHash(side: Side, own: seq<Order>, hashes: Hashes, row: Order)
    requires ValidSide(side, own) && Hashed(hashes, own)
    ensures Hashed(hashes[row.id := row], SortedBook.Upsert(own, row))
  {
    forall id ensures Find(SortedBook.Upsert(own, row), id).Some? ==>
      RowAt(hashes[row.id := row], id) == Find(SortedBook.Upsert(own, row), id)
    {
      FindUpserted(side, own, row, id);
    }
  }

  lemma OtherHash(other: seq<Order>, hashes: Hashes, row: Order)
    requires Hashed(hashes, other) && row.id !in Ids(other)
    ensures Hashed(hashes[row.id := row], other)
  {
    FindFacts(other, row.id);
  }

  /** Saving an order that is new to the books. */
  lemma SaveRepresents(st: Store, b: Books, row: Order)
    requires Represents(st, b) && ValidSide(Buy, b.bids) && ValidSide(Sell, b.asks)
    requires row.id !in b.AllIds()
    ensures Represents(Save(st, row), b.With(row.side, SortedBook.Upsert(b.Of(row.side), row)))
  {
    EntriesUpserted(b.Of(row.side), row);
    SavedHash(row.side, b.Of(row.side), st.hashes, row);
    OtherHash(b.Of(row.side.Opposite()), st.hashes, row);
  }

  /** A row that may rest is put into a valid side. */
  lemma SaveKeepsSides(b: Books, row: Order)
    requires ValidSide(Buy, b.bids) && ValidSide(Sell, b.asks)
    requires MayRest(row.side, row) && row.id !in b.AllIds()
    ensures var after := b.With(row.side, SortedBook.Upsert(b.Of(row.side), row));
      && ValidSide(Buy, after.bids) && ValidSide(Sell, after.asks)
      && after.AllIds() == b.AllIds() + {row.id}
  {
    UpsertFacts(row.side, b.Of(row.side), row);
  }

  lemma {:induction false} SeedRepresents(st: Store, b: Books, selected: seq<Order>)
    requires Represents(st, b) && ValidSide(Buy, b.bids) && ValidSide(Sell, b.asks)
    requires AllRest(selected) && Distinct(selected) && Ids(selected) !! b.AllIds()
    ensures Represents(SeedStore(st, selected), Seed(b, selected))
    decreases selected
  {
    if selected != [] {
      var row, more := selected[0], selected[1..];
      assert MayRest(row.side, row) && AllRest(more);
      SaveRepresents(st, b, row);
      SaveKeepsSides(b, row);
      SeedRepresents(Save(st, row), b.With(row.side, SortedBook.Upsert(b.Of(row.side), row)), more);
    }
  }

  /** A set and its hashes represent one side only. */
  lemma {:induction false} OneSide(hashes: Hashes, a: seq<Order>, b: seq<Order>)
    requires Entries(a) == Entries(b)
    requires forall i :: 0 <= i < |a| ==> RowAt(hashes, a[i].id) == Some(a[i])
    requires forall i :: 0 <= i < |b| ==> RowAt(hashes, b[i].id) == Some(b[i])
    ensures a == b
  {
    if a != [] {
      assert Entries(a)[0] == EntryOf(a[0]) && Entries(a)[1..] == Entries(a[1..]);
      assert Entries(b)[0] == EntryOf(b[0]) && Entries(b)[1..] == Entries(b[1..]);
      assert RowAt(hashes, a[0].id) == Some(a[0]) && RowAt(hashes, b[0].id) == Some(b[0]);
      assert forall i :: 0 <= i < |a[1..]| ==> a[1..][i] == a[i + 1];
      assert forall i :: 0 <= i < |b[1..]| ==> b[1..][i] == b[i + 1];
      OneSide(hashes, a[1..], b[1..]);
      assert a == [a[0]] + a[1..] && b == [b[0]] + b[1..];
    }
  }

  lemma RepresentsOne(st: Store, a: Books, b: Books)
    requires Represents(st, a) && ValidSide(Buy, a.bids) && ValidSide(Sell, a.asks)
    requires Represents(st, b) && ValidSide(Buy, b.bids) && ValidSide(Sell, b.asks)
    ensures a == b
  {
    HashedAt(Buy, a.bids, st.hashes);
    HashedAt(Sell, a.asks, st.hashes);
    HashedAt(Buy, b.bids, st.hashes);
    HashedAt(Sell, b.asks, st.hashes);
    OneSide(st.hashes, a.bids, b.bids);
    OneSide(st.hashes, a.asks, b.asks);
  }

  /** After any run in causal order with nothing pending, seeding empty sets gives a cache that represents
      the live book, if and only if no stopped order has an open row. */
  lemma ColdStartOfCache(t0: Table, steps: seq<SolvencyRuns.Step>, selected: seq<Order>, empty: Store)
    requires empty.bids == [] && empty.asks == []
    requires InOrder(Fresh(t0), steps)
    requires var s := TakeAll(Fresh(t0), steps); s.pending == [] && Selected(s.rows, selected)
    ensures var s := TakeAll(Fresh(t0), steps);
      Represents(SeedStore(empty, selected), s.books) <==> s.stopped == []
  {
    var s, seeded := TakeAll(Fresh(t0), steps), Seed(Books([], []), selected);
    RunKeepsTracked(Fresh(t0), steps);
    SelectedRest(s, selected);
    SeedRepresents(empty, Books([], []), selected);
    SeedFinds(Books([], []), selected, Buy, 0);
    SeedRebuilds(s, selected);
    if Represents(SeedStore(empty, selected), s.books) {
      RepresentsOne(SeedStore(empty, selected), seeded, s.books);
    }
  }
}
