/** Runs of the optimistic protocol in which a partial fill is written ahead only by a worker whose swap
    is the next to succeed: they leave what submitting the committed orders one after the other
    leaves.  (crates/shared/src/cache.rs) */
module OccRuns {
  import opened Types
  import opened Engine
  import opened MatchLaws
  import opened SortedBook
  import opened Books
  import opened SolvencyRuns
  import opened Recovery
  import opened Store
  import opened Occ
  import opened OccSerial

  // ---- Runs without a lost partial fill ------------------------------------------------------------

  /** No swap has succeeded since the worker read the version. */
  predicate UpToDate(s: System, w: nat) {
    w in s.workers && s.store.version.Some? && s.workers[w].version == s.store.version
  }

  /** A step while nobody, or one worker, is writing a partial fill ahead.  A worker may begin to if its
      swap would still succeed; until then nobody else may begin to, or commit. */
  predicate Undisturbing(s: System, step: Occ.Step, writer: Option<nat>)
    requires Occ.Enabled(s, step)
  {
    match writer
    case None => Quiet(s, step) || UpToDate(s, step.w)
    case Some(w) => step.w == w || (Quiet(s, step) && (step.Swap? ==> Swapped(s, step.w).None?))
  }

  function WriterAfter(s: System, step: Occ.Step, writer: Option<nat>): Option<nat> {
    match writer
    case None => if Quiet(s, step) then None else Some(step.w)
    case Some(w) => if step == Swap(w) then None else writer
  }

  /** Every partial fill that is written ahead is committed by the next swap that succeeds. */
  ghost predicate Undisturbed(s: System, steps: seq<Occ.Step>, writer: Option<nat>)
    requires Interleaving(s, steps)
    decreases steps
  {
    if steps == [] then writer.None?
    else
      && Undisturbing(s, steps[0], writer)
      && Undisturbed(Do(s, steps[0]), steps[1..], WriterAfter(s, steps[0], writer))
  }

  /** No partial fill is written ahead at all. */
  ghost predicate QuietRun(s: System, steps: seq<Occ.Step>)
    requires Interleaving(s, steps)
    decreases steps
  {
    steps == [] || (Quiet(s, steps[0]) && QuietRun(Do(s, steps[0]), steps[1..]))
  }

  lemma {:induction false} QuietIsUndisturbed(s: System, steps: seq<Occ.Step>)
    requires Interleaving(s, steps) && QuietRun(s, steps)
    ensures Undisturbed(s, steps, None)
    decreases steps
  {
    if steps != [] {
      QuietIsUndisturbed(Do(s, steps[0]), steps[1..]);
    }
  }

  // ---- Hashes written in part ----------------------------------------------------------------------

  /** What was written ahead is in its hashes; the others are as in the books. */
  ghost predicate Partly(hashes: Hashes, b: Books, written: seq<Order>) {
    && Prepared(hashes, written)
    && forall id :: Find(written, id).None? ==>
         && (Find(b.bids, id).Some? ==> RowAt(hashes, id) == Find(b.bids, id))
         && (Find(b.asks, id).Some? ==> RowAt(hashes, id) == Find(b.asks, id))
  }

  lemma WrittenNext(hashes: Hashes, b: Books, written: seq<Order>, u: Order)
    requires Partly(hashes, b, written) && u.id !in Ids(written)
    ensures Partly(hashes[u.id := u], b, written + [u])
  {
    FindFacts(written, u.id);
    forall id
      ensures Find(written + [u], id) == Or(Find(written, id), if u.id == id then Some(u) else None)
    {
      FindConcat(written, [u], id);
      assert [u][1..] == [];
    }
  }

  lemma WrittenByOther(hashes: Hashes, b: Books, written: seq<Order>, u: Order)
    requires Partly(hashes, b, written) && u.id !in Ids(written) && u.id !in b.AllIds()
    ensures Partly(hashes[u.id := u], b, written)
  {
    FindFacts(written, u.id);
    FindFacts(b.bids, u.id);
    FindFacts(b.asks, u.id);
  }

  lemma {:induction false} DistinctAt(orders: seq<Order>, n: nat)
    requires Distinct(orders) && n < |orders|
    ensures orders[n].id !in Ids(orders[..n])
  {
    if n > 0 {
      DistinctAt(orders[1..], n - 1);
      InIds(orders[1..], orders[n]);
      assert orders[..n][1..] == orders[1..][..n - 1];
    }
  }

  // ---- The worker that is writing --------------------------------------------------------------------

  /** A worker that has matched against the books as they are. */
  ghost predicate Matched(k: Worker, b: Books) {
    && NewOrder(k.order) && k.order.id !in b.AllIds()
    && k.Result() == Match(k.order, b.Of(k.order.side.Opposite())).result
  }

  /** The worker has written ahead in part. */
  ghost predicate Midway(k: Worker, st: Store, b: Books) {
    && st.bids == Entries(b.bids) && st.asks == Entries(b.asks)
    && k.Loaded() && Matched(k, b) && k.written <= |k.Ahead()|
    && Partly(st.hashes, b, k.Ahead()[..k.written])
  }

  ghost predicate AllLoadFirst(s: System) { forall v :: v in s.workers ==> LoadsFirst(s.workers[v]) }

  /** The worker is writing ahead, and nothing has been committed since it read. */
  ghost predicate Amid(s: System, b: Books, w: nat) {
    ValidBooks(b) && UpToDate(s, w) && AllLoadFirst(s) && Midway(s.workers[w], s.store, b)
  }

  /** A worker that has loaded since the last commit. */
  lemma LoadedMatches(s: System, b: Books, w: nat)
    requires InStep(s, b) && UpToDate(s, w) && s.workers[w].Loaded()
    ensures Matched(s.workers[w], b)
  {
    var k := s.workers[w];
    assert Reads(k, s.seen) && Current(k, s.store) && Mirrors(k, s.store) && Pending(k, s);
    assert k.ids.value[..k.read] == k.ids.value;
    EntryMembers(b.bids);
    EntryMembers(b.asks);
    BoundedLoad(k.order, b.Of(k.order.side.Opposite()), s.store.hashes, Bound(k.order));
  }

  /** A worker begins with its partial fill. */
  lemma FirstOfAhead(s: System, b: Books, w: nat)
    requires InStep(s, b) && UpToDate(s, w)
    requires Occ.Enabled(s, WriteHash(w)) && !Quiet(s, WriteHash(w))
    ensures s.workers[w].written == 0
  {
    var k := s.workers[w];
    assert Reads(k, s.seen) && Current(k, s.store) && Mirrors(k, s.store) && Pending(k, s);
    AheadAt(k, s.seen, k.written);
  }

  lemma BeginsAmid(s: System, b: Books, w: nat)
    requires InStep(s, b) && UpToDate(s, w)
    requires Occ.Enabled(s, WriteHash(w)) && !Quiet(s, WriteHash(w))
    ensures Amid(s, b, w)
  {
    LoadedMatches(s, b, w);
    FirstOfAhead(s, b, w);
    assert forall v :: v in s.workers ==> Mirrors(s.workers[v], s.store);
    assert s.workers[w].Ahead()[..0] == [];
  }

  lemma AheadDistinct(k: Worker, b: Books)
    requires ValidBooks(b) && Matched(k, b)
    ensures Distinct(k.Ahead())
  {
    var side := k.order.side.Opposite();
    UpdateFacts(k.order, b.Of(side));
    MatchKeepsOrder(k.order, b.Of(side));
    UpsertsFind(k.Result().bookUpdates, RestingOf(k.Result()), 0);
  }

  lemma WriteKeepsMidway(k: Worker, st: Store, b: Books)
    requires Midway(k, st, b) && ValidBooks(b) && k.written < |k.Ahead()|
    ensures var u := k.Ahead()[k.written];
      Midway(k.(written := k.written + 1), st.(hashes := st.hashes[u.id := u]), b)
  {
    var ahead, next := k.Ahead(), k.(written := k.written + 1);
    AheadDistinct(k, b);
    DistinctAt(ahead, k.written);
    WrittenNext(st.hashes, b, ahead[..k.written], ahead[k.written]);
    assert ahead[..k.written + 1] == ahead[..k.written] + [ahead[k.written]];
    assert next.Ahead() == ahead && Matched(next, b);
  }

  lemma WriteKeepsAmid(s: System, b: Books, w: nat)
    requires Amid(s, b, w) && Occ.Enabled(s, WriteHash(w))
    ensures Amid(Do(s, WriteHash(w)), b, w)
  {
    WriteKeepsMidway(s.workers[w], s.store, b);
  }

  // ---- The other workers meanwhile ---------------------------------------------------------------------

  /** What another worker writes is its own order, in neither set: not what this one writes. */
  lemma OtherAhead(s: System, b: Books, w: nat, v: nat)
    requires Safe(s) && Amid(s, b, w) && v != w && Occ.Enabled(s, WriteHash(v)) && Quiet(s, WriteHash(v))
    ensures var u := s.workers[v].Ahead()[s.workers[v].written];
      u.id !in Ids(s.workers[w].Ahead()) && u.id !in b.AllIds()
  {
    var k, other := s.workers[w], s.workers[v];
    var u := other.Ahead()[other.written];
    var side := k.order.side.Opposite();
    assert Apart(other, k) && Reads(other, s.seen) && Pending(k, s);
    AheadAt(other, s.seen, other.written);
    EntryMembers(b.bids);
    EntryMembers(b.asks);
    UpdateFacts(k.order, b.Of(side));
    MatchKeepsOrder(k.order, b.Of(side));
    FindFacts(k.Ahead(), u.id);
    FindFacts(k.Result().bookUpdates, u.id);
    UpsertsFind(k.Result().bookUpdates, RestingOf(k.Result()), u.id);
  }

  lemma {:induction false} IdsPrefix(orders: seq<Order>, n: nat)
    requires n <= |orders|
    ensures Ids(orders[..n]) <= Ids(orders)
  {
    IdsConcat(orders[..n], orders[n..]);
    assert orders[..n] + orders[n..] == orders;
  }

  lemma OtherWriteKeepsAmid(s: System, b: Books, w: nat, v: nat)
    requires Amid(s, b, w) && v != w && Occ.Enabled(s, WriteHash(v))
    requires var u := s.workers[v].Ahead()[s.workers[v].written];
      u.id !in Ids(s.workers[w].Ahead()) && u.id !in b.AllIds()
    ensures Amid(Do(s, WriteHash(v)), b, w)
  {
    var k, other := s.workers[w], s.workers[v];
    IdsPrefix(k.Ahead(), k.written);
    WrittenByOther(s.store.hashes, b, k.Ahead()[..k.written], other.Ahead()[other.written]);
  }

  /** A worker that has not written yet may read, or start. */
  lemma ReadKeepsAmid(s: System, b: Books, w: nat, step: Occ.Step)
    requires Amid(s, b, w) && Occ.Enabled(s, step) && step.w != w && !step.WriteHash?
    requires step.Swap? ==> Swapped(s, step.w).None?
    ensures Amid(Do(s, step), b, w)
  {
  }

  lemma OtherKeepsAmid(s: System, b: Books, w: nat, step: Occ.Step)
    requires Safe(s) && Amid(s, b, w) && Occ.Enabled(s, step) && step.w != w
    requires Quiet(s, step) && (step.Swap? ==> Swapped(s, step.w).None?)
    ensures Amid(Do(s, step), b, w)
  {
    if step.WriteHash? {
      OtherAhead(s, b, w, step.w);
      OtherWriteKeepsAmid(s, b, w, step.w);
    } else {
      ReadKeepsAmid(s, b, w, step);
    }
  }

  // ---- The commit ----------------------------------------------------------------------------------------

  lemma AmidCommits(s: System, b: Books, w: nat)
    requires Amid(s, b, w) && Occ.Enabled(s, Swap(w))
    ensures Swapped(s, w).Some? && Represents(Swapped(s, w).value, Submit(b, s.workers[w].order))
    ensures ValidBooks(Submit(b, s.workers[w].order))
    ensures Swapped(s, w).value.version == Some(s.store.version.value + 1)
  {
    var k := s.workers[w];
    assert k.Ahead()[..k.written] == k.Ahead();
    CommitRepresents(s.store, b, k.order);
    SubmitKeepsValid(b, k.order);
  }

  lemma CommitInStep(s: System, b: Books, w: nat)
    requires Safe(s) && Amid(s, b, w) && Occ.Enabled(s, Swap(w))
    ensures Swapped(s, w).Some? && InStep(Do(s, Swap(w)), Submit(b, s.workers[w].order))
  {
    var s' := Do(s, Swap(w));
    SwapKeepsSafe(s, w);
    AmidCommits(s, b, w);
    assert s'.store == Swapped(s, w).value && s'.workers == s.workers - {w};
    AllOutdated(s, s');
  }

  // ---- Runs ----------------------------------------------------------------------------------------------

  /** In step, or amid the writes of the one that is writing. */
  ghost predicate Following(s: System, b: Books, writer: Option<nat>) {
    Safe(s) && if writer.Some? then Amid(s, b, writer.value) else InStep(s, b)
  }

  lemma AmidFollows(s: System, b0: Books, step: Occ.Step, w: nat)
    requires Safe(s) && Amid(s, Serial(b0, s.log), w)
    requires Occ.Enabled(s, step) && Undisturbing(s, step, Some(w))
    ensures var s', b' := Do(s, step), Serial(b0, Do(s, step).log);
      if step == Swap(w) then InStep(s', b') else Amid(s', b', w)
  {
    var b, s' := Serial(b0, s.log), Do(s, step);
    if step == Swap(w) {
      CommitInStep(s, b, w);
      assert s'.log[..|s'.log| - 1] == s.log;
    } else if step.w == w {
      assert step == WriteHash(w);
      WriteKeepsAmid(s, b, w);
    } else {
      OtherKeepsAmid(s, b, w, step);
    }
  }

  lemma InStepFollows(s: System, b0: Books, step: Occ.Step)
    requires InStep(s, Serial(b0, s.log))
    requires Occ.Enabled(s, step) && Undisturbing(s, step, None)
    ensures var s', b' := Do(s, step), Serial(b0, Do(s, step).log);
      if Quiet(s, step) then InStep(s', b') else Amid(s', b', step.w)
  {
    var b, s' := Serial(b0, s.log), Do(s, step);
    if !Quiet(s, step) {
      BeginsAmid(s, b, step.w);
      WriteKeepsAmid(s, b, step.w);
    } else if step.Swap? {
      SwapKeepsInStep(s, b, step.w);
      assert Swapped(s, step.w).Some? ==> s'.log[..|s'.log| - 1] == s.log;
    } else {
      StepKeepsInStep(s, b, step);
    }
  }

  lemma {:induction false} RunFollows(s: System, b0: Books, steps: seq<Occ.Step>, writer: Option<nat>)
    requires Following(s, Serial(b0, s.log), writer)
    requires Interleaving(s, steps) && Undisturbed(s, steps, writer)
    ensures InStep(DoAll(s, steps), Serial(b0, DoAll(s, steps).log))
    decreases steps
  {
    if steps != [] {
      StepKeepsSafe(s, steps[0]);
      if writer.Some? {
        AmidFollows(s, b0, steps[0], writer.value);
      } else {
        InStepFollows(s, b0, steps[0]);
      }
      RunFollows(Do(s, steps[0]), b0, steps[1..], WriterAfter(s, steps[0], writer));
    }
  }

  /** Serialisability.  If every partial fill that is written ahead is committed by the next swap that
      succeeds, then after any interleaving the store represents the books that submitting the
      committed orders one by one, in commit order, leaves. */
  lemma Serialisable(s0: System, b0: Books, steps: seq<Occ.Step>)
    requires Start(s0) && Represents(s0.store, b0) && ValidBooks(b0)
    requires Interleaving(s0, steps) && Undisturbed(s0, steps, None)
    ensures var s := DoAll(s0, steps);
      Represents(s.store, Serial(b0, s.log)) && ValidBooks(Serial(b0, s.log))
  {
    RunFollows(s0, b0, steps, None);
  }

  // ---- A partial fill that is committed --------------------------------------------------------------------

  /** From the state that TakerLoads reaches: the taker writes its partial fill ahead, and swaps. */
  lemma PartialFillCommits(s: System)
    requires s == Initial().(workers := map[0 := TakerLoaded()], seen := map[1 := Side.Sell, 2 := Side.Buy])
    ensures Interleaving(s, [WriteHash(0), Swap(0)])
    ensures Undisturbed(s, [WriteHash(0), Swap(0)], None) && !QuietRun(s, [WriteHash(0), Swap(0)])
    ensures |DoAll(s, [WriteHash(0), Swap(0)]).log| == 1
  {
    var k, s1 := TakerLoaded(), Do(s, WriteHash(0));
    TakerFillsPart(k);
    TakerFillsPart(k.(written := 1));
    assert [EntryOf(MAKER)][1..] == [] && 1 in Members([EntryOf(MAKER)]);
    assert !Quiet(s, WriteHash(0)) && UpToDate(s, 0);
    var s2 := Do(s1, Swap(0));
    assert [WriteHash(0), Swap(0)][1..] == [Swap(0)] && [Swap(0)][1..] == [];
    assert Interleaving(s2, []) && Undisturbed(s2, [], None);
    assert Interleaving(s1, [Swap(0)]) && Undisturbed(s1, [Swap(0)], Some(0));
  }
}
