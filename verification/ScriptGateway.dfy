/** What the gateway makes of the matching script's result: a taker that self-trade prevention stops
    short comes back with nothing remaining, and its lock is never released.
    (crates/gateway/src/worker.rs, crates/shared/src/lua/match_order.lua) */
module ScriptGateway {
  import opened Types
  import opened Engine
  import opened Books
  import opened Ledger
  import Store
  import S = MatchScript

  /** The order as the gateway persists it. */
  function Persisted(order: Order, r: S.Returned): Order {
    order.(remaining := r.remaining, status := r.status)
  }

  /** The release goes by the remaining quantity that the script returns: it moves what the engine's result
      would release, except for a taker stopped short, for which it moves nothing. */
  lemma ReleaseByScript(st: Store.Store, b: Books, order: Order, t: Table)
    requires Store.Represents(st, b) && ValidBooks(b) && NewOrder(order) && order.id !in b.AllIds()
    requires !order.tif.FOK? && (order.orderType.Market? ==> order.tif.IOC?)
    requires S.NoneInherited(order, b.Of(order.side.Opposite()))
    requires S.Visits(order, b.Of(order.side.Opposite())) <= 50
    ensures var book, r := b.Of(order.side.Opposite()), S.Run(st, order).1;
      var engine := Match(order, book).result.incoming;
      if S.StoppedShort(order, book) then
        && Release(t, Persisted(order, r)) == t
        && Releases(engine) && engine.remaining > 0
        && Release(t, engine) == Unlock(t, LockKey(order), LockedFor(order, engine.remaining))
      else Persisted(order, r) == engine
  {
    var book := b.Of(order.side.Opposite());
    S.ScriptRefinesSubmit(st, b, order);
    S.StoppedIsCancelled(order, book);
    var engine := Match(order, book).result.incoming;
    assert engine == order.(remaining := engine.remaining, status := engine.status) by {
      S.TakerKept(order, book);
    }
  }
}
