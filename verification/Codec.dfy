/** An order as the text fields of its hash, and parsed back.
    (crates/shared/src/cache.rs) */
module Codec {
  import opened Types
  import opened Text
  import opened FixedPoint

  /** The part of an order that the cache keeps, amounts as decimals, time in milliseconds. */
  datatype Cached = Cached(
    id: string,
    pair: string,
    side: Side,
    orderType: OrderType,
    tif: TimeInForce,
    price: Option<real>,
    quantity: real,
    remaining: real,
    status: OrderStatus,
    stp: StpMode,
    user: string,
    createdMs: int,
    version: int)

  function SideText(side: Side): string { if side.Buy? then "B" else "S" }

  function TypeText(t: OrderType): string { if t.Limit? then "L" else "M" }

  function TifText(tif: TimeInForce): string {
    match tif case GTC => "G" case IOC => "I" case FOK => "F"
  }

  /** Cancelled and Rejected share a text. */
  function StatusText(status: OrderStatus): string {
    match status
    case New => "N"
    case PartiallyFilled => "PF"
    case Filled => "F"
    case Cancelled => "C"
    case Rejected => "C"
  }

  function StpText(stp: StpMode): string {
    match stp
    case StpNone => "N"
    case CancelMaker => "CM"
    case CancelTaker => "CT"
    case CancelBoth => "CB"
  }

  function SideOf(s: string): Option<Side> {
    if s == "B" then Some(Buy) else if s == "S" then Some(Sell) else None
  }

  function TypeOf(s: string): Option<OrderType> {
    if s == "L" then Some(Limit) else if s == "M" then Some(Market) else None
  }

  function TifOf(s: string): Option<TimeInForce> {
    if s == "G" then Some(GTC) else if s == "I" then Some(IOC) else if s == "F" then Some(FOK) else None
  }

  /** Unknown texts read as New. */
  function StatusOf(s: string): OrderStatus {
    if s == "PF" then PartiallyFilled else if s == "F" then Filled else if s == "C" then Cancelled else New
  }

  /** Unknown texts read as no self-trade prevention. */
  function StpOf(s: string): StpMode {
    if s == "CM" then CancelMaker else if s == "CT" then CancelTaker else if s == "CB" then CancelBoth else StpNone
  }

  function PriceScaled(price: Option<real>): int { if price.Some? then ToI64(price.value) else 0 }

  /** The hash as HMGET returns it: each field, if it is there. */
  datatype Hash = Hash(
    id: Option<string>,
    pair: Option<string>,
    side: Option<string>,
    orderType: Option<string>,
    tif: Option<string>,
    price: Option<string>,
    quantity: Option<string>,
    remaining: Option<string>,
    status: Option<string>,
    stp: Option<string>,
    user: Option<string>,
    ms: Option<string>,
    version: Option<string>)

  /** HSET order:{id} ... */
  function Fields(o: Cached): Hash {
    Hash(Some(o.id), Some(o.pair), Some(SideText(o.side)), Some(TypeText(o.orderType)), Some(TifText(o.tif)),
         Some(Print(PriceScaled(o.price))), Some(Print(ToI64(o.quantity))), Some(Print(ToI64(o.remaining))),
         Some(StatusText(o.status)), Some(StpText(o.stp)), Some(o.user), Some(Print(o.createdMs)),
         Some(Print(o.version)))
  }

  /** A time before the epoch with a fraction of a second, or one beyond what the calendar can
      represent, reads as the present. */
  function TimeRead(ms: int, now: int, firstSecond: int, lastSecond: int): int {
    if (ms < 0 && ms % 1000 != 0) || ms / 1000 > lastSecond || ms / 1000 < firstSecond then now else ms
  }

  function PriceRead(orderType: OrderType, scaled: int): Option<real> {
    if orderType.Market? || scaled == 0 then None else Some(ToDecimal(scaled))
  }

  function NumberOr(field: Option<string>, default: string): Option<int> {
    ParseI64(if field.Some? then field.value else default)
  }

  /** `isUuid` says which texts are ids.  None if the hash is missing, or a required field is missing
      or malformed.  A missing price is zero, and a missing or malformed version is one. */
  function Parse(h: Hash, isUuid: string -> bool, now: int, firstSecond: int, lastSecond: int): Option<Cached> {
    if h.id.None? || h.id.value == [] || !isUuid(h.id.value) then None
    else if h.pair.None? || h.side.None? || h.orderType.None? || h.tif.None? || h.quantity.None? || h.remaining.None?
            || h.status.None? || h.stp.None? || h.user.None? || h.ms.None? then None
    else
      var side, orderType, tif := SideOf(h.side.value), TypeOf(h.orderType.value), TifOf(h.tif.value);
      var price, version := NumberOr(h.price, "0"), NumberOr(h.version, "1");
      var quantity, remaining, ms := ParseI64(h.quantity.value), ParseI64(h.remaining.value), ParseI64(h.ms.value);
      if side.None? || orderType.None? || tif.None? || price.None? || quantity.None? || remaining.None? || ms.None?
      then None
      else
        Some(Cached(h.id.value, h.pair.value, side.value, orderType.value, tif.value,
                    PriceRead(orderType.value, price.value),
                    ToDecimal(quantity.value), ToDecimal(remaining.value),
                    StatusOf(h.status.value), StpOf(h.stp.value), h.user.value,
                    TimeRead(ms.value, now, firstSecond, lastSecond), if version.Some? then version.value else 1))
  }

  /** What comes back when an order is stored and parsed. */
  function Restored(o: Cached, now: int, firstSecond: int, lastSecond: int): Cached {
    o.(price := PriceRead(o.orderType, PriceScaled(o.price)),
       quantity := ToDecimal(ToI64(o.quantity)),
       remaining := ToDecimal(ToI64(o.remaining)),
       status := if o.status.Rejected? then Cancelled else o.status,
       createdMs := TimeRead(o.createdMs, now, firstSecond, lastSecond))
  }

  lemma TextsRoundTrip(o: Cached)
    ensures SideOf(SideText(o.side)) == Some(o.side) && TypeOf(TypeText(o.orderType)) == Some(o.orderType)
    ensures TifOf(TifText(o.tif)) == Some(o.tif) && StpOf(StpText(o.stp)) == o.stp
    ensures StatusOf(StatusText(o.status)) == if o.status.Rejected? then Cancelled else o.status
  {
  }

  lemma NumbersRoundTrip(o: Cached)
    requires InI64(o.createdMs) && InI64(o.version)
    ensures ParseI64(Print(PriceScaled(o.price))) == Some(PriceScaled(o.price))
    ensures ParseI64(Print(ToI64(o.quantity))) == Some(ToI64(o.quantity))
    ensures ParseI64(Print(ToI64(o.remaining))) == Some(ToI64(o.remaining))
    ensures ParseI64(Print(o.createdMs)) == Some(o.createdMs)
    ensures ParseI64(Print(o.version)) == Some(o.version)
  {
    PrintParses(PriceScaled(o.price));
    PrintParses(ToI64(o.quantity));
    PrintParses(ToI64(o.remaining));
    PrintParses(o.createdMs);
    PrintParses(o.version);
  }

  /** Every order parses back, as far as its amounts, price, status and time can be kept. */
  lemma ParsesBack(o: Cached, isUuid: string -> bool, now: int, firstSecond: int, lastSecond: int)
    requires o.id != [] && isUuid(o.id) && InI64(o.createdMs) && InI64(o.version)
    ensures Parse(Fields(o), isUuid, now, firstSecond, lastSecond) == Some(Restored(o, now, firstSecond, lastSecond))
  {
    TextsRoundTrip(o);
    NumbersRoundTrip(o);
  }

  /** A price that is kept: none, or one on the grid other than zero, on a limit order. */
  ghost predicate PriceKept(o: Cached) {
    o.price.Some? ==> o.orderType.Limit? && OnGrid(o.price.value) && o.price.value != 0.0
  }

  lemma PriceRoundTrip(o: Cached)
    ensures PriceRead(o.orderType, PriceScaled(o.price)) == o.price <==> PriceKept(o)
  {
    if o.price.Some? {
      var p := o.price.value;
      DecimalRoundTrip(p);
      assert ToDecimal(0) == 0.0;
      assert ToI64(0.0) == 0;
    }
  }

  /** Storing and parsing gives the order back exactly if its amounts are on the grid, its price is
      kept, it was not rejected, and its time is a whole number of seconds if before 1970, and one that
      the calendar represents; or happens to be the present. */
  lemma HashRoundTrip(o: Cached, isUuid: string -> bool, now: int, firstSecond: int, lastSecond: int)
    requires o.id != [] && isUuid(o.id) && InI64(o.createdMs) && InI64(o.version)
    ensures Parse(Fields(o), isUuid, now, firstSecond, lastSecond) == Some(o) <==>
      && OnGrid(o.quantity) && OnGrid(o.remaining) && PriceKept(o) && !o.status.Rejected?
      && (o.createdMs == now ||
            ((o.createdMs >= 0 || o.createdMs % 1000 == 0) && firstSecond <= o.createdMs / 1000 <= lastSecond))
  {
    ParsesBack(o, isUuid, now, firstSecond, lastSecond);
    PriceRoundTrip(o);
    DecimalRoundTrip(o.quantity);
    DecimalRoundTrip(o.remaining);
  }

  lemma MissingPrice(o: Cached, isUuid: string -> bool, now: int, firstSecond: int, lastSecond: int)
    requires o.id != [] && isUuid(o.id) && InI64(o.createdMs) && InI64(o.version)
    ensures Parse(Fields(o).(price := None), isUuid, now, firstSecond, lastSecond)
         == Some(Restored(o, now, firstSecond, lastSecond).(price := None))
  {
    TextsRoundTrip(o);
    NumbersRoundTrip(o);
    PrintParses(0);
    assert Print(0) == "0";
  }

  lemma MissingVersion(o: Cached, isUuid: string -> bool, now: int, firstSecond: int, lastSecond: int)
    requires o.id != [] && isUuid(o.id) && InI64(o.createdMs) && InI64(o.version)
    ensures Parse(Fields(o).(version := None), isUuid, now, firstSecond, lastSecond)
         == Some(Restored(o, now, firstSecond, lastSecond).(version := 1))
  {
    TextsRoundTrip(o);
    NumbersRoundTrip(o);
    PrintParses(1);
    assert Print(1) == "1";
  }

  /** A required field is missing. */
  predicate Lacking(h: Hash) {
    || h.id.None? || h.pair.None? || h.side.None? || h.orderType.None? || h.tif.None? || h.quantity.None?
    || h.remaining.None? || h.status.None? || h.stp.None? || h.user.None? || h.ms.None?
  }

  /** A missing price is none, a missing version is one; without any other field there is no order. */
  lemma MissingFields(o: Cached, h: Hash, isUuid: string -> bool, now: int, firstSecond: int, lastSecond: int)
    requires o.id != [] && isUuid(o.id) && InI64(o.createdMs) && InI64(o.version)
    ensures var back := Restored(o, now, firstSecond, lastSecond);
      && Parse(Fields(o).(price := None), isUuid, now, firstSecond, lastSecond) == Some(back.(price := None))
      && Parse(Fields(o).(version := None), isUuid, now, firstSecond, lastSecond) == Some(back.(version := 1))
    ensures Lacking(h) ==> Parse(h, isUuid, now, firstSecond, lastSecond) == None
  {
    MissingPrice(o, isUuid, now, firstSecond, lastSecond);
    MissingVersion(o, isUuid, now, firstSecond, lastSecond);
  }

  /** Unknown statuses read as New, unknown modes as none; an unknown side, type or time in force is no
      order. */
  lemma UnknownTexts(h: Hash, isUuid: string -> bool, now: int, firstSecond: int, lastSecond: int)
    requires Parse(h, isUuid, now, firstSecond, lastSecond).Some?
    ensures var o := Parse(h, isUuid, now, firstSecond, lastSecond).value;
      && (h.status.value != "PF" && h.status.value != "F" && h.status.value != "C" ==> o.status == New)
      && (h.stp.value != "CM" && h.stp.value != "CT" && h.stp.value != "CB" ==> o.stp == StpNone)
      && (h.side.value == "B" || h.side.value == "S") && (h.orderType.value == "L" || h.orderType.value == "M")
      && (h.tif.value == "G" || h.tif.value == "I" || h.tif.value == "F")
  {
  }

  /** The matching script reads the same hashes.  The texts that it compares with say there what they say
      here: closed orders are "F" or "C", market orders "M", buyers "B", the modes "N", "CM", "CT" and
      "CB", and "I" and "G" the times in force that it treats specially. */
  lemma ScriptReadsAlike(o: Cached)
    ensures StatusText(o.status) == "F" || StatusText(o.status) == "C" <==>
      o.status.Filled? || o.status.Cancelled? || o.status.Rejected?
    ensures (StatusText(o.status) == "PF" <==> o.status.PartiallyFilled?)
    ensures (SideText(o.side) == "B" <==> o.side.Buy?) && (TypeText(o.orderType) == "M" <==> o.orderType.Market?)
    ensures (TifText(o.tif) == "I" <==> o.tif.IOC?) && (TifText(o.tif) == "G" <==> o.tif.GTC?)
    ensures (StpText(o.stp) == "N" <==> o.stp.StpNone?) && (StpText(o.stp) == "CM" <==> o.stp.CancelMaker?)
    ensures (StpText(o.stp) == "CT" <==> o.stp.CancelTaker?) && (StpText(o.stp) == "CB" <==> o.stp.CancelBoth?)
  {
  }
}
