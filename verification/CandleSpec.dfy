/**
 OHLCV aggregation as functions: the incremental update with its equal-price shortcut, and the
 batch definition it has to agree with. Prices and quantities are real numbers.
 */
module CandleSpec {
  import opened Arithmetic

  datatype InstrumentId = UnknownInstrument | BtcUsdt | EthUsdt | SolUsdt

  datatype Exchange = UnknownExchange | Binance | Bybit | Okx

  datatype Trade = Trade(
    exchange: Exchange,
    instrument: string,
    tradeId: nat,
    price: real,
    qty: real,
    eventTs: nat,
    tradeTs: nat,
    recvTs: nat)

  datatype Candle = Candle(
    instrumentId: InstrumentId,
    exchange: Exchange,
    intervalMs: nat,
    windowStartMs: nat,
    windowEndMs: nat,
    open: real,
    high: real,
    low: real,
    close: real,
    baseVolume: real,
    quoteVolume: real)

  function ToInstrumentId(instrument: string): (id: InstrumentId)
    ensures id == BtcUsdt <==> instrument == "BTCUSDT"
    ensures id == EthUsdt <==> instrument == "ETHUSDT"
    ensures id == SolUsdt <==> instrument == "SOLUSDT"
  {
    if instrument == "BTCUSDT" then BtcUsdt
    else if instrument == "ETHUSDT" then EthUsdt
    else if instrument == "SOLUSDT" then SolUsdt
    else UnknownInstrument
  }

  function Max(a: real, b: real): real {
    if a < b then b else a
  }

  function Min(a: real, b: real): real {
    if b < a then b else a
  }

  function Qty(t: Trade): real {
    t.qty
  }

  function Times(a: real, b: real): real {
    a * b
  }

  function Notional(t: Trade): real {
    Times(t.price, t.qty)
  }

  // ----- The incremental form -----

  function FirstCandle(intervalMs: nat, t: Trade): Candle
    requires intervalMs > 0
  {
    Candle(ToInstrumentId(t.instrument), t.exchange, intervalMs, t.eventTs - t.eventTs % intervalMs, 0,
           t.price, t.price, t.price, t.price, Qty(t), Notional(t))
  }

  /** High, low and close are left alone when the price equals the last close. */
  function Updated(c: Candle, t: Trade): Candle {
    var moved :=
      if c.close != t.price
      then c.(high := Max(c.high, t.price), low := Min(c.low, t.price), close := t.price)
      else c;
    moved.(baseVolume := c.baseVolume + Qty(t), quoteVolume := c.quoteVolume + Notional(t))
  }

  /** The update without the shortcut. */
  function PlainlyUpdated(c: Candle, t: Trade): Candle {
    c.(high := Max(c.high, t.price), low := Min(c.low, t.price), close := t.price,
       baseVolume := c.baseVolume + Qty(t), quoteVolume := c.quoteVolume + Notional(t))
  }

  /** The shortcut changes nothing exactly when an equal last close lies between low and high. */
  lemma ShortcutIsSoundExactlyWhen(c: Candle, t: Trade)
    ensures Updated(c, t) == PlainlyUpdated(c, t) <==> (c.close == t.price ==> c.low <= c.close <= c.high)
  {
    if c.close == t.price && !(c.low <= c.close <= c.high) {
      assert Updated(c, t).high != PlainlyUpdated(c, t).high || Updated(c, t).low != PlainlyUpdated(c, t).low;
    }
  }

  /** What an update does, for any candle: each field in terms of the old candle's and the trade's own. */
  lemma UpdatedFields(c: Candle, t: Trade)
    ensures var u := Updated(c, t);
            && u == c.(high := u.high, low := u.low, close := t.price,
                       baseVolume := c.baseVolume + t.qty, quoteVolume := c.quoteVolume + t.price * t.qty)
            && (c.close == t.price ==> u.high == c.high && u.low == c.low)
            && (c.close != t.price ==> u.high >= c.high && u.high >= t.price && (u.high == c.high || u.high == t.price))
            && (c.close != t.price ==> u.low <= c.low && u.low <= t.price && (u.low == c.low || u.low == t.price))
  {
  }

  function Folded(intervalMs: nat, ts: seq<Trade>): Candle
    requires intervalMs > 0 && ts != []
  {
    if |ts| == 1 then FirstCandle(intervalMs, ts[0])
    else Updated(Folded(intervalMs, ts[..|ts| - 1]), ts[|ts| - 1])
  }

  // ----- The batch definition -----

  function HighestPrice(ts: seq<Trade>): (h: real)
    requires ts != []
    ensures forall t :: t in ts ==> t.price <= h
    ensures exists t :: t in ts && t.price == h
  {
    if |ts| == 1 then ts[0].price
    else
      var front, last := ts[..|ts| - 1], ts[|ts| - 1];
      assert ts == front + [last];
      assert last in ts;
      Max(HighestPrice(front), last.price)
  }

  function LowestPrice(ts: seq<Trade>): (l: real)
    requires ts != []
    ensures forall t :: t in ts ==> l <= t.price
    ensures exists t :: t in ts && t.price == l
  {
    if |ts| == 1 then ts[0].price
    else
      var front, last := ts[..|ts| - 1], ts[|ts| - 1];
      assert ts == front + [last];
      assert last in ts;
      Min(LowestPrice(front), last.price)
  }

  function Total(ts: seq<Trade>, amount: Trade -> real): real {
    if ts == [] then 0.0 else Total(ts[..|ts| - 1], amount) + amount(ts[|ts| - 1])
  }

  /** First price, highest, lowest, last price, total quantity, total price times quantity. */
  function Batch(intervalMs: nat, ts: seq<Trade>): Candle
    requires intervalMs > 0 && ts != []
  {
    var first := ts[0];
    Candle(ToInstrumentId(first.instrument), first.exchange, intervalMs, first.eventTs - first.eventTs % intervalMs, 0,
           first.price, HighestPrice(ts), LowestPrice(ts), ts[|ts| - 1].price, Total(ts, Qty), Total(ts, Notional))
  }

  lemma TotalOfOne(ts: seq<Trade>, amount: Trade -> real)
    requires |ts| == 1
    ensures Total(ts, amount) == amount(ts[0])
  {
    assert Total(ts[..0], amount) == 0.0;
  }

  /** Taking the trades one at a time, shortcut and all, gives the batch result. */
  lemma {:induction false} FoldedIsBatch(intervalMs: nat, ts: seq<Trade>)
    requires intervalMs > 0 && ts != []
    ensures Folded(intervalMs, ts) == Batch(intervalMs, ts)
  {
    if |ts| == 1 {
      TotalOfOne(ts, Qty);
      TotalOfOne(ts, Notional);
    } else {
      var front, last := ts[..|ts| - 1], ts[|ts| - 1];
      FoldedIsBatch(intervalMs, front);
      assert front[|front| - 1] in front;
      ShortcutIsSoundExactlyWhen(Batch(intervalMs, front), last);
    }
  }

  /** Every field but the volumes, in terms of the trades alone. */
  lemma BatchFields(intervalMs: nat, ts: seq<Trade>)
    requires intervalMs > 0 && ts != []
    ensures var c := Batch(intervalMs, ts);
            && c.open == ts[0].price && c.close == ts[|ts| - 1].price
            && (forall t :: t in ts ==> c.low <= t.price <= c.high)
            && (exists t :: t in ts && t.price == c.high) && (exists t :: t in ts && t.price == c.low)
            && (c.instrumentId == BtcUsdt <==> ts[0].instrument == "BTCUSDT")
            && (c.instrumentId == EthUsdt <==> ts[0].instrument == "ETHUSDT")
            && (c.instrumentId == SolUsdt <==> ts[0].instrument == "SOLUSDT")
            && c.exchange == ts[0].exchange && c.intervalMs == intervalMs && c.windowEndMs == 0
    ensures var w := Batch(intervalMs, ts).windowStartMs;
            w % intervalMs == 0 && w <= ts[0].eventTs < w + intervalMs
  {
    WindowStart(ts[0].eventTs, intervalMs);
  }

  lemma WindowStart(eventTs: nat, intervalMs: nat)
    requires intervalMs > 0
    ensures (eventTs - eventTs % intervalMs) % intervalMs == 0 && eventTs % intervalMs < intervalMs
  {
    var q := eventTs / intervalMs;
    DivMod(eventTs, intervalMs);
    ModUnique(eventTs - eventTs % intervalMs, intervalMs, q, 0);
  }

  lemma {:induction false} TotalConcat(ts: seq<Trade>, us: seq<Trade>, amount: Trade -> real)
    ensures Total(ts + us, amount) == Total(ts, amount) + Total(us, amount)
  {
    if us == [] {
      assert ts + us == ts;
    } else {
      var front := us[..|us| - 1];
      TotalConcat(ts, front, amount);
      assert (ts + us)[..|ts + us| - 1] == ts + front;
    }
  }

  lemma BatchVolumes(intervalMs: nat, ts: seq<Trade>)
    requires intervalMs > 0 && ts != []
    ensures Batch(intervalMs, ts).baseVolume == Total(ts, Qty)
    ensures Batch(intervalMs, ts).quoteVolume == Total(ts, Notional)
  {
  }

  /** Volumes add up over any split of the trades. */
  lemma VolumesAddUp(intervalMs: nat, ts: seq<Trade>, us: seq<Trade>)
    requires intervalMs > 0 && ts != [] && us != []
    ensures var c, d, both := Batch(intervalMs, ts), Batch(intervalMs, us), Batch(intervalMs, ts + us);
            both.baseVolume == c.baseVolume + d.baseVolume && both.quoteVolume == c.quoteVolume + d.quoteVolume
  {
    BatchVolumes(intervalMs, ts);
    BatchVolumes(intervalMs, us);
    BatchVolumes(intervalMs, ts + us);
    TotalConcat(ts, us, Qty);
    TotalConcat(ts, us, Notional);
  }

  /** One trade has its quantity as base volume and its price times quantity as quote volume. */
  lemma VolumesOfOne(intervalMs: nat, t: Trade)
    requires intervalMs > 0
    ensures Batch(intervalMs, [t]).baseVolume == t.qty && Batch(intervalMs, [t]).quoteVolume == t.price * t.qty
  {
    TotalOfOne([t], Qty);
    TotalOfOne([t], Notional);
  }

  // ----- Streams of several instruments -----

  function TradesOf(ts: seq<Trade>, instrument: string): seq<Trade> {
    if ts == [] then []
    else
      var front, last := TradesOf(ts[..|ts| - 1], instrument), ts[|ts| - 1];
      if last.instrument == instrument then front + [last] else front
  }

  /** One candle per traded instrument, each the batch result over that instrument's own trades. */
  ghost predicate CandlesAre(candles: map<string, Candle>, intervalMs: nat, ts: seq<Trade>)
    requires intervalMs > 0
  {
    forall i :: CandleIs(candles, intervalMs, ts, i)
  }

  ghost predicate CandleIs(candles: map<string, Candle>, intervalMs: nat, ts: seq<Trade>, i: string)
    requires intervalMs > 0
  {
    && (i in candles <==> TradesOf(ts, i) != [])
    && (i in candles ==> candles[i] == Batch(intervalMs, TradesOf(ts, i)))
  }

  /** What handling one trade does to the map of candles. */
  function Handled(intervalMs: nat, candles: map<string, Candle>, t: Trade): map<string, Candle>
    requires intervalMs > 0
  {
    if t.instrument in candles then candles[t.instrument := Updated(candles[t.instrument], t)]
    else candles[t.instrument := FirstCandle(intervalMs, t)]
  }

  lemma TradesOfSnoc(ts: seq<Trade>, t: Trade, instrument: string)
    ensures TradesOf(ts + [t], instrument) ==
            if t.instrument == instrument then TradesOf(ts, instrument) + [t] else TradesOf(ts, instrument)
  {
    assert (ts + [t])[..|ts|] == ts;
  }

  /** An instrument's trades: of a single trade, of a stream in two parts, and whose they are. */
  lemma {:induction false} TradesOfConcat(a: seq<Trade>, b: seq<Trade>, t: Trade, instrument: string)
    ensures TradesOf([t], instrument) == if t.instrument == instrument then [t] else []
    ensures TradesOf(a + b, instrument) == TradesOf(a, instrument) + TradesOf(b, instrument)
    ensures forall x :: x in TradesOf(b, instrument) <==> x in b && x.instrument == instrument
  {
    assert [t][..0] == [];
    if b == [] {
      assert a + b == a;
    } else {
      var front, last := b[..|b| - 1], b[|b| - 1];
      TradesOfConcat(a, front, t, instrument);
      assert (a + b)[..|a + b| - 1] == a + front;
      assert b == front + [last];
    }
  }

  lemma WhoseTrades(ts: seq<Trade>, instrument: string)
    ensures TradesOf(ts, instrument) != [] <==> exists t :: t in ts && t.instrument == instrument
  {
    var any := Trade(UnknownExchange, instrument, 0, 0.0, 0.0, 0, 0, 0);
    TradesOfConcat([], ts, any, instrument);
    if TradesOf(ts, instrument) != [] {
      assert TradesOf(ts, instrument)[0] in TradesOf(ts, instrument);
    }
  }

  lemma BatchSnoc(intervalMs: nat, ts: seq<Trade>, t: Trade)
    requires intervalMs > 0
    ensures Batch(intervalMs, ts + [t]) ==
            if ts == [] then FirstCandle(intervalMs, t) else Updated(Batch(intervalMs, ts), t)
  {
    FoldedIsBatch(intervalMs, ts + [t]);
    if ts != [] {
      FoldedIsBatch(intervalMs, ts);
      assert (ts + [t])[..|ts|] == ts;
    }
  }

  /** Handling one more trade turns the candles of a stream into those of the longer stream. */
  lemma HandledIsBatch(candles: map<string, Candle>, intervalMs: nat, ts: seq<Trade>, t: Trade)
    requires intervalMs > 0 && CandlesAre(candles, intervalMs, ts)
    ensures CandlesAre(Handled(intervalMs, candles, t), intervalMs, ts + [t])
  {
    forall i ensures CandleIs(Handled(intervalMs, candles, t), intervalMs, ts + [t], i) {
      assert CandleIs(candles, intervalMs, ts, i);
      TradesOfSnoc(ts, t, i);
      if i == t.instrument {
        BatchSnoc(intervalMs, TradesOf(ts, i), t);
      }
    }
  }

  /** Only the order within each instrument matters: equal subsequences give equal candles. */
  lemma InterleavingIsIrrelevant(x: map<string, Candle>, y: map<string, Candle>, intervalMs: nat,
                                 a: seq<Trade>, b: seq<Trade>)
    requires intervalMs > 0 && CandlesAre(x, intervalMs, a) && CandlesAre(y, intervalMs, b)
    ensures forall i :: TradesOf(a, i) == TradesOf(b, i) ==> (i in x <==> i in y) && (i in x ==> x[i] == y[i])
    ensures (forall i :: TradesOf(a, i) == TradesOf(b, i)) ==> x == y
  {
    forall i | TradesOf(a, i) == TradesOf(b, i)
      ensures i in x <==> i in y
      ensures i in x ==> x[i] == y[i]
    {
      assert CandleIs(x, intervalMs, a, i) && CandleIs(y, intervalMs, b, i);
    }
    if forall i :: TradesOf(a, i) == TradesOf(b, i) {
      assert forall i :: i in x <==> i in y by {
        forall i ensures i in x <==> i in y {
          assert TradesOf(a, i) == TradesOf(b, i);
        }
      }
    }
  }

  // ----- Volume-weighted price and order within one instrument -----

  lemma WeightedAbove(low: real, base: real, quote: real, price: real, qty: real)
    requires Times(low, base) <= quote && low <= price && qty >= 0.0
    ensures Times(low, base + qty) <= quote + Times(price, qty)
  {
    assert low * qty <= price * qty;
    assert low * (base + qty) == low * base + low * qty;
  }

  lemma WeightedBelow(high: real, base: real, quote: real, price: real, qty: real)
    requires quote <= Times(high, base) && price <= high && qty >= 0.0
    ensures quote + Times(price, qty) <= Times(high, base + qty)
  {
    assert price * qty <= high * qty;
    assert high * (base + qty) == high * base + high * qty;
  }

  lemma {:induction false} QuoteAbove(ts: seq<Trade>, low: real)
    requires forall t :: t in ts ==> t.qty >= 0.0 && low <= t.price
    ensures Total(ts, Qty) >= 0.0 && Times(low, Total(ts, Qty)) <= Total(ts, Notional)
  {
    if ts == [] {
    } else {
      var front, last := ts[..|ts| - 1], ts[|ts| - 1];
      assert last in ts;
      QuoteAbove(front, low);
      WeightedAbove(low, Total(front, Qty), Total(front, Notional), last.price, last.qty);
    }
  }

  lemma {:induction false} QuoteBelow(ts: seq<Trade>, high: real)
    requires forall t :: t in ts ==> t.qty >= 0.0 && t.price <= high
    ensures Total(ts, Notional) <= Times(high, Total(ts, Qty))
  {
    if ts == [] {
    } else {
      var front, last := ts[..|ts| - 1], ts[|ts| - 1];
      assert last in ts;
      QuoteBelow(front, high);
      WeightedBelow(high, Total(front, Qty), Total(front, Notional), last.price, last.qty);
    }
  }

  /** Whatever the quantities, open and close lie between low and high. */
  lemma OpenAndCloseInRange(intervalMs: nat, ts: seq<Trade>)
    requires intervalMs > 0 && ts != []
    ensures var c := Batch(intervalMs, ts); c.low <= c.open <= c.high && c.low <= c.close <= c.high
  {
    assert ts[0] in ts && ts[|ts| - 1] in ts;
  }

  /** The volume-weighted average price lies between low and high. */
  predicate AverageInRange(c: Candle) {
    Times(c.low, c.baseVolume) <= c.quoteVolume <= Times(c.high, c.baseVolume)
  }

  /** Non-negative quantities keep the average price of every candle in range. */
  lemma AveragePriceInRange(intervalMs: nat, ts: seq<Trade>)
    requires intervalMs > 0 && ts != [] && forall t :: t in ts ==> t.qty >= 0.0
    ensures Batch(intervalMs, ts).baseVolume >= 0.0 && AverageInRange(Batch(intervalMs, ts))
  {
    NumbersInRange(Batch(intervalMs, ts), ts);
  }

  lemma NumbersInRange(c: Candle, ts: seq<Trade>)
    requires ts != [] && forall t :: t in ts ==> t.qty >= 0.0
    requires c.low == LowestPrice(ts) && c.high == HighestPrice(ts)
    requires c.baseVolume == Total(ts, Qty) && c.quoteVolume == Total(ts, Notional)
    ensures c.baseVolume >= 0.0 && AverageInRange(c)
  {
    QuoteAbove(ts, LowestPrice(ts));
    QuoteBelow(ts, HighestPrice(ts));
    SameNumbers(c, LowestPrice(ts), HighestPrice(ts), Total(ts, Qty), Total(ts, Notional));
  }

  lemma SameNumbers(c: Candle, low: real, high: real, base: real, quote: real)
    requires c.low == low && c.high == high && c.baseVolume == base && c.quoteVolume == quote
    requires Times(low, base) <= quote <= Times(high, base)
    ensures AverageInRange(c)
  {
  }

  predicate HasQuantities(ts: seq<Trade>, qs: seq<real>) {
    |ts| == |qs| && forall i :: 0 <= i < |qs| ==> ts[i].qty == qs[i]
  }

  lemma {:induction false} OneTradeAtTwo(ts: seq<Trade>, k: nat)
    requires forall i :: 0 <= i < |ts| ==> ts[i].price == if i == k then 2.0 else 1.0
    ensures Total(ts, Notional) == Total(ts, Qty) + if k < |ts| then ts[k].qty else 0.0
  {
    if ts == [] {
    } else {
      OneTradeAtTwo(ts[..|ts| - 1], k);
    }
  }

  /** Trades with the given quantities whose average is out of range: the negative one is dear, all others are cheap. */
  lemma NegativeQuantityLeavesRange(intervalMs: nat, qs: seq<real>, k: nat) returns (ts: seq<Trade>)
    requires intervalMs > 0 && |qs| >= 2 && k < |qs| && qs[k] < 0.0
    ensures HasQuantities(ts, qs) && !AverageInRange(Batch(intervalMs, ts))
  {
    ts := seq(|qs|, i requires 0 <= i < |qs| =>
      Trade(Binance, "BTCUSDT", 0, if i == k then 2.0 else 1.0, qs[i], 0, 0, 0));
    OneTradeAtTwo(ts, k);
    var other := if k == 0 then 1 else 0;
    assert ts[other] in ts && ts[other].price == 1.0;
    assert LowestPrice(ts) == 1.0;
  }

  lemma OneTradeInRange(intervalMs: nat, ts: seq<Trade>)
    requires intervalMs > 0 && |ts| == 1
    ensures AverageInRange(Batch(intervalMs, ts))
  {
    TotalOfOne(ts, Qty);
    TotalOfOne(ts, Notional);
  }

  /** Quantities keep the average in range at all prices exactly when they are non-negative or there is only one. */
  lemma AverageInRangeExactlyWhen(intervalMs: nat, qs: seq<real>)
    requires intervalMs > 0 && qs != []
    ensures (forall ts: seq<Trade> :: HasQuantities(ts, qs) ==> AverageInRange(Batch(intervalMs, ts))) <==>
            |qs| == 1 || forall i :: 0 <= i < |qs| ==> qs[i] >= 0.0
  {
    if |qs| == 1 || forall i :: 0 <= i < |qs| ==> qs[i] >= 0.0 {
      forall ts: seq<Trade> | HasQuantities(ts, qs) ensures AverageInRange(Batch(intervalMs, ts)) {
        if |qs| == 1 {
          OneTradeInRange(intervalMs, ts);
        } else {
          AveragePriceInRange(intervalMs, ts);
        }
      }
    } else {
      var k: nat :| k < |qs| && qs[k] < 0.0;
      var ts := NegativeQuantityLeavesRange(intervalMs, qs, k);
    }
  }

  lemma {:induction false} TotalWithout(ts: seq<Trade>, k: nat, amount: Trade -> real)
    requires k < |ts|
    ensures Total(ts, amount) == Total(ts[..k] + ts[k + 1..], amount) + amount(ts[k])
  {
    var rest := ts[..k] + ts[k + 1..];
    if k == |ts| - 1 {
      assert rest == ts[..k];
    } else {
      var front := ts[..|ts| - 1];
      TotalWithout(front, k, amount);
      assert rest[..|rest| - 1] == front[..k] + front[k + 1..];
    }
  }

  lemma RemoveOne(b: seq<Trade>, x: Trade) returns (k: nat)
    requires x in multiset(b)
    ensures k < |b| && b[k] == x
    ensures multiset(b[..k] + b[k + 1..]) == multiset(b) - multiset{x}
  {
    k :| 0 <= k < |b| && b[k] == x;
    assert b == b[..k] + [x] + b[k + 1..];
  }

  lemma {:induction false} TotalOfPermutation(a: seq<Trade>, b: seq<Trade>, amount: Trade -> real)
    requires multiset(a) == multiset(b)
    ensures Total(a, amount) == Total(b, amount)
  {
    if a == [] {
      assert |multiset(b)| == 0;
    } else {
      var front, last := a[..|a| - 1], a[|a| - 1];
      assert a == front + [last];
      var k := RemoveOne(b, last);
      TotalOfPermutation(front, b[..k] + b[k + 1..], amount);
      TotalWithout(b, k, amount);
    }
  }

  /** High, low and both volumes do not depend on the order of the trades. */
  lemma OrderOnlyMattersForOpenAndClose(intervalMs: nat, a: seq<Trade>, b: seq<Trade>)
    requires intervalMs > 0 && a != [] && b != [] && multiset(a) == multiset(b)
    ensures var x, y := Batch(intervalMs, a), Batch(intervalMs, b);
            x.high == y.high && x.low == y.low && x.baseVolume == y.baseVolume && x.quoteVolume == y.quoteVolume
  {
    TotalOfPermutation(a, b, Qty);
    TotalOfPermutation(a, b, Notional);
    assert forall t :: t in a <==> t in multiset(a);
    assert forall t :: t in b <==> t in multiset(b);
  }
}
