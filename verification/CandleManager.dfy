/**
 The candle manager object: a map from instrument to candle, updated trade by trade.
 */
module CandleManagers {
  import opened CandleSpec

  datatype Parsed = NotATrade | Trades(trades: seq<Trade>)

  class CandleManager {
    const intervalMs: nat
    var candles: map<string, Candle>

    /** All trades handled so far. */
    ghost var history: seq<Trade>

    ghost predicate Valid()
      reads this
    {
      intervalMs > 0 && CandlesAre(candles, intervalMs, history)
    }

    constructor (intervalMs: nat)
      requires intervalMs > 0
      ensures Valid() && this.intervalMs == intervalMs && history == []
    {
      this.intervalMs := intervalMs;
      candles := map[];
      history := [];
    }

    /** At any time: exactly the traded instruments have a candle, the batch result over their own trades. */
    lemma CandleOf(instrument: string)
      requires Valid()
      ensures instrument in candles <==> exists t :: t in history && t.instrument == instrument
      ensures instrument in candles ==>
                && TradesOf(history, instrument) != []
                && candles[instrument] == Batch(intervalMs, TradesOf(history, instrument))
    {
      assert CandleIs(candles, intervalMs, history, instrument);
      WhoseTrades(history, instrument);
    }

    /** The in-place update of one candle; the equal-price shortcut is part of it. */
    method UpdateCandle(candle: Candle, trade: Trade) returns (updated: Candle)
      ensures updated == Updated(candle, trade)
      ensures candle.low <= candle.close <= candle.high ==> updated == PlainlyUpdated(candle, trade)
      ensures updated.open == candle.open && updated.close == trade.price
      ensures updated.baseVolume == candle.baseVolume + trade.qty
      ensures updated.quoteVolume == candle.quoteVolume + trade.price * trade.qty
    {
      updated := candle;
      if updated.close != trade.price {
        updated := updated.(high := Max(updated.high, trade.price));
        updated := updated.(low := Min(updated.low, trade.price));
        updated := updated.(close := trade.price);
      }
      updated := updated.(baseVolume := updated.baseVolume + trade.qty);
      updated := updated.(quoteVolume := updated.quoteVolume + trade.price * trade.qty);
      ShortcutIsSoundExactlyWhen(candle, trade);
    }

    /** The candle of an instrument's first trade. */
    method CreateCandle(trade: Trade) returns (candle: Candle)
      requires intervalMs > 0
      ensures candle == Batch(intervalMs, [trade])
      ensures candle.baseVolume == trade.qty && candle.quoteVolume == trade.price * trade.qty
      ensures candle.windowStartMs % intervalMs == 0
      ensures candle.windowStartMs <= trade.eventTs < candle.windowStartMs + intervalMs
    {
      var start := trade.eventTs - trade.eventTs % intervalMs;
      candle := Candle(ToInstrumentId(trade.instrument), trade.exchange, intervalMs, start, 0,
                       trade.price, trade.price, trade.price, trade.price, trade.qty, trade.price * trade.qty);
      FoldedIsBatch(intervalMs, [trade]);
      BatchFields(intervalMs, [trade]);
    }

    method HandleTrade(trade: Trade)
      requires Valid()
      modifies this
      ensures Valid() && history == old(history) + [trade]
      ensures candles.Keys == old(candles).Keys + {trade.instrument}
      ensures forall i :: i != trade.instrument ==>
                (i in candles <==> i in old(candles)) && (i in candles ==> candles[i] == old(candles)[i])
    {
      HandledIsBatch(candles, intervalMs, history, trade);
      if trade.instrument in candles {
        var updated := UpdateCandle(candles[trade.instrument], trade);
        candles := candles[trade.instrument := updated];
      } else {
        var created := CreateCandle(trade);
        FoldedIsBatch(intervalMs, [trade]);
        candles := candles[trade.instrument := created];
      }
      history := history + [trade];
    }

    /** A message contributes its trades in order; how trades are grouped into messages leaves no trace. */
    method HandleMessage(message: Parsed)
      requires Valid()
      modifies this
      ensures Valid()
      ensures history == old(history) + match message case NotATrade => [] case Trades(ts) => ts
    {
      match message
      case NotATrade =>
      case Trades(ts) =>
        for k := 0 to |ts|
          invariant Valid() && history == old(history) + ts[..k]
        {
          HandleTrade(ts[k]);
        }
        assert ts[..|ts|] == ts;
    }

    /** One entry per instrument, in the unspecified order of the container; `order` names the instruments. */
    method GetCandlesSnapshot() returns (snapshot: seq<Candle>, ghost order: seq<string>)
      ensures |snapshot| == |order| == |candles|
      ensures forall i, j :: 0 <= i < j < |order| ==> order[i] != order[j]
      ensures forall i :: 0 <= i < |order| ==> order[i] in candles && snapshot[i] == candles[order[i]]
      ensures forall s :: s in candles ==> s in order && candles[s] in snapshot
    {
      snapshot, order := [], [];
      var remaining := candles.Keys;
      while remaining != {}
        invariant |snapshot| == |order| && |order| + |remaining| == |candles|
        invariant remaining <= candles.Keys
        invariant forall i :: 0 <= i < |order| ==> order[i] in candles && snapshot[i] == candles[order[i]]
        invariant forall i :: 0 <= i < |order| ==> order[i] !in remaining
        invariant forall i, j :: 0 <= i < j < |order| ==> order[i] != order[j]
        invariant forall s :: s in candles && s !in remaining ==> s in order && candles[s] in snapshot
        decreases remaining
      {
        var instrument :| instrument in remaining;
        snapshot := snapshot + [candles[instrument]];
        order := order + [instrument];
        remaining := remaining - {instrument};
      }
    }
  }
}
