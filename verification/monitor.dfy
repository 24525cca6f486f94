/**
 One monitoring run (check_price.php): read the active settings, scrape the
 price, read the previous close, record the price, then fire the large-drop,
 buy and sell signals, sending one notification per fired signal and logging
 each attempt. The network, the clock and the notifier are parameters: the
 scraped pages, the clock reading and what each notifier call returns.
 */
module Monitor {

  import opened Wrappers
  import opened Scraper
  import opened Store

  /** A fall from the previous close of at least this many yen is a large drop. */
  const DropThreshold: real := 1500.0

  /** The error recorded when the notifier returns false. */
  const DeliveryFailedMessage: string := "Slack送信に失敗しました"

  /** The command-line flag that turns a run into a price-recording-only run. */
  const NoSignalFlag: string := "--no-signal"

  /** A fired signal, with the arguments the notifier receives for it. */
  datatype Signal =
    | LargeDropSignal(current: real, previousClose: real, dropAmount: real)
    | BuySignal(current: real, buyPrice: real, basePrice: real)
    | SellSignal(current: real, sellPrice: real, basePrice: real)
  {
    function Kind(): SignalKind
    {
      match this
      case LargeDropSignal(_, _, _) => LargeDrop
      case BuySignal(_, _, _) => Buy
      case SellSignal(_, _, _) => Sell
    }

    /** The price recorded as the trigger: the previous close, the buy price or the sell price. */
    function TriggerPrice(): real
    {
      match this
      case LargeDropSignal(_, prev, _) => prev
      case BuySignal(_, buy, _) => buy
      case SellSignal(_, sell, _) => sell
    }
  }

  /** What a notifier call did: returned a boolean, or raised an exception with a message. */
  datatype SendOutcome = Returned(ok: bool) | Raised(message: string)

  /** The result of a run: the database afterwards, and whether `main` returned true. */
  datatype RunResult = RunResult(db: Db, succeeded: bool)

  /** PHP's truthiness of a number: anything but zero. */
  predicate Truthy(x: real)
  {
    x != 0.0
  }

  /**
   The day's change rate against the previous close, `(close - prev) / prev`,
   computed only when a previous close exists and is positive.
   */
  function ChangeRate(close: real, prev: Option<real>): (r: Option<real>)
    ensures r.Some? <==> prev.Some? && prev.value > 0.0
    ensures r.Some? ==> r.value * prev.value == close - prev.value
  {
    if prev.Some? && Truthy(prev.value) && prev.value > 0.0 then Some((close - prev.value) / prev.value)
    else None
  }

  /** The large-drop rule: a non-zero previous close at least 1500 above the price. */
  function DropSignals(close: real, prev: Option<real>): (r: seq<Signal>)
    ensures |r| <= 1
  {
    if prev.Some? && Truthy(prev.value) && prev.value - close >= DropThreshold
    then [LargeDropSignal(close, prev.value, prev.value - close)] else []
  }

  /** The buy rule: a price below the buy price, unless signals are skipped. */
  function BuySignals(settings: Settings, close: real, skipSignal: bool): (r: seq<Signal>)
    ensures |r| <= 1
  {
    if !skipSignal && close < settings.buyPrice
    then [BuySignal(close, settings.buyPrice, settings.basePrice)] else []
  }

  /** The sell rule: a price above the sell price, unless signals are skipped. */
  function SellSignals(settings: Settings, close: real, skipSignal: bool): (r: seq<Signal>)
    ensures |r| <= 1
  {
    if !skipSignal && close > settings.sellPrice
    then [SellSignal(close, settings.sellPrice, settings.basePrice)] else []
  }

  /**
   The signals a run fires, in the order they are evaluated: large drop,
   then buy, then sell. The large-drop rule is checked even in
   price-recording-only runs; buy and sell are checked independently of each
   other, and only when signals are not skipped.
   */
  function Signals(settings: Settings, close: real, prev: Option<real>, skipSignal: bool): (r: seq<Signal>)
    ensures |r| <= 3
    ensures forall i :: 0 <= i < |r| ==> r[i].current == close
  {
    DropSignals(close, prev) + BuySignals(settings, close, skipSignal) + SellSignals(settings, close, skipSignal)
  }

  predicate Fires(signals: seq<Signal>, kind: SignalKind)
  {
    exists i :: 0 <= i < |signals| && signals[i].Kind() == kind
  }

  lemma FiresAppend(a: seq<Signal>, b: seq<Signal>, kind: SignalKind)
    ensures Fires(a + b, kind) <==> Fires(a, kind) || Fires(b, kind)
  {
    if Fires(a + b, kind) {
      var i :| 0 <= i < |a + b| && (a + b)[i].Kind() == kind;
      if i >= |a| {
        assert b[i - |a|] == (a + b)[i];
      }
    }
    if Fires(b, kind) {
      var i :| 0 <= i < |b| && b[i].Kind() == kind;
      assert (a + b)[|a| + i] == b[i];
    }
    if Fires(a, kind) {
      var i :| 0 <= i < |a| && a[i].Kind() == kind;
      assert (a + b)[i] == a[i];
    }
  }

  lemma FiresOfOne(r: seq<Signal>, kind: SignalKind)
    requires |r| <= 1
    ensures Fires(r, kind) <==> |r| == 1 && r[0].Kind() == kind
  {
    if |r| == 1 && r[0].Kind() == kind {
      assert 0 <= 0 < |r| && r[0].Kind() == kind;
    }
  }

  /**
   Each rule fires on its own condition: a large drop iff a (non-zero)
   previous close exists and the price fell at least 1500 below it,
   whatever the skip flag; buy iff the close is below the buy price and
   sell iff it is above the sell price, both only when not skipping. No kind
   fires twice, and the kinds come in the order large drop, buy, sell.
   */
  lemma SignalRules(settings: Settings, close: real, prev: Option<real>, skipSignal: bool)
    ensures var r := Signals(settings, close, prev, skipSignal);
            && (Fires(r, LargeDrop) <==> prev.Some? && prev.value != 0.0 && prev.value - close >= 1500.0)
            && (Fires(r, Buy) <==> !skipSignal && close < settings.buyPrice)
            && (Fires(r, Sell) <==> !skipSignal && close > settings.sellPrice)
            && (forall i, j :: 0 <= i < j < |r| ==> KindOrder(r[i].Kind()) < KindOrder(r[j].Kind()))
  {
    var d := DropSignals(close, prev);
    var b := BuySignals(settings, close, skipSignal);
    var s := SellSignals(settings, close, skipSignal);
    forall kind: SignalKind
      ensures Fires(d + b + s, kind) <==> Fires(d, kind) || Fires(b, kind) || Fires(s, kind)
    {
      FiresAppend(d + b, s, kind);
      FiresAppend(d, b, kind);
    }
    forall kind: SignalKind
      ensures (Fires(d, kind) <==> |d| == 1 && kind == LargeDrop)
              && (Fires(b, kind) <==> |b| == 1 && kind == Buy)
              && (Fires(s, kind) <==> |s| == 1 && kind == Sell)
    {
      FiresOfOne(d, kind);
      FiresOfOne(b, kind);
      FiresOfOne(s, kind);
    }
    SignalOrder(d, b, s);
  }

  /** Three parts of at most one drop, one buy and one sell signal keep the kinds in rule order. */
  lemma SignalOrder(d: seq<Signal>, b: seq<Signal>, s: seq<Signal>)
    requires |d| <= 1 && |b| <= 1 && |s| <= 1
    requires forall i :: 0 <= i < |d| ==> d[i].Kind() == LargeDrop
    requires forall i :: 0 <= i < |b| ==> b[i].Kind() == Buy
    requires forall i :: 0 <= i < |s| ==> s[i].Kind() == Sell
    ensures var r := d + b + s;
            forall i, j :: 0 <= i < j < |r| ==> KindOrder(r[i].Kind()) < KindOrder(r[j].Kind())
  {
    var r := d + b + s;
    forall i | 0 <= i < |r|
      ensures KindOrder(r[i].Kind()) == if i < |d| then 0 else if i < |d| + |b| then 1 else 2
    {
      if i < |d| {
        assert r[i] == d[i];
      } else if i < |d| + |b| {
        assert r[i] == b[i - |d|];
      } else {
        assert r[i] == s[i - |d| - |b|];
      }
    }
  }

  /**
   Each fired signal carries the arguments its notifier call receives: the
   current price with the previous close and the drop, or with the buy or
   sell price and the base price. When signals are skipped, only a large drop
   can fire, and it fires exactly on its own condition.
   */
  lemma SignalArguments(settings: Settings, close: real, prev: Option<real>, skipSignal: bool)
    ensures var r := Signals(settings, close, prev, skipSignal);
            && (forall i :: 0 <= i < |r| && r[i].Kind() == LargeDrop ==>
                  prev.Some? && r[i] == LargeDropSignal(close, prev.value, prev.value - close)
                  && prev.value - close >= 1500.0)
            && (forall i :: 0 <= i < |r| && r[i].Kind() == Buy ==>
                  r[i] == BuySignal(close, settings.buyPrice, settings.basePrice))
            && (forall i :: 0 <= i < |r| && r[i].Kind() == Sell ==>
                  r[i] == SellSignal(close, settings.sellPrice, settings.basePrice))
            && (skipSignal ==> (forall i :: 0 <= i < |r| ==> r[i].Kind() == LargeDrop)
                               && (|r| > 0 <==> prev.Some? && prev.value != 0.0 && prev.value - close >= 1500.0))
  {
  }

  function KindOrder(k: SignalKind): nat
  {
    match k
    case LargeDrop => 0
    case Buy => 1
    case Sell => 2
  }

  /**
   "No signal" is reported exactly when signals are evaluated and neither the
   buy nor the sell rule fires.
   */
  function NoSignalReported(settings: Settings, close: real, prev: Option<real>, skipSignal: bool): (r: bool)
    ensures r <==> !skipSignal && !Fires(Signals(settings, close, prev, skipSignal), Buy)
                                && !Fires(Signals(settings, close, prev, skipSignal), Sell)
  {
    SignalRules(settings, close, prev, skipSignal);
    var signalTriggered := close < settings.buyPrice || close > settings.sellPrice;
    !skipSignal && !signalTriggered
  }

  /** The fields of a notification record for `s`, given what the notifier did and the clock. */
  predicate RecordsAttempt(n: NotificationRecord, s: Signal, outcome: SendOutcome, now: Timestamp)
  {
    && n.kind == s.Kind()
    && n.currentPrice == s.current
    && n.triggerPrice == s.TriggerPrice()
    && n.notifiedAt == now
    && n.sent <= 1
    && (n.sent == 1 <==> outcome == Returned(true))
    && (n.errorMessage.None? <==> outcome == Returned(true))
    && (outcome == Returned(false) ==> n.errorMessage == Some(DeliveryFailedMessage))
    && (outcome.Raised? ==> n.errorMessage == Some(outcome.message))
  }

  /**
   `sendBuyNotification`, `sendSellNotification` and
   `sendLargeDropNotification`: call the notifier and append exactly one
   record of the attempt; the result is true only when the notifier
   returned true. An exception is recorded as undelivered with its message.
   */
  function Notify(log: seq<NotificationRecord>, s: Signal, outcome: SendOutcome, now: Timestamp)
    : (r: (seq<NotificationRecord>, bool))
    ensures |r.0| == |log| + 1 && r.0[..|log|] == log
    ensures RecordsAttempt(r.0[|log|], s, outcome, now)
    ensures r.1 <==> outcome == Returned(true)
  {
    match outcome
    case Returned(ok) =>
      (SaveNotification(log, s.Kind(), s.current, s.TriggerPrice(), ok,
                        if ok then None else Some(DeliveryFailedMessage), now), ok)
    case Raised(message) =>
      (SaveNotification(log, s.Kind(), s.current, s.TriggerPrice(), false, Some(message), now), false)
  }

  /** Sends every fired signal in order, each appending its own record. */
  function NotifyAll(log: seq<NotificationRecord>, signals: seq<Signal>, notify: Signal -> SendOutcome,
                     now: Timestamp): (log': seq<NotificationRecord>)
    ensures |log'| == |log| + |signals| && log'[..|log|] == log
    ensures forall i :: 0 <= i < |signals| ==> RecordsAttempt(log'[|log| + i], signals[i], notify(signals[i]), now)
    decreases |signals|
  {
    if |signals| == 0 then log
    else
      var next := Notify(log, signals[0], notify(signals[0]), now).0;
      var rest := NotifyAll(next, signals[1..], notify, now);
      assert rest[..|log|] == next[..|log|];
      assert forall i :: 1 <= i < |signals| ==> signals[i] == signals[1..][i - 1]
                                                && rest[|log| + i] == rest[|next| + (i - 1)];
      assert rest[|log|] == next[|log|];
      rest
  }

  /**
   `main`, given what `getCurrentPrice` returned: fails, changing nothing,
   when no settings are active or no price could be scraped. Otherwise it
   reads the previous close before saving and saves the price without a date
   (the scraper supplies none). The store runs in exception mode, so a save
   either goes through or raises; `saveRaises` says which. A raise reaches
   the catch around the whole run, which then fails with nothing saved and
   nothing notified. After a save that goes through, every fired signal is
   notified and the run succeeds.
   */
  function Run(db: Db, fetched: Option<PriceData>, notify: Signal -> SendOutcome,
               saveRaises: bool, skipSignal: bool, now: Timestamp): (r: RunResult)
    ensures r.succeeded <==> GetSettings(db).Some? && fetched.Some? && !saveRaises
    ensures !r.succeeded ==> r.db == db
    ensures r.db.settings == db.settings
    ensures |r.db.notifications| >= |db.notifications|
    ensures r.db.notifications[..|db.notifications|] == db.notifications
  {
    match GetSettings(db)
    case None => RunResult(db, false)
    case Some(settings) =>
      match fetched
      case None => RunResult(db, false)
      case Some(price) =>
        if saveRaises then RunResult(db, false)
        else
          var prev := LatestClose(db.history);
          var rate := ChangeRate(price.close, prev);
          var history := SavePriceHistory(db.history, None, price.close, price.open, price.high, price.low, rate);
          var signals := Signals(settings, price.close, prev, skipSignal);
          var log := NotifyAll(db.notifications, signals, notify, now);
          RunResult(Db(db.settings, history, log), true)
  }

  /**
   In a successful run exactly one record is appended per fired signal, in
   order, each recording the notifier's outcome; the signals are judged
   against the previous close read before the price was saved.
   */
  lemma RunNotifiesEachSignal(db: Db, fetched: Option<PriceData>,
                              notify: Signal -> SendOutcome, skipSignal: bool, now: Timestamp)
    requires GetSettings(db).Some? && fetched.Some?
    ensures var r := Run(db, fetched, notify, false, skipSignal, now);
            var signals := Signals(GetSettings(db).value, fetched.value.close,
                                   LatestClose(db.history), skipSignal);
            var n := |db.notifications|;
            && |r.db.notifications| == n + |signals|
            && forall i :: 0 <= i < |signals| ==>
                 RecordsAttempt(r.db.notifications[n + i], signals[i], notify(signals[i]), now)
  {
  }

  /**
   A save that raises aborts the run: it fails and leaves the database as it
   was, with nothing notified. A save that goes through appends exactly one
   undated record and keeps every earlier one. The new record holds the
   scraped close, open, high and low, and the change rate against the
   previous close read before the save.
   */
  lemma SaveRaisingAbortsRun(db: Db, fetched: Option<PriceData>,
                             notify: Signal -> SendOutcome, skipSignal: bool, now: Timestamp)
    ensures var raised := Run(db, fetched, notify, true, skipSignal, now);
            !raised.succeeded && raised.db == db
    ensures var saved := Run(db, fetched, notify, false, skipSignal, now);
            && (saved.succeeded <==> GetSettings(db).Some? && fetched.Some?)
            && (saved.succeeded ==> |saved.db.history| == |db.history| + 1
                                    && saved.db.history[..|db.history|] == db.history
                                    && saved.db.history[|db.history|]
                                       == PriceRecord(None, fetched.value.close, fetched.value.open,
                                                      fetched.value.high, fetched.value.low,
                                                      ChangeRate(fetched.value.close, LatestClose(db.history))))
  {
    var saved := Run(db, fetched, notify, false, skipSignal, now);
    if saved.succeeded {
      var price := fetched.value;
      var rate := ChangeRate(price.close, LatestClose(db.history));
      UndatedSaveAlwaysAppends(db.history, price.close, price.open, price.high, price.low, rate);
    }
  }

  /** A successful run's log is the old log followed by one record per fired signal. */
  lemma RunLog(db: Db, fetched: Option<PriceData>, notify: Signal -> SendOutcome,
               skipSignal: bool, now: Timestamp, settings: Settings, price: PriceData)
    requires GetSettings(db) == Some(settings) && fetched == Some(price)
    ensures Run(db, fetched, notify, false, skipSignal, now).db.notifications
            == NotifyAll(db.notifications, Signals(settings, price.close, LatestClose(db.history), skipSignal), notify, now)
  {
  }

  /** A large-drop record carries the previous close read before this run's save, and the drop fired against it. */
  lemma LargeDropUsesPreviousClose(db: Db, fetched: Option<PriceData>,
                                   notify: Signal -> SendOutcome, skipSignal: bool,
                                   now: Timestamp, i: nat)
    requires GetSettings(db).Some? && fetched.Some?
    requires var log := Run(db, fetched, notify, false, skipSignal, now).db.notifications;
             |db.notifications| <= i < |log| && log[i].kind == LargeDrop
    ensures var log := Run(db, fetched, notify, false, skipSignal, now).db.notifications;
            var close := fetched.value.close;
            && LatestClose(db.history).Some?
            && log[i].triggerPrice == LatestClose(db.history).value
            && log[i].currentPrice == close
            && LatestClose(db.history).value - close >= 1500.0
  {
    var settings := GetSettings(db).value;
    var price := fetched.value;
    var signals := Signals(settings, price.close, LatestClose(db.history), skipSignal);
    var log := Run(db, fetched, notify, false, skipSignal, now).db.notifications;
    RunLog(db, fetched, notify, skipSignal, now, settings, price);
    LargeDropRecord(db.notifications, signals, notify, now, settings, price.close, LatestClose(db.history), skipSignal, i);
  }

  /** The record of a large drop among a run's signals carries the previous close as its trigger. */
  lemma LargeDropRecord(log0: seq<NotificationRecord>, signals: seq<Signal>, notify: Signal -> SendOutcome,
                        now: Timestamp, settings: Settings, close: real, prev: Option<real>, skipSignal: bool, i: nat)
    requires signals == Signals(settings, close, prev, skipSignal)
    requires var log := NotifyAll(log0, signals, notify, now);
             |log0| <= i < |log| && log[i].kind == LargeDrop
    ensures var log := NotifyAll(log0, signals, notify, now);
            && prev.Some? && log[i].triggerPrice == prev.value && log[i].currentPrice == close
            && prev.value - close >= 1500.0
  {
    var log := NotifyAll(log0, signals, notify, now);
    SignalArguments(settings, close, prev, skipSignal);
    var k := i - |log0|;
    assert RecordsAttempt(log[|log0| + k], signals[k], notify(signals[k]), now);
    assert signals[k].Kind() == LargeDrop;
  }

  /** With the flag, no buy or sell record is ever appended; a large drop still is. */
  lemma SkipSignalOnlySuppressesBuyAndSell(db: Db, fetched: Option<PriceData>,
                                           notify: Signal -> SendOutcome, now: Timestamp)
    requires GetSettings(db).Some? && fetched.Some?
    ensures var r := Run(db, fetched, notify, false, true, now);
            var prev := LatestClose(db.history);
            var close := fetched.value.close;
            && (forall i :: |db.notifications| <= i < |r.db.notifications| ==> r.db.notifications[i].kind == LargeDrop)
            && (|r.db.notifications| > |db.notifications| <==>
                  prev.Some? && prev.value != 0.0 && prev.value - close >= 1500.0)
  {
    var settings := GetSettings(db).value;
    var price := fetched.value;
    RunLog(db, fetched, notify, true, now, settings, price);
    SkippedRecords(db.notifications, settings, price.close, LatestClose(db.history), notify, now);
  }

  /** Without buy and sell evaluation, the records appended are exactly the large drop, if any. */
  lemma SkippedRecords(log0: seq<NotificationRecord>, settings: Settings, close: real, prev: Option<real>,
                       notify: Signal -> SendOutcome, now: Timestamp)
    ensures var log := NotifyAll(log0, Signals(settings, close, prev, true), notify, now);
            && (forall i :: |log0| <= i < |log| ==> log[i].kind == LargeDrop)
            && (|log| > |log0| <==> prev.Some? && prev.value != 0.0 && prev.value - close >= 1500.0)
  {
    var signals := Signals(settings, close, prev, true);
    assert signals == DropSignals(close, prev);
    var log := NotifyAll(log0, signals, notify, now);
    forall i | |log0| <= i < |log|
      ensures log[i].kind == LargeDrop
    {
      var k := i - |log0|;
      assert RecordsAttempt(log[|log0| + k], signals[k], notify(signals[k]), now);
    }
  }

  /** A drop and a buy fire together: base 50000, buy 49000, sell 52000, previous close 51000, close 48500. */
  lemma DropAndBuyExample(w: string)
    ensures Signals(Settings(50000.0, 49000.0, 52000.0, w), 48500.0, Some(51000.0), false)
            == [LargeDropSignal(48500.0, 51000.0, 2500.0), BuySignal(48500.0, 49000.0, 50000.0)]
  {
  }

  /** A close of 53000 after 52800 fires only the sell signal. */
  lemma SellOnlyExample(w: string)
    ensures Signals(Settings(50000.0, 49000.0, 52000.0, w), 53000.0, Some(52800.0), false)
            == [SellSignal(53000.0, 52000.0, 50000.0)]
  {
  }

  /** Skip mode is on exactly when the first argument is `--no-signal`. */
  function SkipFlag(argv: seq<string>): (skip: bool)
    ensures skip <==> |argv| > 1 && argv[1] == NoSignalFlag
  {
    (if |argv| > 1 then argv[1] else "") == NoSignalFlag
  }

  /**
   The command-line entry: runs with the skip flag read from `argv[1]` and
   exits 0 when the run succeeded, 1 otherwise.
   */
  function Cli(argv: seq<string>, db: Db, live: Fetched<Page>, hist: Fetched<HistoryPage>,
               notify: Signal -> SendOutcome, saveRaises: bool, now: Timestamp): (r: (Db, int))
    ensures r.1 == 0 || r.1 == 1
    ensures r.1 == 0 <==> GetSettings(db).Some? && GetCurrentPrice(live, hist).Some? && !saveRaises
    ensures r.0 == Run(db, GetCurrentPrice(live, hist), notify, saveRaises, SkipFlag(argv), now).db
  {
    var result := Run(db, GetCurrentPrice(live, hist), notify, saveRaises, SkipFlag(argv), now);
    (result.db, if result.succeeded then 0 else 1)
  }
}
