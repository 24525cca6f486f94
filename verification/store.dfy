/**
 The watcher's database (config.php) as in-memory tables: the settings
 rows with their active flag, the price history, and the notification log.
 Rows are kept in insertion order; an `ORDER BY` whose ties SQL leaves
 unspecified is modelled by a fixed choice, and the contracts promise only
 what the query promises.
 */
module Store {

  import opened Wrappers

  /** A trading date, as a day number: later dates are larger. */
  type Date = nat

  /** A clock reading in seconds, used for `notified_at`. */
  type Timestamp = nat

  datatype Settings = Settings(basePrice: real, buyPrice: real, sellPrice: real, webhookUrl: string)

  /** A row of the settings table; `id` is the auto-increment key. */
  datatype SettingsRow = SettingsRow(id: nat, settings: Settings, active: bool)

  /** A row of the price history. The date column may hold SQL NULL, modelled as `None`. */
  datatype PriceRecord = PriceRecord(
    date: Option<Date>, close: real, open: real, high: real, low: real, changeRate: Option<real>)

  datatype SignalKind = Buy | Sell | LargeDrop

  /** A row of the notification log; `sent` is the 1/0 column the delivery flag is stored in. */
  datatype NotificationRecord = NotificationRecord(
    kind: SignalKind, currentPrice: real, triggerPrice: real,
    sent: nat, errorMessage: Option<string>, notifiedAt: Timestamp)

  datatype Db = Db(settings: seq<SettingsRow>, history: seq<PriceRecord>, notifications: seq<NotificationRecord>)

  // ---------------------------------------------------------------- settings

  function MaxId(rows: seq<SettingsRow>): (m: nat)
    ensures forall i :: 0 <= i < |rows| ==> rows[i].id <= m
  {
    if |rows| == 0 then 0
    else var rest := MaxId(rows[1..]); if rows[0].id > rest then rows[0].id else rest
  }

  /** The active row with the highest id (`WHERE is_active = 1 ORDER BY id DESC LIMIT 1`). */
  function ActiveRow(rows: seq<SettingsRow>): (r: Option<SettingsRow>)
    ensures r.None? <==> forall i :: 0 <= i < |rows| ==> !rows[i].active
    ensures r.Some? ==> r.value in rows && r.value.active
    ensures r.Some? ==> forall i :: 0 <= i < |rows| && rows[i].active ==> rows[i].id <= r.value.id
  {
    if |rows| == 0 then None
    else
      var rest := ActiveRow(rows[1..]);
      assert forall i :: 1 <= i < |rows| ==> rows[i] == rows[1..][i - 1];
      if !rows[0].active then rest
      else if rest.Some? && rest.value.id > rows[0].id then rest
      else Some(rows[0])
  }

  /** `getSettings`: the settings of the active row with the highest id, if any row is active. */
  function GetSettings(db: Db): (r: Option<Settings>)
    ensures r.None? <==> forall i :: 0 <= i < |db.settings| ==> !db.settings[i].active
    ensures r.Some? ==> exists i :: 0 <= i < |db.settings| && db.settings[i].active
                                    && db.settings[i].settings == r.value
                                    && forall j :: 0 <= j < |db.settings| && db.settings[j].active
                                                   ==> db.settings[j].id <= db.settings[i].id
  {
    match ActiveRow(db.settings)
    case None => None
    case Some(row) => Some(row.settings)
  }

  /**
   The first statement of `updateSettings`, `UPDATE settings SET is_active = 0`:
   every row stays but none is active, so no settings can be read afterwards.
   */
  function DeactivateSettings(db: Db): (db': Db)
    ensures |db'.settings| == |db.settings|
    ensures forall i :: 0 <= i < |db.settings| ==> db'.settings[i] == db.settings[i].(active := false)
    ensures GetSettings(db') == None
    ensures db'.history == db.history && db'.notifications == db.notifications
  {
    db.(settings := seq(|db.settings|, i requires 0 <= i < |db.settings| => db.settings[i].(active := false)))
  }

  /**
   `updateSettings`: every existing row is deactivated, then the new settings
   are inserted as an active row under a fresh id larger than every other.
   */
  function UpdateSettings(db: Db, s: Settings): (db': Db)
    ensures |db'.settings| == |db.settings| + 1
    ensures forall i :: 0 <= i < |db.settings| ==>
              db'.settings[i] == db.settings[i].(active := false)
    ensures db'.settings[|db.settings|].settings == s && db'.settings[|db.settings|].active
    ensures db'.history == db.history && db'.notifications == db.notifications
  {
    var off := DeactivateSettings(db);
    off.(settings := off.settings + [SettingsRow(MaxId(db.settings) + 1, s, true)])
  }

  /**
   After an update exactly one row is active, the new one, so `getSettings`
   returns exactly the settings just written, whatever was stored before.
   */
  lemma UpdateThenGetSettings(db: Db, s: Settings)
    ensures GetSettings(UpdateSettings(db, s)) == Some(s)
    ensures var rows := UpdateSettings(db, s).settings;
            forall i :: 0 <= i < |rows| ==> (rows[i].active <==> i == |rows| - 1)
  {
    var rows := UpdateSettings(db, s).settings;
    var n := |db.settings|;
    assert rows[n].active;
    var r := ActiveRow(rows);
    assert r.Some?;
    assert forall i :: 0 <= i < |rows| && rows[i].active ==> i == n;
    assert r.value == rows[n];
  }

  // ----------------------------------------------------------- price history

  /** At most one record per (non-NULL) date. */
  predicate UniqueDates(h: seq<PriceRecord>)
  {
    forall i, j :: 0 <= i < j < |h| && h[i].date.Some? ==> h[i].date != h[j].date
  }

  predicate HasDate(h: seq<PriceRecord>, d: Date)
  {
    exists i :: 0 <= i < |h| && h[i].date == Some(d)
  }

  /** The records whose date column holds `date` (NULL included), in stored order. */
  function On(h: seq<PriceRecord>, date: Option<Date>): (r: seq<PriceRecord>)
    ensures |r| <= |h|
  {
    if |h| == 0 then []
    else (if h[0].date == date then [h[0]] else []) + On(h[1..], date)
  }

  /** `UPDATE ... WHERE date = d`: every record dated `d` becomes `rec`. */
  function ReplaceOn(h: seq<PriceRecord>, d: Date, rec: PriceRecord): (r: seq<PriceRecord>)
    ensures |r| == |h|
  {
    if |h| == 0 then []
    else [if h[0].date == Some(d) then rec else h[0]] + ReplaceOn(h[1..], d, rec)
  }

  /**
   `savePriceHistory`: updates the record of that date when one exists,
   otherwise inserts a new one. SQL's `date = NULL` matches no row, so a save
   without a date always inserts.
   */
  function SavePriceHistory(h: seq<PriceRecord>, date: Option<Date>, close: real, open: real, high: real,
                            low: real, changeRate: Option<real>): (h': seq<PriceRecord>)
    ensures date.Some? && HasDate(h, date.value) ==> |h'| == |h|
    ensures !(date.Some? && HasDate(h, date.value)) ==> |h'| == |h| + 1 && h'[..|h|] == h
  {
    var rec := PriceRecord(date, close, open, high, low, changeRate);
    if date.Some? && HasDate(h, date.value) then ReplaceOn(h, date.value, rec)
    else h + [rec]
  }

  lemma {:induction false} OnEmpty(h: seq<PriceRecord>, date: Option<Date>)
    requires forall i :: 0 <= i < |h| ==> h[i].date != date
    ensures On(h, date) == []
  {
    if |h| > 0 {
      OnEmpty(h[1..], date);
    }
  }

  lemma {:induction false} OnAppend(a: seq<PriceRecord>, b: seq<PriceRecord>, date: Option<Date>)
    ensures On(a + b, date) == On(a, date) + On(b, date)
  {
    if |a| == 0 {
      assert a + b == b;
    } else {
      var head := if a[0].date == date then [a[0]] else [];
      assert (a + b)[0] == a[0];
      assert (a + b)[1..] == a[1..] + b;
      OnAppend(a[1..], b, date);
      calc {
        On(a + b, date);
        head + On(a[1..] + b, date);
        head + (On(a[1..], date) + On(b, date));
        (head + On(a[1..], date)) + On(b, date);
        On(a, date) + On(b, date);
      }
    }
  }

  /** Replacing the records of date `d` leaves the records of every other date, NULL included, as they were. */
  lemma {:induction false} ReplaceOnKeepsOthers(h: seq<PriceRecord>, d: Date, rec: PriceRecord, other: Option<Date>)
    requires rec.date == Some(d) && other != Some(d)
    ensures On(ReplaceOn(h, d, rec), other) == On(h, other)
  {
    if |h| > 0 {
      ReplaceOnKeepsOthers(h[1..], d, rec, other);
    }
  }

  /** With dates unique, the one record of date `d` is replaced by `rec`, and it stays the only one. */
  lemma {:induction false} ReplaceOnSame(h: seq<PriceRecord>, d: Date, rec: PriceRecord)
    requires rec.date == Some(d) && UniqueDates(h) && HasDate(h, d)
    ensures On(ReplaceOn(h, d, rec), Some(d)) == [rec]
  {
    if h[0].date == Some(d) {
      assert forall i :: 0 <= i < |h[1..]| ==> h[1..][i].date != Some(d) by {
        forall i | 0 <= i < |h[1..]|
          ensures h[1..][i].date != Some(d)
        {
          assert h[1..][i] == h[i + 1];
        }
      }
      ReplaceOnNoDate(h[1..], d, rec);
      OnEmpty(h[1..], Some(d));
    } else {
      assert HasDate(h[1..], d) by {
        var i :| 0 <= i < |h| && h[i].date == Some(d);
        assert h[1..][i - 1] == h[i];
      }
      assert UniqueDates(h[1..]) by {
        forall i, j | 0 <= i < j < |h[1..]| && h[1..][i].date.Some?
          ensures h[1..][i].date != h[1..][j].date
        {
          assert h[1..][i] == h[i + 1] && h[1..][j] == h[j + 1];
        }
      }
      ReplaceOnSame(h[1..], d, rec);
    }
  }

  lemma {:induction false} ReplaceOnNoDate(h: seq<PriceRecord>, d: Date, rec: PriceRecord)
    requires forall i :: 0 <= i < |h| ==> h[i].date != Some(d)
    ensures ReplaceOn(h, d, rec) == h
  {
    if |h| > 0 {
      ReplaceOnNoDate(h[1..], d, rec);
    }
  }

  /** Saving keeps dates unique. */
  lemma SaveKeepsDatesUnique(h: seq<PriceRecord>, date: Option<Date>, close: real, open: real, high: real,
                             low: real, changeRate: Option<real>)
    requires UniqueDates(h)
    ensures UniqueDates(SavePriceHistory(h, date, close, open, high, low, changeRate))
  {
    var rec := PriceRecord(date, close, open, high, low, changeRate);
    var h' := SavePriceHistory(h, date, close, open, high, low, changeRate);
    if date.Some? && HasDate(h, date.value) {
      ReplaceOnPointwise(h, date.value, rec);
    } else {
      assert h' == h + [rec];
      forall i, j | 0 <= i < j < |h'| && h'[i].date.Some?
        ensures h'[i].date != h'[j].date
      {
        if j == |h| {
          assert h'[i] == h[i];
        } else {
          assert h'[i] == h[i] && h'[j] == h[j];
        }
      }
    }
  }

  lemma {:induction false} ReplaceOnPointwise(h: seq<PriceRecord>, d: Date, rec: PriceRecord)
    ensures forall i :: 0 <= i < |h| ==>
              ReplaceOn(h, d, rec)[i] == (if h[i].date == Some(d) then rec else h[i])
  {
    if |h| > 0 {
      ReplaceOnPointwise(h[1..], d, rec);
    }
  }

  /**
   After saving a dated price, exactly one record carries that date and it
   holds the new values; the records of every other date are as before.
   */
  lemma SaveIsUpsert(h: seq<PriceRecord>, d: Date, close: real, open: real, high: real,
                     low: real, changeRate: Option<real>, other: Option<Date>)
    requires UniqueDates(h) && other != Some(d)
    ensures var h' := SavePriceHistory(h, Some(d), close, open, high, low, changeRate);
            && On(h', Some(d)) == [PriceRecord(Some(d), close, open, high, low, changeRate)]
            && On(h', other) == On(h, other)
  {
    var rec := PriceRecord(Some(d), close, open, high, low, changeRate);
    if HasDate(h, d) {
      ReplaceOnSame(h, d, rec);
      ReplaceOnKeepsOthers(h, d, rec, other);
    } else {
      OnAppend(h, [rec], Some(d));
      OnAppend(h, [rec], other);
      assert forall i :: 0 <= i < |h| ==> h[i].date != Some(d);
      OnEmpty(h, Some(d));
    }
  }

  /**
   Saving twice for the same date leaves as many records as saving once, and
   the date's one record holds the second save's values.
   */
  lemma SaveTwiceSameDate(h: seq<PriceRecord>, d: Date, c1: real, o1: real, hi1: real, l1: real, r1: Option<real>,
                          c2: real, o2: real, hi2: real, l2: real, r2: Option<real>)
    requires UniqueDates(h)
    ensures var once := SavePriceHistory(h, Some(d), c1, o1, hi1, l1, r1);
            var twice := SavePriceHistory(once, Some(d), c2, o2, hi2, l2, r2);
            && |twice| == |once|
            && On(twice, Some(d)) == [PriceRecord(Some(d), c2, o2, hi2, l2, r2)]
  {
    var once := SavePriceHistory(h, Some(d), c1, o1, hi1, l1, r1);
    SaveKeepsDatesUnique(h, Some(d), c1, o1, hi1, l1, r1);
    SaveIsUpsert(h, d, c1, o1, hi1, l1, r1, None);
    assert On(once, Some(d)) == [PriceRecord(Some(d), c1, o1, hi1, l1, r1)];
    OnMember(once, Some(d));
    SaveIsUpsert(once, d, c2, o2, hi2, l2, r2, None);
  }

  lemma {:induction false} OnMember(h: seq<PriceRecord>, date: Option<Date>)
    requires |On(h, date)| > 0
    ensures exists i :: 0 <= i < |h| && h[i].date == date
  {
    if h[0].date != date {
      OnMember(h[1..], date);
      var i :| 0 <= i < |h[1..]| && h[1..][i].date == date;
      assert h[i + 1].date == date;
    }
  }

  /** A save without a date never finds an existing row: every such save adds a record. */
  lemma UndatedSaveAlwaysAppends(h: seq<PriceRecord>, close: real, open: real, high: real,
                                 low: real, changeRate: Option<real>)
    ensures var h' := SavePriceHistory(h, None, close, open, high, low, changeRate);
            && |h'| == |h| + 1
            && On(h', None) == On(h, None) + [PriceRecord(None, close, open, high, low, changeRate)]
  {
    var rec := PriceRecord(None, close, open, high, low, changeRate);
    OnAppend(h, [rec], None);
  }

  /** `ORDER BY date DESC` puts NULL dates after every real date. */
  function DateRank(date: Option<Date>): int
  {
    match date
    case None => -1
    case Some(d) => d
  }

  /** The position of a record with the greatest date; among equals, the first stored. */
  function LatestIndex(h: seq<PriceRecord>): (i: nat)
    requires |h| > 0
    ensures i < |h|
    ensures forall j :: 0 <= j < |h| ==> DateRank(h[j].date) <= DateRank(h[i].date)
  {
    if |h| == 1 then 0
    else
      var k := LatestIndex(h[1..]) + 1;
      assert forall j :: 1 <= j < |h| ==> h[j] == h[1..][j - 1];
      if DateRank(h[0].date) >= DateRank(h[k].date) then 0 else k
  }

  /**
   `getYesterdayClose`: the close of a record with the greatest date, or
   `None` when the history is empty. It takes no date argument.
   */
  function LatestClose(h: seq<PriceRecord>): (r: Option<real>)
    ensures r.None? <==> |h| == 0
    ensures r.Some? ==> exists i :: 0 <= i < |h| && h[i].close == r.value
                                    && forall j :: 0 <= j < |h| ==> DateRank(h[j].date) <= DateRank(h[i].date)
  {
    if |h| == 0 then None else Some(h[LatestIndex(h)].close)
  }

  /** Saving a price for a date later than every stored one makes it the latest close. */
  lemma SaveLaterDateThenLatest(h: seq<PriceRecord>, d: Date, close: real, open: real, high: real,
                                low: real, changeRate: Option<real>)
    requires forall i :: 0 <= i < |h| ==> DateRank(h[i].date) < d
    ensures LatestClose(SavePriceHistory(h, Some(d), close, open, high, low, changeRate)) == Some(close)
  {
    assert !HasDate(h, d);
    var h' := SavePriceHistory(h, Some(d), close, open, high, low, changeRate);
    assert h' == h + [PriceRecord(Some(d), close, open, high, low, changeRate)];
    var i := LatestIndex(h');
    assert DateRank(h'[|h|].date) <= DateRank(h'[i].date);
  }

  // ------------------------------------------------------- notification log

  /**
   `saveNotification`: appends one record, storing the delivery flag as 1
   or 0 and the clock reading as its time; earlier records are untouched.
   */
  function SaveNotification(log: seq<NotificationRecord>, kind: SignalKind, currentPrice: real,
                            triggerPrice: real, delivered: bool, errorMessage: Option<string>,
                            now: Timestamp): (log': seq<NotificationRecord>)
    ensures |log'| == |log| + 1 && log'[..|log|] == log
    ensures var n := log'[|log|];
            && n.kind == kind && n.currentPrice == currentPrice && n.triggerPrice == triggerPrice
            && n.sent <= 1 && (n.sent == 1 <==> delivered)
            && n.errorMessage == errorMessage && n.notifiedAt == now
  {
    log + [NotificationRecord(kind, currentPrice, triggerPrice, if delivered then 1 else 0, errorMessage, now)]
  }

  // ----------------------------------------------------------- recent lists

  predicate SortedDesc<T>(s: seq<T>, rank: T -> int)
  {
    forall i, j :: 0 <= i < j < |s| ==> rank(s[i]) >= rank(s[j])
  }

  function InsertDesc<T>(x: T, s: seq<T>, rank: T -> int): (r: seq<T>)
    requires SortedDesc(s, rank)
    ensures SortedDesc(r, rank)
    ensures multiset(r) == multiset(s) + multiset{x}
    ensures |r| == |s| + 1
    ensures |s| > 0 ==> rank(r[0]) == if rank(x) >= rank(s[0]) then rank(x) else rank(s[0])
    ensures |s| == 0 ==> r == [x]
  {
    if |s| == 0 then [x]
    else if rank(x) >= rank(s[0]) then [x] + s
    else
      var rest := InsertDesc(x, s[1..], rank);
      assert s == [s[0]] + s[1..];
      assert forall j :: 0 <= j < |rest| ==> rank(rest[0]) >= rank(rest[j]);
      [s[0]] + rest
  }

  /** The rows ordered by `rank`, highest first (ties in stored order reversed). */
  function SortDesc<T>(s: seq<T>, rank: T -> int): (r: seq<T>)
    ensures SortedDesc(r, rank)
    ensures multiset(r) == multiset(s)
    ensures |r| == |s|
  {
    if |s| == 0 then []
    else
      assert s == s[..|s| - 1] + [s[|s| - 1]];
      InsertDesc(s[|s| - 1], SortDesc(s[..|s| - 1], rank), rank)
  }

  /**
   `ORDER BY rank DESC LIMIT limit`: at most `limit` rows, highest rank
   first, all taken from `s`, and no row left out outranks a row returned.
   */
  function TopByRank<T>(s: seq<T>, rank: T -> int, limit: nat): (r: seq<T>)
    ensures |r| == if limit < |s| then limit else |s|
    ensures SortedDesc(r, rank)
    ensures multiset(r) <= multiset(s)
    ensures forall x, y :: x in multiset(s) - multiset(r) && y in r ==> rank(x) <= rank(y)
  {
    var sorted := SortDesc(s, rank);
    var n := if limit < |s| then limit else |s|;
    var r := sorted[..n];
    var rest := sorted[n..];
    assert sorted == r + rest;
    assert multiset(sorted) == multiset(r) + multiset(rest);
    forall x, y | x in multiset(s) - multiset(r) && y in r
      ensures rank(x) <= rank(y)
    {
      assert x in multiset(rest);
      var i :| 0 <= i < |rest| && rest[i] == x;
      var j :| 0 <= j < |r| && r[j] == y;
      assert sorted[n + i] == x && sorted[j] == y;
    }
    r
  }

  function HistoryRank(p: PriceRecord): int
  {
    DateRank(p.date)
  }

  function NotificationRank(n: NotificationRecord): int
  {
    n.notifiedAt
  }

  /** `getRecentPriceHistory(limit)`: the `limit` most recent records by date, newest first. */
  function RecentPriceHistory(h: seq<PriceRecord>, limit: nat): (r: seq<PriceRecord>)
    ensures |r| == if limit < |h| then limit else |h|
    ensures SortedDesc(r, HistoryRank)
    ensures multiset(r) <= multiset(h)
    ensures forall x, y :: x in multiset(h) - multiset(r) && y in r ==> HistoryRank(x) <= HistoryRank(y)
  {
    TopByRank(h, HistoryRank, limit)
  }

  /** `getRecentNotifications(limit)`: the `limit` most recent notifications, newest first. */
  function RecentNotifications(log: seq<NotificationRecord>, limit: nat): (r: seq<NotificationRecord>)
    ensures |r| == if limit < |log| then limit else |log|
    ensures SortedDesc(r, NotificationRank)
    ensures multiset(r) <= multiset(log)
    ensures forall x, y :: x in multiset(log) - multiset(r) && y in r ==> NotificationRank(x) <= NotificationRank(y)
  {
    TopByRank(log, NotificationRank, limit)
  }

  /** A notification saved later than every earlier one is the first of the recent list. */
  lemma SavedNotificationIsMostRecent(log: seq<NotificationRecord>, kind: SignalKind, currentPrice: real,
                                      triggerPrice: real, delivered: bool, errorMessage: Option<string>,
                                      now: Timestamp, limit: nat)
    requires forall i :: 0 <= i < |log| ==> log[i].notifiedAt < now
    requires limit > 0
    ensures var log' := SaveNotification(log, kind, currentPrice, triggerPrice, delivered, errorMessage, now);
            var recent := RecentNotifications(log', limit);
            |recent| > 0 && recent[0] == log'[|log|]
  {
    var log' := SaveNotification(log, kind, currentPrice, triggerPrice, delivered, errorMessage, now);
    var rec := log'[|log|];
    var recent := TopByRank(log', NotificationRank, limit);
    assert log' == log + [rec];
    assert rec in multiset(log');
    assert rec in recent;
    var k :| 0 <= k < |recent| && recent[k] == rec;
    if k > 0 {
      assert recent[0] in log';
    }
  }
}
