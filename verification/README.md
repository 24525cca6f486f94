# Nikkei 225 watcher — a Dafny model

The watcher scrapes the Nikkei 225 quote from a financial site, records the
price in a database, and notifies a Slack webhook when the price falls below a
buy threshold, rises above a sell threshold, or drops by at least 1500 yen from
the previous close. A small web page edits the thresholds and webhook, and a
`.env` loader supplies the configuration.

This project models the core of the watcher as pure Dafny functions over
immutable data:

- `php_text.dfy` (module `PhpText`): the PHP string primitives the watcher
  relies on: `trim` with and without a character list, `strpos` for one
  character, `strtolower`, prefix tests, and `empty()` on strings.
- `numbers.dfy` (module `Numbers`): `parseNumber`. It deletes separators and
  currency signs. It then reads either the whole text when that is numeric,
  or the first `[+-]?[\d.]+` match, with PHP's float cast.
- `scraper.dfy` (module `Scraper`): the scraper's field extraction through
  ordered selector lists, `parsePrice`, `parseHistoricalData` with its
  plausibility band, and `getCurrentPrice`. A page is modelled as what each
  XPath query returns from it.
- `store.dfy` (module `Store`): the database as three tables:
  - settings rows with an active flag;
  - the price history, keyed by an optional date;
  - the notification log.

  It also models `getSettings`, `updateSettings`, `savePriceHistory`,
  `saveNotification`, `getYesterdayClose` and the two "recent" listings.
- `monitor.dfy` (module `Monitor`): one run of `check_price.php`. This covers
  the decision flow of `main`, the three notify helpers, the `--no-signal`
  flag and the exit code.
- `web_ui.dfy` (module `WebUi`): the settings form's validation and save, the
  default settings, the signal status banner, and the "webhook configured"
  indicator of `index.php`.
- `env_loader.dfy` (module `EnvLoader`): `loadEnv` and `env()`.

Parameters stand in for the network, the clock and the notifier:
- the fetched pages;
- the timestamp of a run. Every notification record of one run carries this
  single time. The database fills `notified_at` from its column default on
  each insert, so records of one run that are separated by Slack calls can
  carry different times;
- a function giving what the notifier returns, or raises, for each signal;
- whether the database accepted a settings insert;
- whether the price-history save raised.

The scraper never supplies a trading date, so the orchestrator always saves
with a null date. In SQL a null never equals anything, so the same-date check
in `savePriceHistory` never finds a row. When the date column accepts a null,
every save therefore appends a new history row. `Store.UndatedSaveAlwaysAppends`
and `Monitor.SaveRaisingAbortsRun` state this. The connection puts PDO in
exception mode, so a rejected insert raises instead of returning false. A
raising save ends `main` through its `catch`, which returns false before any
signal is evaluated. The run then exits with 1 and sends nothing. Likewise, a
settings insert that fails raises out of `updateSettings` after every row has
already been deactivated. That request ends without rendering a page, so its
"update failed" message is never shown. Every later page load finds no active
settings and shows the defaults.

`getYesterdayClose` is called with an argument that it ignores,
and returns the close of a row with the greatest date. Null dates sort last.
When every stored date is null, all rows tie, so any stored row may supply
the "previous close".

## Model

| member | source | states |
|---|---|---|
| PhpText.TrimChars | load_env.php:26 | The result is no longer than the input, and neither of its ends is in the character list. |
| PhpText.TrimCharsIsMiddle | load_env.php:26 | The trimmed value is a contiguous middle part of the input, and everything cut from either side is in the character list. |
| PhpText.TrimCharsIdempotent | load_env.php:22-26 | Trimming an already trimmed value changes nothing. |
| PhpText.IndexOf | load_env.php:20-21 | `strpos` for one character is absent exactly when the character does not occur. Otherwise it is the first occurrence. |
| PhpText.ToLower | load_env.php:52 | `strtolower` keeps the length and lowers each ASCII capital, leaving every other character alone. |
| PhpText.LowerChar | load_env.php:52 | An ASCII capital becomes the letter 32 code points above it, and every other character stays as it is. |
| PhpText.ToLowerIdempotent | load_env.php:52 | Lowered text has no capitals, text without capitals is left as it is, and lowering twice is lowering once. |
| PhpText.TrimCharsOfPadded | load_env.php:22-26 | Any run of listed characters on either side of a text that neither starts nor ends with one is removed exactly. |
| Numbers.Clean | scraper.php:180 | No comma, space, `%`, `¥` or `円` survives the deletion. |
| Numbers.CleanAppend | scraper.php:180 | Deleting those characters distributes over concatenation. |
| Numbers.CleanKeepsDigitsAndDots | scraper.php:180 | The text holds a digit or a dot exactly when the cleaned text does. |
| Numbers.FloatOfSignedDecimal | scraper.php:184 | An optional sign, integer digits, a dot and fraction digits, followed by anything that is not a digit or an exponent mark, cast to the integer part plus the fraction, negated after `-`. |
| Numbers.FloatOfSignedInteger | scraper.php:184 | An optional sign and non-empty digits, followed by anything that is not a digit, a dot or an exponent mark, cast to the digits' integer value, negated after `-`. |
| Numbers.LeftmostMatch | scraper.php:188 | `preg_match` finds no match exactly when no position can start one. Otherwise it finds the leftmost such position. |
| Numbers.MatchExistsIffDigitOrDot | scraper.php:188 | `[+-]?[\d.]+` matches somewhere exactly when the text holds a digit or a dot. |
| Numbers.ParseNumber | scraper.php:178-193 | `parseNumber` returns null exactly when the text has no digit and no dot. A numeric cleaned text yields its float cast. |
| Numbers.ParseNumberIgnoresSeparators | scraper.php:180 | Inserting any run of separators or currency signs anywhere never changes the parsed value. |
| Numbers.NumericIsItsOwnMatch | scraper.php:183-189 | A numeric cleaned text is matched whole by the fallback pattern. |
| Numbers.ParseNumberIsFirstMatch | scraper.php:183-192 | For the signed decimals that `Numbers.IsNumeric` models, both branches of `parseNumber` return the value of the first pattern match of the cleaned text, so the `is_numeric` test never changes the result. |
| Numbers.ParseNumberOfDigits | scraper.php:183-184 | A non-empty run of decimal digits parses to its integer value. |
| Numbers.DecimalTextValue | scraper.php:184 | Integer digits, a dot and fraction digits cast to the integer part plus the fraction. |
| Numbers.ParseNumberYenExample | scraper.php:178-193 | "12,345.67円" parses to 12345.67. |
| Numbers.ParseNumberPercentExample | scraper.php:178-193 | "+1.23%" parses to 1.23. |
| Numbers.ParseNumberNotAvailableExample | scraper.php:178-193 | "N/A" parses to null. |
| Scraper.FirstHit | scraper.php:120-142 | Names the first selector in the list that matches any node. There is none exactly when every selector matches nothing. |
| Scraper.FirstNode | scraper.php:120-142 | Gives the first node of the first matching selector, or nothing when no selector matches. |
| Scraper.ExtractField | scraper.php:120-142 | A field is the parse of the trimmed first node of the first matching selector, and absent when nothing matches. |
| Scraper.ExtractFieldReadsOnlyUpToFirstHit | scraper.php:122-140 | Selectors after the first matching one are never consulted. |
| Scraper.MatchedSelectorDecidesEvenWhenUnparsable | scraper.php:122-126 | A first selector that matches "N/A" makes the price fail, even though a later selector matches "39500". |
| Scraper.PriceFallsBackToSecondSelector | scraper.php:122-133 | When the data-test selector matches nothing, the class selector supplies the price. |
| Scraper.ParsePrice | scraper.php:86-113 | Fails exactly when no price is found. Otherwise the price fills close, open, high and low, and the change and change percent are read independently. |
| Scraper.ParsePriceDependsOnExtractedFields | scraper.php:86-113 | Two pages give the same quote exactly when they agree on the price and, when there is a price, on the change and change percent. |
| Scraper.HistoryTableOrder | scraper.php:210-220 | The three historical tables are tried in their fixed order. |
| Scraper.ParseHistoricalData | scraper.php:200-250 | A row is accepted exactly when it has at least five cells and its close parses strictly between 1000 and 100000. Open, high and low fall back to the close. |
| Scraper.ImplausibleHistoricalCloseRejected | scraper.php:234 | A historical close of 500 is rejected. |
| Scraper.PlausibleHistoricalCloseAccepted | scraper.php:226-241 | A historical close of 39500 is accepted as the day's close. |
| Scraper.GetCurrentPrice | scraper.php:15-40 | There is no price exactly when the live page fails or holds no price. The change fields always come from the live page. An accepted historical row overrides OHLC; otherwise the live quote is returned unchanged. |
| Scraper.CurrentPriceSources | scraper.php:15-40 | Each of close, open, high and low is the live price unless a historical page was fetched, and a close that did not come from the live page lies in the plausibility band. |
| Scraper.CurrentChangeIgnoresHistory | scraper.php:15-40 | The historical page never decides whether there is a quote, nor its change and change percent. |
| Scraper.LivePriceIsNotBanded | scraper.php:15-40 | A live price of 500 is returned when the historical page is unavailable: the band applies only to the historical row. |
| Store.ActiveRow | config.php:51-55 | Picks the active row with the highest id, or none when no row is active. |
| Store.GetSettings | config.php:51-55 | Settings are absent exactly when no row is active. Otherwise they are the highest-id active row's settings. |
| Store.DeactivateSettings | config.php:68-69 | Every settings row is kept with its active flag cleared, so no settings are active, and the other tables are untouched. |
| Store.UpdateSettings | config.php:65-83 | Deactivates every old row and appends the new settings as the only active row, leaving the other tables alone. |
| Store.UpdateThenGetSettings | config.php:65-83 | Reading the settings right after an update returns exactly the saved settings. |
| Store.SavePriceHistory | config.php:95-147 | A save for a date already present keeps the length. Any other save appends one row and keeps the old rows. |
| Store.SaveIsUpsert | config.php:95-147 | After a dated save, that date has exactly the new record, and every other date's records are unchanged. |
| Store.SaveKeepsDatesUnique | config.php:95-147 | Saving keeps the dates of the history unique. |
| Store.SaveTwiceSameDate | config.php:95-147 | Saving the same date twice leaves one record for that date, holding the second save's values. |
| Store.UndatedSaveAlwaysAppends | config.php:101-108 | A save with a null date always appends a new row, because the equality check cannot match a null. |
| Store.LatestClose | config.php:197-208 | There is no previous close exactly when the history is empty. Otherwise it is the close of a record with the greatest date, with null dates ranking last. |
| Store.SaveLaterDateThenLatest | config.php:197-208 | After saving a date later than all stored ones, the previous close is that save's close. |
| Store.SaveNotification | config.php:158-172 | Appends one record with the given kind, prices, error and time. Its sent flag is 1 exactly when delivered, and 0 otherwise. |
| Store.TopByRank | config.php:179-191 | `ORDER BY … DESC LIMIT n` returns min(n, size) rows in descending order, all drawn from the table. No omitted row outranks a returned one. |
| Store.RecentPriceHistory | config.php:179-191 | The history listing is the `limit` records with the latest dates, newest first. |
| Store.RecentNotifications | config.php:215-226 | The notification listing is the `limit` latest notifications, newest first. |
| Store.SavedNotificationIsMostRecent | config.php:215-226 | A notification saved later than all others heads the recent list. |
| Monitor.ChangeRate | check_price.php:58-65 | The change rate exists exactly when a positive previous close exists, and then times that close equals the day's change. |
| Monitor.SignalRules | check_price.php:83-151 | Each rule fires on its own condition: a large drop when a non-zero previous close exceeds the price by at least 1500, whatever the flag; buy when below the buy price and sell when above the sell price, both only without the flag. Each kind fires at most once, in the order large drop, buy, sell. |
| Monitor.SignalArguments | check_price.php:83-151 | Each fired signal carries the current price with the previous close and drop, or with the buy or sell price and the base price. With the flag set, only a large drop can fire. |
| Monitor.NoSignalReported | check_price.php:106-159 | "No signal" is reported exactly when signals are evaluated and neither buy nor sell fires. |
| Monitor.Notify | check_price.php:174-271 | Each notify helper appends exactly one record with the signal's kind, current price and trigger price. The record counts as sent, with no error, exactly when the notifier returned true. A false return is recorded with the fixed message "Slack送信に失敗しました", and an exception with its own message. |
| Monitor.NotifyAll | check_price.php:83-151 | One record is appended per fired signal, in order, and the earlier log is unchanged. |
| Monitor.Run | check_price.php:20-169 | Given what the scraper returned, a run fails, changing nothing, exactly when there are no active settings, no price, or the price-history save raises. It never touches the settings, and it only appends to the log. `Monitor.SaveRaisingAbortsRun` states what a successful run saves. |
| Monitor.RunNotifiesEachSignal | check_price.php:54-151 | A successful run appends exactly one record per signal fired against the previous close read before the save. |
| Monitor.SaveRaisingAbortsRun | check_price.php:67-167 | A save that raises makes the run fail with the database unchanged and no notification. A save that does not raise lets the run succeed whenever settings and a price exist, and it appends one undated row after the old ones. That row holds the scraped close, open, high and low, and the change rate against the previous close read before the save. |
| Monitor.LargeDropUsesPreviousClose | check_price.php:54-104 | A large-drop record's trigger is the previous close read before this run's save, and that close exceeds the price by at least 1500. |
| Monitor.SkipSignalOnlySuppressesBuyAndSell | check_price.php:83-159 | With `--no-signal` only large-drop records are appended, exactly when a drop occurred. |
| Monitor.DropAndBuyExample | check_price.php:83-129 | Base 50000, buy 49000, sell 52000, previous close 51000, price 48500: a 2500 large drop and a buy fire. |
| Monitor.SellOnlyExample | check_price.php:131-151 | Price 53000 after 52800 fires only the sell signal. |
| Monitor.SkipFlag | check_price.php:274-275 | Skipping is on exactly when the first argument is `--no-signal`. |
| Monitor.Cli | check_price.php:273-278 | The exit code is 0 exactly when settings and a price were found and the save did not raise, and 1 otherwise. |
| WebUi.Validate | index.php:31-43 | The checks run in order (positive prices, webhook, buy below base, sell above base), and each error implies the earlier checks passed. |
| WebUi.ValidateAcceptsOrderedPrices | index.php:31-43 | A form is accepted exactly when 0 < buy < base < sell and the webhook is non-empty and starts with `https://hooks.slack.com/`. |
| WebUi.ZeroWebhookRefused | index.php:34 | The webhook "0" is refused as empty. |
| WebUi.SubmitSettings | index.php:31-54 | Submitted settings are refused exactly when validation fails, naming the first failed check and leaving the database alone. They are saved exactly when they pass and the store accepts them, and then they are the active settings, with the history and the notification log untouched. A valid form whose insert raises leaves every row deactivated, so no settings are active. |
| WebUi.HandleSettingsForm | index.php:24-54 | A refused form leaves the database alone and names the first failed check. An accepted form that the store takes becomes the active settings. One whose insert raises leaves no settings active. Either way the history and the notification log are untouched. |
| WebUi.FailedUpdateLosesSettings | config.php:65-83 | After a valid form whose insert raises, every later page load shows the defaults and every checking run fails for lack of settings. |
| WebUi.SavedSettingsAreSane | index.php:31-54 | Settings saved through the form always have ordered positive prices and a configured webhook. |
| WebUi.DisplayedSettings | index.php:56-66 | The page shows the active settings, or defaults with ordered prices and no webhook. |
| WebUi.DefaultsNeedAWebhook | index.php:56-66 | Submitting the defaults unchanged is refused only for the webhook; with any valid webhook they are accepted. |
| WebUi.Status | index.php:124-140 | The banner shows buy below the buy price, otherwise sell above the sell price, otherwise normal. |
| WebUi.StatusAgreesWithRun | index.php:124-140 | The banner agrees with the signals a checking run fires on the same price. |
| WebUi.WebhookConfigured | index.php:310-314 | A webhook shows as configured exactly when it is neither "" nor "0". Every valid webhook shows as configured. |
| EnvLoader.ParseLine | load_env.php:13-27 | A line yields nothing exactly when its trimmed text starts with `#` or it has no `=`. |
| EnvLoader.ParseLineRoundTrip | load_env.php:20-26 | `key=value`, with a clean key and value, parses back to that key and value. |
| EnvLoader.ParseLineTrimsKeyAndValue | load_env.php:20-26 | Blanks around the key and around the value make no difference to what a line defines. |
| EnvLoader.ParseLineQuotedRoundTrip | load_env.php:23-26 | `key="value"` or `key='value'` parses back to the unquoted value. |
| EnvLoader.FirstDefinition | load_env.php:13-35 | The value a file gives a key is that of the first line defining it, and absent when no line does. |
| EnvLoader.FirstDefinitionSnoc | load_env.php:13-35 | A later line never changes a key that an earlier line already defined. |
| EnvLoader.LoadEntries | load_env.php:13-35 | Keys already set keep their values. Every other key defined in the file gets its first definition's value, and no other key appears. |
| EnvLoader.LoadEnv | load_env.php:6-36 | A missing file loads nothing. Otherwise every line is parsed and applied as above. |
| EnvLoader.Interpret | load_env.php:52-67 | true, false, empty and null, bare or in parentheses and in any ASCII case, become true, false, "" and null. Any other value comes back unchanged. |
| EnvLoader.InterpretKeepsPlainValues | load_env.php:52-67 | A value reads back unchanged exactly when, lowered, it is none of the keywords. |
| EnvLoader.InterpretIgnoresCase | load_env.php:52 | Values differing only in letter case read back alike, unless they are plain strings. |
| EnvLoader.Env | load_env.php:44-68 | An unset key gives the default. A set key gives its interpreted value, a keyword or the stored text. |
| EnvLoader.EnvReadsBack | load_env.php:44-68 | A key just set reads back as its interpreted value, and setting it changes what no other key reads. |

## Left out

- Network fetching with cURL (scraper.php:47-79) is left out. A page is either fetched or failed.
- HTML parsing and XPath evaluation are abstracted. A page is the list of node texts each selector returns, in document order.
- The notifier's message formatting and HTTP call (slack_notifier.php) are not part of this model. Only the notifier's outcome matters to the core.
- The database connection and the schema are left out. PDO errors appear only as two parameters: whether a settings insert succeeds and whether the price-history save raises.
- Logging, `date()`, the session flash message and the HTML rendering of index.php are left out. Logging and `date()` only produce text. The rendering does more, because it calls `floor` with two arguments (index.php:109, 113, 115, 229-230, 268-275). `floor` takes one argument, so under PHP 8 each such call throws an uncaught `ArgumentCountError` and the page stops there.
- WebUi.Status: the banner (index.php:124-140) comes after the two-argument `floor` at index.php:109, inside the block shown only when a price was fetched. It is therefore reached only where that call does not throw, as under PHP 7, which warns and goes on. Under PHP 8, whenever a price is fetched, the page stops before the banner. The listings of recent notifications and history stop likewise when they hold a row.
- `saveDebugHtml` and the scraper's own command-line block are debugging aids and are left out.
- Numbers.IsNumeric: covers signed decimals only. PHP also accepts exponents and surrounding whitespace; `str_replace` removes spaces before the test, but not tabs or newlines.
- Numbers.FloatOf: uses exact reals, so float rounding is not modelled.
- Numbers.FloatOf: stops at an exponent mark. PHP casts "1e3" to 1000, while the model reads 1. The lemmas about the cast therefore require that no exponent mark follows the digits.
- Numbers.ParseNumberIsFirstMatch: holds for the signed decimals that `Numbers.IsNumeric` accepts. PHP's `is_numeric` also accepts "1e3", which it casts to 1000, while the first pattern match is "1".
- WebUi.HandleSettingsForm: reads the prices with the same decimal-prefix cast. `floatval` additionally skips leading whitespace and reads exponents.
- Store.UpdateSettings: stores the submitted URL as the active settings' webhook. The source inserts it into an `email_address` column. Its relation to the `slack_webhook_url` column that the rest of the program reads depends on the database schema, which is not part of this model.
- WebUi.SavedSettingsAreSane: its "configured webhook" half rests on the `Store.UpdateSettings` abstraction of the `email_address` column described above.
- Store.UpdateSettings: new row ids are the largest id plus one, standing in for the database's auto-increment.
- Store.LatestClose: promises the close of some record with the greatest date. Among rows with equal dates, SQL leaves the order unspecified.
- Store.RecentPriceHistory: the same holds for ties in the listing order.
- Monitor.Run: only the price-history save may raise. Exceptions from the settings query and from `getYesterdayClose` are not modelled. Like a raising save, they would make `main` return false with nothing changed. A `saveNotification` that raises is not modelled either. The notify helper's `catch` calls it again, and if that call also raises, `main` returns false after the history row has already been saved.
- Monitor.Truthy: treats the previous close as a number. PDO returns it as a decimal string, so a stored "0.00" would be truthy. That difference affects only prices at or below -1500.
- EnvLoader.LoadEnv: models `$_ENV` and the process environment as one map. `$_SERVER` and the failure of `putenv` with an empty key are left out.
- EnvLoader.LoadEnv: the lines of the file are given. A missing file raises an exception that the including script logs, which the model represents by returning `found == false`.
