/**
 The settings page (index.php): validating and saving the settings form, the
 defaults shown before any settings exist, the signal status shown next to
 the live price, and whether a webhook counts as configured.
 */
module WebUi {

  import opened Wrappers
  import opened PhpText
  import opened Numbers
  import opened Store
  import Monitor
  import Scraper

  /** Every accepted webhook URL starts with this prefix. */
  const WebhookPrefix: string := "https://hooks.slack.com/"

  /** The raw fields of a posted settings form (a missing field reads as ""). */
  datatype SettingsForm = SettingsForm(basePrice: string, buyPrice: string, sellPrice: string, webhookUrl: string)

  /** Why a form was refused, in the order the checks are made. */
  datatype FormError = NonPositivePrice | InvalidWebhook | BuyNotBelowBase | SellNotAboveBase

  /**
   What a post leads to: a refusal naming the failed check, a saved update,
   or an insert that raised after the old rows were already deactivated. The
   store runs in exception mode, so the raise escapes the page and that
   request renders nothing.
   */
  datatype FormOutcome = Rejected(error: FormError) | Updated | InsertRaised

  /** A webhook the form accepts: non-empty in PHP's sense and under the Slack hooks prefix. */
  predicate ValidWebhook(url: string)
  {
    !IsEmptyString(url) && StartsWith(url, WebhookPrefix)
  }

  /**
   The validation chain: all three prices positive, then a valid webhook,
   then buy below base, then sell above base. The first failing check names
   the error.
   */
  function Validate(base: real, buy: real, sell: real, url: string): (r: Option<FormError>)
    ensures r == Some(NonPositivePrice) <==> base <= 0.0 || buy <= 0.0 || sell <= 0.0
    ensures r == Some(InvalidWebhook) ==> base > 0.0 && buy > 0.0 && sell > 0.0 && !ValidWebhook(url)
    ensures r == Some(BuyNotBelowBase) ==> ValidWebhook(url) && buy >= base
    ensures r == Some(SellNotAboveBase) ==> ValidWebhook(url) && buy < base && sell <= base
  {
    if base <= 0.0 || buy <= 0.0 || sell <= 0.0 then Some(NonPositivePrice)
    else if IsEmptyString(url) || !StartsWith(url, WebhookPrefix) then Some(InvalidWebhook)
    else if buy >= base then Some(BuyNotBelowBase)
    else if sell <= base then Some(SellNotAboveBase)
    else None
  }

  /** A form is accepted exactly when `0 < buy < base < sell` and the webhook is valid. */
  lemma ValidateAcceptsOrderedPrices(base: real, buy: real, sell: real, url: string)
    ensures Validate(base, buy, sell, url).None? <==> 0.0 < buy < base < sell && ValidWebhook(url)
  {
  }

  /** The "0" webhook is refused even though it is a non-empty string. */
  lemma ZeroWebhookRefused(url: string)
    requires url == "0"
    ensures !ValidWebhook(url)
  {
    assert IsEmptyString(url);
  }

  /** The settings a posted form asks for: the prices through PHP's float cast, the webhook trimmed. */
  function FormSettings(form: SettingsForm): Settings
  {
    Settings(FloatOf(form.basePrice), FloatOf(form.buyPrice), FloatOf(form.sellPrice), Trim(form.webhookUrl))
  }

  /**
   Submitting settings: only settings that pass validation reach the store,
   which first deactivates the old settings and then inserts the new ones.
   `storeAccepts` says whether the insert succeeded; the two statements are
   not in a transaction, so a failed insert leaves no settings active.
   */
  function SubmitSettings(db: Db, s: Settings, storeAccepts: bool): (r: (Db, FormOutcome))
    ensures r.1.Rejected? <==> Validate(s.basePrice, s.buyPrice, s.sellPrice, s.webhookUrl).Some?
    ensures r.1.Rejected? ==> r.0 == db && r.1.error == Validate(s.basePrice, s.buyPrice, s.sellPrice, s.webhookUrl).value
    ensures r.1 == Updated <==> storeAccepts && Validate(s.basePrice, s.buyPrice, s.sellPrice, s.webhookUrl).None?
    ensures r.1 == Updated ==> GetSettings(r.0) == Some(s)
                               && r.0.history == db.history && r.0.notifications == db.notifications
    ensures r.1 == InsertRaised ==> GetSettings(r.0).None? && |r.0.settings| == |db.settings|
                                    && r.0.history == db.history && r.0.notifications == db.notifications
  {
    match Validate(s.basePrice, s.buyPrice, s.sellPrice, s.webhookUrl)
    case Some(e) => (db, Rejected(e))
    case None =>
      if storeAccepts then
        UpdateThenGetSettings(db, s);
        (UpdateSettings(db, s), Updated)
      else (DeactivateSettings(db), InsertRaised)
  }

  /**
   Handling a posted form: the form's fields are read as PHP reads them and
   submitted. A refused form leaves the database alone and names the first
   failed check.
   */
  function HandleSettingsForm(db: Db, form: SettingsForm, storeAccepts: bool): (r: (Db, FormOutcome))
    ensures var s := Settings(FloatOf(form.basePrice), FloatOf(form.buyPrice), FloatOf(form.sellPrice),
                              Trim(form.webhookUrl));
            && (r.1.Rejected? <==> Validate(s.basePrice, s.buyPrice, s.sellPrice, s.webhookUrl).Some?)
            && (r.1.Rejected? ==> r.0 == db && r.1.error == Validate(s.basePrice, s.buyPrice, s.sellPrice, s.webhookUrl).value)
            && (r.1 == Updated ==> GetSettings(r.0) == Some(s) && r.0.history == db.history
                                   && r.0.notifications == db.notifications)
            && (r.1 == InsertRaised ==> GetSettings(r.0).None? && r.0.history == db.history
                                        && r.0.notifications == db.notifications)
  {
    SubmitSettings(db, FormSettings(form), storeAccepts)
  }

  /** Settings saved through the form always have strictly ordered prices and a configured webhook. */
  lemma SavedSettingsAreSane(db: Db, s: Settings)
    requires SubmitSettings(db, s, true).1 == Updated
    ensures var shown := DisplayedSettings(SubmitSettings(db, s, true).0);
            0.0 < shown.buyPrice < shown.basePrice < shown.sellPrice && WebhookConfigured(shown.webhookUrl)
  {
    ValidateAcceptsOrderedPrices(s.basePrice, s.buyPrice, s.sellPrice, s.webhookUrl);
  }

  /**
   A failed insert after a valid form leaves the page showing the defaults,
   and every later signal-checking run fails for want of settings.
   */
  lemma FailedUpdateLosesSettings(db: Db, s: Settings, fetched: Option<Scraper.PriceData>,
                                  notify: Monitor.Signal -> Monitor.SendOutcome, saveRaises: bool,
                                  skipSignal: bool, now: Timestamp)
    requires Validate(s.basePrice, s.buyPrice, s.sellPrice, s.webhookUrl).None?
    ensures var db' := SubmitSettings(db, s, false).0;
            && SubmitSettings(db, s, false).1 == InsertRaised
            && DisplayedSettings(db') == DefaultSettings
            && !Monitor.Run(db', fetched, notify, saveRaises, skipSignal, now).succeeded
  {
  }

  /** What the page shows before any settings were saved. */
  const DefaultSettings: Settings := Settings(50000.0, 49000.0, 52000.0, "")

  /** The active settings, or the defaults when none is active. */
  function DisplayedSettings(db: Db): (s: Settings)
    ensures GetSettings(db).Some? ==> s == GetSettings(db).value
    ensures GetSettings(db).None? ==> s.buyPrice < s.basePrice < s.sellPrice && !WebhookConfigured(s.webhookUrl)
  {
    GetSettings(db).GetOr(DefaultSettings)
  }

  /** Submitting the defaults unchanged is refused, for the missing webhook only. */
  lemma DefaultsNeedAWebhook()
    ensures Validate(DefaultSettings.basePrice, DefaultSettings.buyPrice, DefaultSettings.sellPrice,
                     DefaultSettings.webhookUrl) == Some(InvalidWebhook)
    ensures forall url :: ValidWebhook(url) ==>
              Validate(DefaultSettings.basePrice, DefaultSettings.buyPrice, DefaultSettings.sellPrice, url).None?
  {
  }

  /** The status banner next to the live price. */
  datatype SignalStatus = BuyStatus | SellStatus | NormalStatus

  /** Buy when the price is below the buy price, otherwise sell when above the sell price, otherwise normal. */
  function Status(settings: Settings, close: real): (r: SignalStatus)
    ensures r == BuyStatus <==> close < settings.buyPrice
    ensures r == SellStatus <==> settings.buyPrice <= close && close > settings.sellPrice
  {
    if close < settings.buyPrice then BuyStatus
    else if close > settings.sellPrice then SellStatus
    else NormalStatus
  }

  /**
   The banner agrees with what a signal-checking run would fire on the same
   price: buy when the run fires buy, sell when it fires only sell, normal
   when it fires neither. (A run may fire both when the buy price is above
   the sell price; the banner then shows buy.)
   */
  lemma StatusAgreesWithRun(settings: Settings, close: real, prev: Option<real>)
    ensures var fired := Monitor.Signals(settings, close, prev, false);
            && (Status(settings, close) == BuyStatus <==> Monitor.Fires(fired, Buy))
            && (Status(settings, close) == SellStatus <==> !Monitor.Fires(fired, Buy) && Monitor.Fires(fired, Sell))
            && (Status(settings, close) == NormalStatus <==> Monitor.NoSignalReported(settings, close, prev, false))
  {
    Monitor.SignalRules(settings, close, prev, false);
  }

  /** The webhook shows as configured when it is not empty in PHP's sense. */
  function WebhookConfigured(url: string): (r: bool)
    ensures r <==> url != "" && url != "0"
    ensures ValidWebhook(url) ==> r
  {
    !IsEmptyString(url)
  }
}
