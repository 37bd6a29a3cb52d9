/**
 * The extension's settings object. Every field is optional, as in the
 * stored JavaScript object, where a field may be missing (`undefined`).
 */
module Settings {
  import opened Wrappers

  datatype CommonSettings = CommonSettings(
    startDisplayTime: Option<int>,
    completeDisplayTime: Option<int>,
    cancelDisplayTime: Option<int>,
    errorDisplayTime: Option<int>,
    notifyClickAction: Option<int>,
    disableWatching: Option<bool>,
    iconStyle: Option<string>)

  /** The object `{}` the background script starts with. */
  const EMPTY_SETTINGS := CommonSettings(None, None, None, None, None, None, None)

  const DEFAULT_START_DISPLAY_TIME := 5000
  const DEFAULT_COMPLETE_DISPLAY_TIME := 5000
  const DEFAULT_CANCEL_DISPLAY_TIME := 5000
  const DEFAULT_ERROR_DISPLAY_TIME := 10000
  /** 1: a click on a notification does nothing; any other value reveals the download. */
  const CLICK_ACTION_NONE := 1
  const DEFAULT_NOTIFY_CLICK_ACTION := CLICK_ACTION_NONE
  const DEFAULT_DISABLE_WATCHING := false
  const ICON_STYLE_DEFAULT := "default"

  predicate IsComplete(s: CommonSettings)
  {
    && s.startDisplayTime.Some? && s.completeDisplayTime.Some? && s.cancelDisplayTime.Some?
    && s.errorDisplayTime.Some? && s.notifyClickAction.Some? && s.disableWatching.Some?
    && s.iconStyle.Some?
  }

  /** Every field defined in `s` holds the same value in `t`. */
  predicate Keeps(s: CommonSettings, t: CommonSettings)
  {
    && (s.startDisplayTime.Some? ==> t.startDisplayTime == s.startDisplayTime)
    && (s.completeDisplayTime.Some? ==> t.completeDisplayTime == s.completeDisplayTime)
    && (s.cancelDisplayTime.Some? ==> t.cancelDisplayTime == s.cancelDisplayTime)
    && (s.errorDisplayTime.Some? ==> t.errorDisplayTime == s.errorDisplayTime)
    && (s.notifyClickAction.Some? ==> t.notifyClickAction == s.notifyClickAction)
    && (s.disableWatching.Some? ==> t.disableWatching == s.disableWatching)
    && (s.iconStyle.Some? ==> t.iconStyle == s.iconStyle)
  }

  function OrDefault<T>(field: Option<T>, default: T): Option<T>
  {
    if field.None? then Some(default) else field
  }

  /** The settings after loading: each undefined field set to its default. */
  function FillDefaults(s: CommonSettings): (r: CommonSettings)
    ensures IsComplete(r) && Keeps(s, r)
    ensures s.startDisplayTime.None? ==> r.startDisplayTime == Some(DEFAULT_START_DISPLAY_TIME)
    ensures s.completeDisplayTime.None? ==> r.completeDisplayTime == Some(DEFAULT_COMPLETE_DISPLAY_TIME)
    ensures s.cancelDisplayTime.None? ==> r.cancelDisplayTime == Some(DEFAULT_CANCEL_DISPLAY_TIME)
    ensures s.errorDisplayTime.None? ==> r.errorDisplayTime == Some(DEFAULT_ERROR_DISPLAY_TIME)
    ensures s.notifyClickAction.None? ==> r.notifyClickAction == Some(DEFAULT_NOTIFY_CLICK_ACTION)
    ensures s.disableWatching.None? ==> r.disableWatching == Some(DEFAULT_DISABLE_WATCHING)
    ensures s.iconStyle.None? ==> r.iconStyle == Some(ICON_STYLE_DEFAULT)
  {
    CommonSettings(
      OrDefault(s.startDisplayTime, DEFAULT_START_DISPLAY_TIME),
      OrDefault(s.completeDisplayTime, DEFAULT_COMPLETE_DISPLAY_TIME),
      OrDefault(s.cancelDisplayTime, DEFAULT_CANCEL_DISPLAY_TIME),
      OrDefault(s.errorDisplayTime, DEFAULT_ERROR_DISPLAY_TIME),
      OrDefault(s.notifyClickAction, DEFAULT_NOTIFY_CLICK_ACTION),
      OrDefault(s.disableWatching, DEFAULT_DISABLE_WATCHING),
      OrDefault(s.iconStyle, ICON_STYLE_DEFAULT))
  }

  /** A complete settings object is left as it is, so filling twice is filling once. */
  lemma FillDefaultsIdempotent(s: CommonSettings)
    ensures IsComplete(s) ==> FillDefaults(s) == s
    ensures FillDefaults(FillDefaults(s)) == FillDefaults(s)
  {
  }

  /** Nothing stored: every field takes its default. */
  lemma DefaultsOfEmpty()
    ensures FillDefaults(EMPTY_SETTINGS)
         == CommonSettings(Some(5000), Some(5000), Some(5000), Some(10000), Some(1), Some(false), Some("default"))
  {
  }
}
