/**
 * The background page's state: the settings object, the table from shown
 * notification ids to download ids, and the settings entry in the browser's
 * local storage, which the page reads and writes. Each browser event is a
 * method; what the browser answers to a query arrives as a parameter.
 */
module Background {
  import opened Wrappers
  import opened Settings
  import opened Decision

  /** What a click on a notification does once the download search answers. */
  datatype ClickEffect = RevealInFolder(downloadId: nat) | ShowDefaultFolder

  /** The download is revealed only when the search for it as a completed, existing download finds exactly one item. */
  function ClickEffectOf(downloadId: nat, completedHits: nat): (r: ClickEffect)
    ensures r.RevealInFolder? <==> completedHits == 1
    ensures r.RevealInFolder? ==> r.downloadId == downloadId
  {
    if completedHits != 1 then ShowDefaultFolder else RevealInFolder(downloadId)
  }

  class BackgroundState {
    var commonSettings: CommonSettings
    var notificationDownloadIds: map<string, nat>
    /** The `commonSettings` entry of the browser's local storage, if there is one. */
    var storedSettings: Option<CommonSettings>

    /** Each notification id in the table is an id made, with some guid, for the download it maps to. */
    ghost predicate Valid()
      reads this
    {
      forall id :: id in notificationDownloadIds ==> exists guid :: id == NotificationId(notificationDownloadIds[id], guid)
    }

    /** The page as it starts: empty settings, no notifications, and whatever storage holds. */
    constructor (stored: Option<CommonSettings>)
      ensures commonSettings == EMPTY_SETTINGS && notificationDownloadIds == map[]
      ensures storedSettings == stored
      ensures Valid()
    {
      commonSettings := EMPTY_SETTINGS;
      notificationDownloadIds := map[];
      storedSettings := stored;
    }

    /** loadSettings: take the stored object if there is one, then give every undefined field its default. */
    method LoadSettings()
      modifies this
      ensures commonSettings == FillDefaults(if storedSettings.Some? then storedSettings.value else old(commonSettings))
      ensures notificationDownloadIds == old(notificationDownloadIds) && storedSettings == old(storedSettings)
    {
      if storedSettings.Some? {
        commonSettings := storedSettings.value;
      }
      commonSettings := commonSettings.(startDisplayTime := OrDefault(commonSettings.startDisplayTime, DEFAULT_START_DISPLAY_TIME));
      commonSettings := commonSettings.(completeDisplayTime := OrDefault(commonSettings.completeDisplayTime, DEFAULT_COMPLETE_DISPLAY_TIME));
      commonSettings := commonSettings.(cancelDisplayTime := OrDefault(commonSettings.cancelDisplayTime, DEFAULT_CANCEL_DISPLAY_TIME));
      commonSettings := commonSettings.(errorDisplayTime := OrDefault(commonSettings.errorDisplayTime, DEFAULT_ERROR_DISPLAY_TIME));
      commonSettings := commonSettings.(notifyClickAction := OrDefault(commonSettings.notifyClickAction, DEFAULT_NOTIFY_CLICK_ACTION));
      commonSettings := commonSettings.(disableWatching := OrDefault(commonSettings.disableWatching, DEFAULT_DISABLE_WATCHING));
      commonSettings := commonSettings.(iconStyle := OrDefault(commonSettings.iconStyle, ICON_STYLE_DEFAULT));
    }

    /** saveSettings: store the current settings object. */
    method SaveSettings()
      modifies this
      ensures storedSettings == Some(commonSettings)
      ensures commonSettings == old(commonSettings) && notificationDownloadIds == old(notificationDownloadIds)
    {
      storedSettings := Some(commonSettings);
    }

    /**
     * The `loadSettings` message: the reply carries the settings as they
     * were before the reload, which completes only afterwards.
     */
    method HandleLoadSettingsMessage() returns (response: CommonSettings)
      modifies this
      ensures response == old(commonSettings)
      ensures commonSettings == FillDefaults(if storedSettings.Some? then storedSettings.value else old(commonSettings))
      ensures notificationDownloadIds == old(notificationDownloadIds) && storedSettings == old(storedSettings)
    {
      response := commonSettings;
      LoadSettings();
    }

    /** The `saveSettings` message: adopt the settings sent, as they are, and store them. */
    method HandleSaveSettingsMessage(settings: CommonSettings)
      modifies this
      ensures commonSettings == settings && storedSettings == Some(settings)
      ensures notificationDownloadIds == old(notificationDownloadIds)
    {
      commonSettings := settings;
      SaveSettings();
    }

    /**
     * onDonwloadItemUpdated once the search has answered with `hits` and,
     * when watching is disabled, the tab query with `quietActiveTabs`
     * tabs: the notification shown, if any, is recorded against its
     * download (showNotifications).
     */
    method OnDownloadItemUpdated(delta: DownloadDelta, hits: seq<DownloadItem>, quietActiveTabs: nat, guid: string)
      returns (shown: Option<Notification>)
      requires Valid()
      modifies this
      ensures Valid()
      ensures shown == UpdateNotification(delta, hits, old(commonSettings), quietActiveTabs, guid)
      ensures notificationDownloadIds
           == if shown.Some? then old(notificationDownloadIds)[shown.value.id := hits[0].id] else old(notificationDownloadIds)
      ensures commonSettings == old(commonSettings) && storedSettings == old(storedSettings)
    {
      shown := UpdateNotification(delta, hits, commonSettings, quietActiveTabs, guid);
      if shown.Some? {
        ShowNotification(shown.value.id, hits[0].id);
      }
    }

    /** showNotifications: record which download a notification being shown is about. */
    method ShowNotification(notificationId: string, downloadId: nat)
      requires Valid() && exists guid :: notificationId == NotificationId(downloadId, guid)
      modifies this
      ensures Valid()
      ensures notificationDownloadIds == old(notificationDownloadIds)[notificationId := downloadId]
      ensures commonSettings == old(commonSettings) && storedSettings == old(storedSettings)
    {
      notificationDownloadIds := notificationDownloadIds[notificationId := downloadId];
    }

    /** The entry of a notification is deleted a second after its display time ran out and it was cleared. */
    method ExpireNotification(notificationId: string)
      requires Valid()
      modifies this
      ensures Valid()
      ensures notificationDownloadIds == old(notificationDownloadIds) - {notificationId}
      ensures commonSettings == old(commonSettings) && storedSettings == old(storedSettings)
    {
      notificationDownloadIds := notificationDownloadIds - {notificationId};
    }

    /**
     * handleNotificationClick, with `completedHits` the number of items the
     * search for the download as complete and existing answers with.
     * Nothing happens when clicks are switched off or the notification is
     * unknown; otherwise its entry is removed, so a second click on it does
     * nothing.
     */
    method HandleNotificationClick(notificationId: string, completedHits: nat) returns (effect: Option<ClickEffect>)
      requires Valid()
      modifies this
      ensures Valid()
      ensures effect.Some?
          <==> old(commonSettings).notifyClickAction != Some(CLICK_ACTION_NONE) && notificationId in old(notificationDownloadIds)
      ensures effect.Some? ==> effect.value == ClickEffectOf(old(notificationDownloadIds)[notificationId], completedHits)
      ensures effect.Some? && effect.value.RevealInFolder? ==> Some(effect.value.downloadId) == DownloadIdOf(notificationId)
      ensures notificationDownloadIds
           == if effect.Some? then old(notificationDownloadIds) - {notificationId} else old(notificationDownloadIds)
      ensures notificationId !in old(notificationDownloadIds) ==> notificationDownloadIds == old(notificationDownloadIds)
      ensures commonSettings == old(commonSettings) && storedSettings == old(storedSettings)
    {
      if commonSettings.notifyClickAction == Some(CLICK_ACTION_NONE) {
        return None;
      }
      if notificationId !in notificationDownloadIds {
        return None;
      }
      var downloadId := notificationDownloadIds[notificationId];
      ghost var guid :| notificationId == NotificationId(downloadId, guid);
      NotificationIdRoundTrip(downloadId, guid);
      notificationDownloadIds := notificationDownloadIds - {notificationId};
      effect := Some(ClickEffectOf(downloadId, completedHits));
    }
  }

  /** Settings saved and then loaded again come back with only the undefined fields filled in. */
  method SettingsSurviveReload(page: BackgroundState)
    modifies page
    ensures page.commonSettings == FillDefaults(old(page.commonSettings))
    ensures page.notificationDownloadIds == old(page.notificationDownloadIds)
  {
    page.SaveSettings();
    page.LoadSettings();
  }

  /** A notification that is clicked once (with clicks switched on) ignores the next click. */
  method SecondClickIgnored(page: BackgroundState, notificationId: string, completedHits: nat)
    returns (first: Option<ClickEffect>, second: Option<ClickEffect>)
    requires page.Valid()
    modifies page
    ensures first.Some? ==> second.None?
  {
    first := page.HandleNotificationClick(notificationId, completedHits);
    second := page.HandleNotificationClick(notificationId, completedHits);
  }

  /**
   * A download's life with clicks set to reveal: its creation is announced
   * as started, its completion as complete, and a click on the second
   * notification, once the search finds the completed download, reveals it.
   */
  method DownloadLifecycle(url: string, filename: string, guid1: string, guid2: string)
    returns (started: Option<Notification>, completed: Option<Notification>, effect: Option<ClickEffect>)
    ensures started.Some? && started.value.title == "download start" && started.value.displayTime == Some(5000)
    ensures completed.Some? && completed.value.title == "download complete"
    ensures effect == Some(RevealInFolder(7))
  {
    var stored := CommonSettings(Some(5000), None, None, None, Some(2), None, None);
    var page := new BackgroundState(Some(stored));
    page.LoadSettings();
    var settings := page.commonSettings;
    assert settings.startDisplayTime == Some(5000) && settings.notifyClickAction == Some(2);

    var running := DownloadItem(7, url, filename, STATE_IN_PROGRESS, None, None, None);
    CreatedDownloadAnnouncesStart(running, settings, guid1);
    IntendedAgreesOtherwise(CreatedDelta(7), running, settings, guid1);
    started := page.OnDownloadItemUpdated(CreatedDelta(7), [running], 0, guid1);

    var done := DownloadItem(7, url, filename, STATE_COMPLETE, None, Some(2048), Some(2048));
    var delta := DownloadDelta(7, Some(Change(Some(STATE_IN_PROGRESS), Some(STATE_COMPLETE))), None, None, false);
    CompleteAnnounced(delta, done, settings, guid2);
    IntendedAgreesOtherwise(delta, done, settings, guid2);
    completed := page.OnDownloadItemUpdated(delta, [done], 0, guid2);

    effect := page.HandleNotificationClick(completed.value.id, 1);
  }
}
