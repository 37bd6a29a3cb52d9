# simple-download-notifier: a Dafny model of the background script

This project models `background.js`, the background page of the
simple-download-notifier browser extension. The page watches the browser's
downloads. It shows a desktop notification when a download starts,
completes, is cancelled or fails. A click on a notification can reveal the
download in its folder. Modules:

- `Wrappers` (`wrappers.dfy`): `Option`, which stands for JavaScript's
  `undefined`/`null`.
- `Strings` (`strings.dfy`): the JavaScript string operations the script
  relies on. These are `split` on one character, `lastIndexOf`, a global
  one-character `replace`, ASCII case folding (the `i` flag of a
  non-Unicode regular expression) and decimal printing of integers.
- `Format` (`format.dfy`): `getHostname`, `getFilename` and
  `getFileTypeEmojiCode`.
- `FileSize` (`file_size.dfy`): `getFileSizeLabel`. It is a specification
  function `SizeLabelOf`, plus the loop of the source as a method proved
  equal to it.
- `Settings` (`settings.dfy`): the `CommonSettings` object, where every
  field may be undefined, and the defaults that `loadSettings` fills in.
- `Decision` (`decision.dfy`): the delta made up for a new download, the
  gate in `onDonwloadItemUpdated`, and `notifyDownloadItem`. That function
  merges the delta with the queried item, picks one of four branches, and
  builds the title, icon path, message and notification id.
- `Background` (`background.dfy`): the page's mutable state as a class.
  - The state is the settings object, the table from notification ids to
    download ids, and the settings entry of the browser's local storage.
  - One method per event: settings load and save, the two settings
    messages, a download update, a notification shown, its expiry, and a
    click.

The browser's answers are parameters of the methods, not calls: the
download search hits, the number of matching tabs, the search for a
completed download, and the stored settings. The random guid of a
notification id is also a parameter. The class keeps one invariant,
`Valid`: each notification id in the table is `sdn-id-<download>-<guid>`
for the download it maps to and some guid.

Three consequences of the size label code, which the model follows:
- A size of 1023 bytes is labelled `0.9 KB`, not `1023 bytes`. A figure of
  at least 1000 is carried into the next unit even below 1024.
- 1024 bytes print as `1 KB`, not `1.0 KB`. JavaScript prints the number 1
  without a decimal.
- 999 × 1024 bytes stay `999 KB`. The carry only applies to a figure of at
  least 1000.

## Model

| member | source | states |
|---|---|---|
| Strings.Split | background.js:59-64 | `split` on one character gives one more piece than there are separators; no piece holds the separator; the first piece is a prefix of the string |
| Strings.JoinSplit | background.js:59-64 | joining the pieces of `split` with the separator gives back the string |
| Strings.SplitAfterSeparator | background.js:59-64 | a separator-free head followed by the separator comes back as the first piece, and the rest splits on its own |
| Strings.SplitJoin | background.js:244-252 | (helper of Decision.MessageLines; the source builds the message and never splits it) splitting a join of separator-free pieces gives back the pieces |
| Strings.LastIndexOf | background.js:75 | the index is -1 or holds the character, and no later position holds it |
| Strings.ReplaceAll | background.js:74 | `replace(/\\/g, "/")` keeps the length, turns every `\` into `/`, and changes no other character |
| Strings.LowerAll | background.js:294-307 | case folding for the `i` flag keeps the length, turns each upper-case ASCII letter into its lower-case letter (code + 32), and changes no other character |
| Strings.Decimal | background.js:203 | the printed form of a number is a non-empty string of digits, with no leading zero unless the number is 0 |
| Strings.ParseDecimalOfDecimal | background.js:203 | reading the printed digits back gives the number |
| Strings.DecimalInjective | background.js:203 | different numbers print differently |
| Format.SchemeSeparatorOccurs | background.js:58 | the test `url.indexOf("://") > -1` holds exactly when `://` starts at some index of the URL |
| Format.SchemeSeparatorGivesThreeFields | background.js:58-59 | a URL containing `://` has at least three `/`-fields, so field 2 exists |
| Format.Hostname | background.js:56-66 | the host never contains `/`, `:` or `?` |
| Format.HostnameChars | background.js:56-66 | every character of the host occurs in the URL |
| Format.HostnameOfUrl | background.js:56-66 | for `scheme://host` followed by nothing, a path, a port or a query, the host is exactly `host` |
| Format.Filename | background.js:73-77 | the file name is a suffix of the path containing neither `/` nor `\` |
| Format.FilenameIdempotent | background.js:73-77 | taking the file name of a file name changes nothing |
| Format.FilenameAfterSeparator | background.js:73-77 | a name after a final `/` or `\` is the file name |
| Format.FirstMatchCode | background.js:293-308 | each code is chosen exactly when its group matches and no earlier group did; the document code also when nothing matched |
| Format.FileTypeEmojiCode | background.js:292-310 | the code is always one of the seven emoji codes |
| Format.Extension | background.js:294-307 | a name has an extension exactly when it contains a dot; the text after the last dot contains no dot |
| Format.MatchesExtensions | background.js:294-307 | a name that one of the patterns `\.(e1\|…)$` matches has an extension |
| Format.MatchesNumberedZ | background.js:294 | the alternative `z[0-9]{2}` of the archive pattern matches exactly when the lower-cased extension is `z` and two digits |
| Format.MatchesExtensionsIffExtension | background.js:294-307 | a pattern `\.(e1\|…)$` with the `i` flag matches exactly when the lower-cased extension is in its list |
| Format.ArchiveByExtension | background.js:294-295 | the archive pattern matches exactly when the lower-cased extension is listed or is `z` and two digits |
| Format.FileTypeByExtension | background.js:292-310 | the code depends on the lower-cased extension alone (the first group listing it), and is the document code without an extension |
| Format.ExtensionLowered | background.js:294-307 | lower-casing a name lower-cases its extension and keeps where it starts |
| Format.FileTypeIgnoresCase | background.js:294-307 | names that differ only in letter case get the same code |
| Format.UpperCaseArchive | background.js:294-295 | `Archive.ZIP` gets the archive code |
| Format.UnlistedExtensionIsDocument | background.js:293-308 | an extension in no list gets the document code |
| FileSize.LeastUnit | background.js:320-331 | the unit chosen keeps the figure below 1000, and the unit below it would not |
| FileSize.LeastUnitIsLeast | background.js:320-331 | no smaller unit keeps the figure below 1000 |
| FileSize.SizeLabelOf | background.js:316-337 | the label is null exactly for a missing or negative size |
| FileSize.SizeLabelBelowThousand | background.js:327-336 | a byte label is the count itself, below 1000; a scaled figure is between 0.9 and 999.9 |
| FileSize.UnitWithinLabels | background.js:334-336 | the unit has a name in `SIZE_LABEL` exactly for sizes below 1000 × 1024^6 |
| FileSize.FileSizeLabel | background.js:316-337 | the loop that divides by 1024 and then carries at 1000 computes `SizeLabelOf` |
| FileSize.LoopExitUnit | background.js:322-331 | where the loop stops, the carry at 1000 alone decides the unit |
| FileSize.SizeLabelExamplesBytes | background.js:317-335 | 0 and 999 are byte counts; -1 has no label |
| FileSize.SizeLabelExamplesKilo | background.js:316-337 | 1023 bytes is 0.9 KB, 1024 bytes is 1 KB, 999 × 1024 bytes is 999 KB |
| FileSize.SizeLabelExamplesMega | background.js:327-331 | 1000 × 1024 bytes is carried to 0.9 MB |
| FileSize.UnitName | background.js:334-336 | the unit printed, also `undefined` past the end of `SIZE_LABEL`, is one non-empty word without a dot |
| FileSize.UnitNamesDistinct | background.js:18 | the units of `SIZE_LABEL` have different names, and none is `undefined` |
| FileSize.FigureText | background.js:332-336 | the figure printed, read back as digits with at most one decimal, gives the figure of the label in tenths |
| FileSize.LabelText | background.js:332-336 | the label has no line break and splits at its space into the figure and the unit name |
| Settings.FillDefaults | background.js:348-368 | after loading, every field already defined keeps its value and every undefined field gets its own default (5000, 5000, 5000, 10000 ms, click action 1, watching on, style `default`) |
| Settings.FillDefaultsIdempotent | background.js:342-369 | loading complete settings changes nothing, so loading twice is loading once |
| Settings.DefaultsOfEmpty | background.js:348-368 | with nothing stored the defaults are 5000, 5000, 5000, 10000 ms, click action 1, watching on, icon style `default` |
| Decision.CurrentOf | background.js:175-180 | a value is taken from the delta exactly when `delta.x` is defined and its `current` is defined and not empty, and it is that `current` |
| Decision.CreatedDelta | background.js:94-100 | the delta for a created download has state `in_progress`, no error and no `exists` change |
| Decision.ItemToNotify | background.js:134-161 | an item is notified exactly when the search found one item and, with watching disabled, the tab query found a tab |
| Decision.Resolve | background.js:172-192 | an `exists`-only delta returns early; the error is the delta's; the state is the delta's, else the item's, but the item's error when the delta has no error |
| Decision.ResolveIntended | background.js:186-192 | with line 191 corrected: state and error each from the delta, else from the item |
| Decision.IsUserError | background.js:218 | the test of `^USER_.+$`: `USER_` followed by a match of `.+`, written as its own recursive matcher |
| Decision.DotPlusNoTerminator | background.js:218 | `.+` without the `s` flag matches exactly a non-empty string without line terminators |
| Decision.Classify | background.js:209-233 | cancel, error, start and complete are each chosen exactly under their condition; errors matching `^USER_.+$` show nothing; the display time is the branch's setting |
| Decision.UserErrorExamples | background.js:218 | `USER_CANCELED` and `USER_SHUTDOWN` are user errors; `USER_`, `NETWORK_FAILED` and a code ending in a line break are not |
| Decision.Title | background.js:209-229 | every title starts with `download ` |
| Decision.TitlesDistinct | background.js:209-229 | the four branches have four different titles |
| Decision.IconPath | background.js:209-229 | the icon starts with `icons/` and ends with `.svg`; for a style without `/`, split at `/` it reads back as `icons`, the style (`undefined` when missing) and the branch's file name |
| Decision.IconsDistinct | background.js:209-229 | in any one icon style the four branches have four different icons |
| Decision.NotificationId | background.js:203 | the id starts with `sdn-id-` and ends with the guid; split at `-` it reads back as `sdn`, `id`, the printed download id and the pieces of the guid |
| Decision.NotificationIdRoundTrip | background.js:203 | the download id can be read back from a notification id |
| Decision.NotificationIdInjective | background.js:203 | two notification ids are equal only for the same download and the same guid |
| Decision.ChosenSize | background.js:238-243 | the size is the file size when known, else the total when known, else -1 |
| Decision.Message | background.js:244-252 | the message is its lines joined by line breaks |
| Decision.MessageLines | background.js:244-252 | split at line breaks, the message gives back its lines: host, file, and the error line exactly when there is an error text, so two or three lines |
| Decision.SizeShownWhenKnown | background.js:238-248 | the size suffix appears exactly when the file size or the total is known; the file size wins |
| Decision.Announce | background.js:199-260 | a notification is shown exactly when the merge did not return early and a branch applies (a user error outside the cancel branch applies none); it carries the branch's title, icon, message and display time and the id made for the download |
| Decision.NotifyDownloadItem | background.js:171-261 | every notification shown names, in its id, the download it is about |
| Decision.NotifyDownloadItemIntended | background.js:171-261 | with line 191 corrected, every notification shown names its download |
| Decision.UpdateNotification | background.js:129-163 | with line 191 corrected: a notification is shown exactly when the gate passes the single search hit and notifyDownloadItem shows one, and its id is made for that download |
| Decision.UpdateNotificationAsWritten | background.js:129-163 | as written: a notification is shown exactly when the gate passes the single search hit and notifyDownloadItem shows one, and its id is made for that download |
| Decision.ExistsOnlyIsSilent | background.js:181-184 | a delta in which only `exists` changed shows nothing |
| Decision.CreatedDownloadAnnouncesStart | background.js:222-225 | a new download without an error is announced as started with the start display time |
| Decision.CompleteAnnounced | background.js:226-229 | a completed download without an error is announced as complete with the complete display time |
| Decision.CancelAnnounced | background.js:209-213 | an interrupted download with `USER_CANCELED` is announced as cancelled, without an error line |
| Decision.DeltaErrorAnnounced | background.js:214-221 | an error from the delta that is not a user error is announced with its code on the third line and the error display time |
| Decision.UserErrorIsSilent | background.js:218-233 | a user error other than a cancelled download shows nothing |
| Decision.ItemErrorSilencesNotification | background.js:190-192 | as written, an error known only from the item replaces the state, so no notification is shown |
| Decision.IntendedAnnouncesItemError | background.js:190-192 | corrected, an error known only from the item is announced as an error |
| Decision.IntendedAgreesOtherwise | background.js:186-192 | the corrected merge changes nothing unless the error comes from the item alone |
| Decision.NetworkFailureExample | background.js:190-192 | an interrupted download whose item reports `NETWORK_FAILED` is silent as written and an error notification when corrected |
| Background.ClickEffectOf | background.js:424-434 | the download is revealed exactly when the search finds one completed item; otherwise the default folder opens |
| Background.BackgroundState.constructor | background.js:8-10 | the page starts with empty settings and no notifications |
| Background.BackgroundState.LoadSettings | background.js:342-369 | the stored settings, if any, replace the current ones, and undefined fields get their defaults |
| Background.BackgroundState.SaveSettings | background.js:375-379 | the current settings are stored |
| Background.BackgroundState.HandleLoadSettingsMessage | background.js:389-395 | the reply carries the settings from before the reload |
| Background.BackgroundState.HandleSaveSettingsMessage | background.js:396-399 | the settings sent are adopted as they are and stored |
| Background.BackgroundState.OnDownloadItemUpdated | background.js:129-163 | with line 191 corrected: the notification shown is recorded against its download, and the table stays valid |
| Background.BackgroundState.ShowNotification | background.js:270-271 | a notification id is recorded with its download id |
| Background.BackgroundState.ExpireNotification | background.js:276-285 | the entry of an expired notification is removed |
| Background.BackgroundState.HandleNotificationClick | background.js:407-434 | a click with clicks on, on a known notification, removes its entry and acts on the download its id names; otherwise nothing changes |
| Background.SettingsSurviveReload | background.js:342-379 | settings saved and loaded again come back with only the undefined fields filled |
| Background.SecondClickIgnored | background.js:412-417 | a second click on a notification already handled does nothing |
| Background.DownloadLifecycle | background.js:92-163 | with start time 5000 and click action 2, a download is announced as started, then as complete, and a click reveals it |

## Left out

- `options.js`, the settings page, is not part of this model.
- Browser calls are not modelled as calls. Their answers are method
  parameters: the download search, the tab query, storage reads, and the
  search behind a click. Showing, clearing and revealing are not modelled;
  `ClickEffect` names what the click asks the browser to do.
- `browser.extension.getURL` is not modelled. The icon is the relative path
  the script passes to it.
- Timers are not modelled: the 250 and 350 ms delays before a download is
  looked up, the display time, and the one-second wait before a table
  entry is deleted. Events that arrive during those delays can interleave
  in any order. Each event is one method, so the model covers any such
  order, but not concurrency inside one event.
- `getGuid` uses `Math.random`. The guid is a parameter of any string.
- `log`, `isDebug`, the `onInstalled` debug switch, `handleError` and
  `sleep` only log or wait. They are left out.
- Background.BackgroundState.HandleLoadSettingsMessage: in the source the
  reload completes later, asynchronously. The model reloads right after
  taking the reply, which is one possible order.
- FileSize.SizeLabelOf: sizes are divided exactly, on integers. JavaScript
  divides floating-point numbers, which can round differently from the
  exact figure once `size * 10` needs more than 53 bits (sizes from about
  2^49 bytes).
- FileSize.LabelText: prints the exact figure. JavaScript's shortest
  round-trip printing of the floored number agrees for the figures in
  tenths modelled here.
- Settings.FillDefaults: a stored field that is `null` rather than missing
  is treated as missing. JavaScript keeps `null`, because the check is
  `=== undefined`.
- Decision.UpdateNotification, Background.BackgroundState.OnDownloadItemUpdated:
  compose the corrected merge (`NotifyDownloadItemIntended`), not line 191
  as written. For a delta with state `interrupted` and no error, on an
  item whose error is `NETWORK_FAILED`, the page as written shows nothing
  and the model shows an error notification.
  `Decision.UpdateNotificationAsWritten` is the same step on the code as
  written.
- Decision.IsUserError: the regular expression's `.` is modelled on code
  points. JavaScript matches UTF-16 units, which agrees for `.+` because a
  line terminator is never half of a pair.

## Findings

| source | as written | input that shows it | evidently intended | confidence | as-written member | corrected member |
|---|---|---|---|---|---|---|
| background.js:190-192 | when the delta has no error and the item has one, the item's error is stored into `currentState`, and `currentError` stays null | a delta with state `interrupted` and no error, for an item whose error is `NETWORK_FAILED`: the state becomes `NETWORK_FAILED`, no branch applies, and nothing is shown | store the item's error into `currentError`, as line 187 does for the state, so the failure is announced as a download error | high (not executed) | Decision.NetworkFailureExample | Decision.IntendedAnnouncesItemError |

The page's state (`Background.BackgroundState`) uses the corrected
`NotifyDownloadItemIntended`. `Decision.NotifyDownloadItem` keeps the code
as written.
