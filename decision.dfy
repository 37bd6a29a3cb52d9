/**
 * notifyDownloadItem and what feeds it: the delta fabricated for a created
 * download, the gate on the search result and the tab query, the merge of
 * delta and queried item, the four-way classification and the notification
 * text. The browser's calls are inputs: the search hits, the number of tabs
 * found, and the random guid.
 */
module Decision {
  import opened Wrappers
  import opened Strings
  import opened Format
  import opened FileSize
  import opened Settings

  const NOTIFICATION_ID_PREFIX := "sdn-id"
  const HOST_EMOJI_CODE := 0x1F4E1
  const ERROR_EMOJI_CODE := 0x1F4A3

  const STATE_IN_PROGRESS := "in_progress"
  const STATE_COMPLETE := "complete"
  const STATE_INTERRUPTED := "interrupted"

  const ERROR_CODE_USER_CANCEL := "USER_CANCELED"

  /** A `{previous, current}` pair of a download delta. */
  datatype Change<T> = Change(previous: Option<T>, current: Option<T>)

  /** What the browser reports as changed about a download; `isGenerate` marks the delta made up for a new download. */
  datatype DownloadDelta = DownloadDelta(
    id: nat,
    state: Option<Change<string>>,
    error: Option<Change<string>>,
    existsChange: Option<Change<bool>>,
    isGenerate: bool)

  /** The fields of a queried download item that the script reads. */
  datatype DownloadItem = DownloadItem(
    id: nat,
    url: string,
    filename: string,
    state: string,
    error: Option<string>,
    fileSize: Option<int>,
    totalBytes: Option<int>)

  /** The notification shown: its id, its options, and how long it stays. */
  datatype Notification = Notification(
    id: string,
    title: string,
    iconPath: string,
    message: string,
    displayTime: Option<int>)

  /** A string value JavaScript treats as true: defined and not empty. */
  predicate Present(s: Option<string>)
  {
    s.Some? && s.value != ""
  }

  /** `delta.x && delta.x.current`, as the value it selects. */
  function CurrentOf(change: Option<Change<string>>): (r: Option<string>)
    ensures r.Some? <==> change.Some? && Present(change.value.current)
    ensures r.Some? ==> r == change.value.current && Present(r)
  {
    if change.Some? && Present(change.value.current) then change.value.current else None
  }

  /** The first value if there is one, else the second. */
  function Prefer(first: Option<string>, fallback: Option<string>): Option<string>
  {
    if first.Some? then first else fallback
  }

  function ItemState(item: DownloadItem): Option<string>
  {
    if item.state != "" then Some(item.state) else None
  }

  // ---------------------------------------------------------------------------
  // handleDownloadCreated and onDonwloadItemUpdated

  /** The delta made up for a download that was just created: state `in_progress`. */
  function CreatedDelta(id: nat): (d: DownloadDelta)
    ensures d.id == id && d.isGenerate
    ensures CurrentOf(d.state) == Some(STATE_IN_PROGRESS) && CurrentOf(d.error).None?
    ensures d.existsChange.None?
  {
    DownloadDelta(id, Some(Change(None, Some(STATE_IN_PROGRESS))), None, None, true)
  }

  /**
   * The queried item that goes on to notifyDownloadItem: only for exactly
   * one search hit, and then, when watching is disabled, only if the tab
   * query found an active tab that is not playing sound.
   */
  function ItemToNotify(hits: seq<DownloadItem>, settings: CommonSettings, quietActiveTabs: nat): (r: Option<DownloadItem>)
    ensures r.Some? <==> |hits| == 1 && (settings.disableWatching != Some(true) || quietActiveTabs > 0)
    ensures r.Some? ==> r.value == hits[0]
  {
    if |hits| != 1 then None
    else if settings.disableWatching != Some(true) then Some(hits[0])
    else if quietActiveTabs > 0 then Some(hits[0])
    else None
  }

  // ---------------------------------------------------------------------------
  // notifyDownloadItem: merging the delta with the queried item

  /** `currentState` and `currentError` after the merge, or the early return for an exists-only delta. */
  datatype Resolution = ExistsOnly | Resolved(state: Option<string>, error: Option<string>)

  /**
   * The merge as the source writes it: the delta's values first, then the
   * item's; but the item's error is stored into the state (line 191), so
   * the error never comes from the item.
   */
  function Resolve(delta: DownloadDelta, item: DownloadItem): (r: Resolution)
    ensures r.ExistsOnly?
        <==> CurrentOf(delta.state).None? && CurrentOf(delta.error).None? && delta.existsChange.Some?
    ensures r.Resolved? ==> r.error == CurrentOf(delta.error)
    ensures r.Resolved? && CurrentOf(delta.error).None? && Present(item.error) ==> r.state == item.error
    ensures r.Resolved? && !(CurrentOf(delta.error).None? && Present(item.error))
        ==> r.state == Prefer(CurrentOf(delta.state), ItemState(item))
  {
    var state := CurrentOf(delta.state);
    var error := CurrentOf(delta.error);
    if state.None? && error.None? && delta.existsChange.Some? then ExistsOnly
    else
      var state' := if state.None? && item.state != "" then Some(item.state) else state;
      var state'' := if error.None? && Present(item.error) then item.error else state';
      Resolved(state'', error)
  }

  /** The merge with the item's error stored into the error, as evidently intended. */
  function ResolveIntended(delta: DownloadDelta, item: DownloadItem): (r: Resolution)
    ensures r.ExistsOnly?
        <==> CurrentOf(delta.state).None? && CurrentOf(delta.error).None? && delta.existsChange.Some?
    ensures r.Resolved? ==> r.state == Prefer(CurrentOf(delta.state), ItemState(item))
    ensures r.Resolved? ==> r.error == Prefer(CurrentOf(delta.error), if Present(item.error) then item.error else None)
  {
    var state := CurrentOf(delta.state);
    var error := CurrentOf(delta.error);
    if state.None? && error.None? && delta.existsChange.Some? then ExistsOnly
    else
      var state' := if state.None? && item.state != "" then Some(item.state) else state;
      var error' := if error.None? && Present(item.error) then item.error else error;
      Resolved(state', error')
  }

  // ---------------------------------------------------------------------------
  // notifyDownloadItem: classification

  datatype Kind = Cancel | Failure | Start | Complete

  /** The branch taken, its display time, and the error text for the third line. */
  datatype Branch = Branch(kind: Kind, displayTime: Option<int>, extMessage: Option<string>)

  predicate IsLineTerminator(c: char)
  {
    c == '\n' || c == '\r' || c == 0x2028 as char || c == 0x2029 as char
  }

  /** The regular expression `.+` without the `s` flag, matched against a whole string. */
  predicate DotPlus(s: string)
    decreases |s|
  {
    |s| > 0 && !IsLineTerminator(s[0]) && (|s| == 1 || DotPlus(s[1..]))
  }

  lemma {:induction false} DotPlusNoTerminator(s: string)
    ensures DotPlus(s) <==> |s| > 0 && forall i :: 0 <= i < |s| ==> !IsLineTerminator(s[i])
    decreases |s|
  {
    if |s| > 1 {
      DotPlusNoTerminator(s[1..]);
      assert forall i :: 1 <= i < |s| ==> s[i] == s[1..][i - 1];
    }
  }

  /** The regular expression `^USER_.+$`: errors the user caused, never announced. */
  predicate IsUserError(e: string)
    ensures IsUserError(e) <==> |e| >= 5 && e[..5] == "USER_" && DotPlus(e[5..])
  {
    if |e| < 5 then false
    else
      DotPlusNoTerminator(e[5..]);
      assert forall i :: 5 <= i < |e| ==> e[i] == e[5..][i - 5];
      |e| > 5 && e[..5] == "USER_" && forall i :: 5 <= i < |e| ==> !IsLineTerminator(e[i])
  }

  function DisplayTimeOf(kind: Kind, settings: CommonSettings): Option<int>
  {
    match kind
    case Cancel => settings.cancelDisplayTime
    case Failure => settings.errorDisplayTime
    case Start => settings.startDisplayTime
    case Complete => settings.completeDisplayTime
  }

  /**
   * The branch chain on `currentState` and `currentError`; `None` when no
   * branch applies or when the error is one the user caused (the display
   * time then stays null).
   */
  function Classify(state: Option<string>, error: Option<string>, settings: CommonSettings): (r: Option<Branch>)
    ensures r.Some? && r.value.kind == Cancel
        <==> state == Some(STATE_INTERRUPTED) && error == Some(ERROR_CODE_USER_CANCEL)
    ensures r.Some? && r.value.kind == Failure
        <==> error.Some? && error != Some(ERROR_CODE_USER_CANCEL) && !IsUserError(error.value)
    ensures r.Some? && r.value.kind == Start <==> error.None? && state == Some(STATE_IN_PROGRESS)
    ensures r.Some? && r.value.kind == Complete <==> error.None? && state == Some(STATE_COMPLETE)
    ensures r.Some? ==> r.value.displayTime == DisplayTimeOf(r.value.kind, settings)
    ensures r.Some? ==> r.value.extMessage == if r.value.kind == Failure then error else None
  {
    if state == Some(STATE_INTERRUPTED) && error == Some(ERROR_CODE_USER_CANCEL) then
      Some(Branch(Cancel, settings.cancelDisplayTime, None))
    else if error.Some? then
      if IsUserError(error.value) then None
      else Some(Branch(Failure, settings.errorDisplayTime, error))
    else if state == Some(STATE_IN_PROGRESS) then
      Some(Branch(Start, settings.startDisplayTime, None))
    else if state == Some(STATE_COMPLETE) then
      Some(Branch(Complete, settings.completeDisplayTime, None))
    else None
  }

  function Title(kind: Kind): (r: string)
    ensures |r| > 9 && r[..9] == "download "
  {
    match kind
    case Cancel => "download cancel"
    case Failure => "download error"
    case Start => "download start"
    case Complete => "download complete"
  }

  function IconName(kind: Kind): string
  {
    match kind
    case Cancel => "down-cancel"
    case Failure => "down-err"
    case Start => "down-start"
    case Complete => "down-comp"
  }

  /** A template string's text for a possibly undefined value. */
  function TextOf(s: Option<string>): string
  {
    if s.Some? then s.value else "undefined"
  }

  /** The icon of a branch, in the folder of the icon style; split at `/` it reads back as folder, style and file. */
  function IconPath(iconStyle: Option<string>, kind: Kind): (r: string)
    ensures |r| >= 10 && r[..6] == "icons/" && r[|r| - 4..] == ".svg"
    ensures '/' !in TextOf(iconStyle) ==> Split(r, '/') == ["icons", TextOf(iconStyle), IconName(kind) + ".svg"]
  {
    IconFileHasNoSlash(kind);
    IconPathParts(TextOf(iconStyle), IconName(kind) + ".svg");
    "icons/" + TextOf(iconStyle) + "/" + (IconName(kind) + ".svg")
  }

  lemma IconFileHasNoSlash(kind: Kind)
    ensures '/' !in IconName(kind) + ".svg"
    ensures |IconName(kind) + ".svg"| >= 4 && (IconName(kind) + ".svg")[|IconName(kind) + ".svg"| - 4..] == ".svg"
  {
  }

  lemma IconPathParts(style: string, file: string)
    requires '/' !in file && |file| >= 4 && file[|file| - 4..] == ".svg"
    ensures var r := "icons/" + style + "/" + file;
            |r| >= 10 && r[..6] == "icons/" && r[|r| - 4..] == ".svg"
    ensures '/' !in style ==> Split("icons/" + style + "/" + file, '/') == ["icons", style, file]
  {
    var r := "icons/" + style + "/" + file;
    assert r[|r| - 4..] == file[|file| - 4..];
    if '/' !in style {
      assert '/' !in "icons" by { assert "icons/"[5] == '/'; }
      assert r == "icons" + "/" + style + "/" + file;
      IconPathSplit("icons", style, file);
    }
  }

  lemma IconPathSplit(folder: string, style: string, file: string)
    requires '/' !in folder && '/' !in style && '/' !in file
    ensures Split(folder + "/" + style + "/" + file, '/') == [folder, style, file]
  {
    var rest := style + "/" + file;
    SplitWithoutSeparator(file, '/');
    SplitAfterSeparator(style, file, '/');
    SplitAfterSeparator(folder, rest, '/');
    assert folder + "/" + style + "/" + file == folder + ['/'] + rest;
  }


  // ---------------------------------------------------------------------------
  // notifyDownloadItem: the notification id and text

  /**
   * `sdn-id-<download id>-<guid>`; split at `-` it reads back as `sdn`,
   * `id`, the printed download id, and the pieces of the guid.
   */
  function NotificationId(downloadId: nat, guid: string): (r: string)
    ensures |r| > |NOTIFICATION_ID_PREFIX| + 1 + |guid|
    ensures r[..|NOTIFICATION_ID_PREFIX| + 1] == NOTIFICATION_ID_PREFIX + "-"
    ensures r[|r| - |guid|..] == guid
    ensures Split(r, '-') == ["sdn", "id", Decimal(downloadId)] + Split(guid, '-')
  {
    var digits := Decimal(downloadId);
    DigitsHaveNoDash(digits);
    assert '-' !in "sdn" && '-' !in "id" by {
      assert NOTIFICATION_ID_PREFIX == "sdn" + ['-'] + "id";
    }
    var r := NOTIFICATION_ID_PREFIX + "-" + digits + "-" + guid;
    assert r == "sdn" + ['-'] + ("id" + ['-'] + (digits + ['-'] + guid));
    SplitThreeFields("sdn", "id", digits, guid, '-');
    r
  }

  /** The size shown: the file size if it is known, else the total bytes if known, else -1. */
  function ChosenSize(item: DownloadItem): (r: int)
    ensures r >= -1
    ensures r >= 0 <==> (item.fileSize.Some? && item.fileSize.value >= 0) || (item.totalBytes.Some? && item.totalBytes.value >= 0)
    ensures item.fileSize.Some? && item.fileSize.value >= 0 ==> r == item.fileSize.value
    ensures r >= 0 && !(item.fileSize.Some? && item.fileSize.value >= 0) ==> item.totalBytes == Some(r)
  {
    if item.fileSize.Some? && item.fileSize.value >= 0 then item.fileSize.value
    else if item.totalBytes.Some? && item.totalBytes.value >= 0 then item.totalBytes.value
    else -1
  }

  /** `String.fromCodePoint` of one of the emoji codes. */
  function Glyph(code: int): char
    requires 0x1F000 <= code < 0x1F700
  {
    code as char
  }

  function HostLine(item: DownloadItem): string
  {
    [Glyph(HOST_EMOJI_CODE), ':'] + Hostname(item.url)
  }

  /** ` (label)` when a size is known, else nothing. */
  function SizeSuffix(item: DownloadItem): string
  {
    var size := ChosenSize(item);
    if size >= 0 then " (" + LabelText(SizeLabelOf(Some(size)).value) + ")" else ""
  }

  function FileLine(item: DownloadItem): string
  {
    var filename := Filename(item.filename);
    [Glyph(FileTypeEmojiCode(filename)), ':'] + filename + SizeSuffix(item)
  }

  function ErrorLine(error: string): string
  {
    [Glyph(ERROR_EMOJI_CODE), ':'] + error
  }

  /** The lines of the message: host, file with the size, and the error in the error branch only. */
  function Lines(item: DownloadItem, extMessage: Option<string>): seq<string>
  {
    [HostLine(item), FileLine(item)] + (if extMessage.Some? then [ErrorLine(extMessage.value)] else [])
  }

  /** The message: its lines joined by line breaks. */
  function Message(item: DownloadItem, extMessage: Option<string>): (r: string)
    ensures r == Join(Lines(item, extMessage), '\n')
  {
    var message := HostLine(item) + "\n" + FileLine(item);
    var r := if extMessage.Some? then message + "\n" + ErrorLine(extMessage.value) else message;
    MessageIsJoin(HostLine(item), FileLine(item), if extMessage.Some? then Some(ErrorLine(extMessage.value)) else None);
    r
  }

  lemma MessageIsJoin(host: string, file: string, error: Option<string>)
    ensures Join([host, file] + (if error.Some? then [error.value] else []), '\n')
         == var message := host + "\n" + file; if error.Some? then message + "\n" + error.value else message
  {
    JoinCons(host, [file], '\n');
    assert [host] + [file] == [host, file];
    if error.Some? {
      JoinCons(file, [error.value], '\n');
      JoinCons(host, [file, error.value], '\n');
      assert [host] + [file, error.value] == [host, file] + [error.value];
      assert host + "\n" + (file + "\n" + error.value) == host + "\n" + file + "\n" + error.value;
    } else {
      assert [host, file] + [] == [host, file];
    }
  }

  // ---------------------------------------------------------------------------
  // notifyDownloadItem

  /** The notification for a merged state, if the classification shows one. */
  function Announce(resolution: Resolution, item: DownloadItem, settings: CommonSettings, guid: string)
    : (r: Option<Notification>)
    ensures r.Some? <==> resolution.Resolved? && Classify(resolution.state, resolution.error, settings).Some?
    ensures r.Some? ==> r.value.id == NotificationId(item.id, guid)
    ensures r.Some? ==> var d := Classify(resolution.state, resolution.error, settings).value;
                        r.value.title == Title(d.kind) && r.value.iconPath == IconPath(settings.iconStyle, d.kind)
                        && r.value.message == Message(item, d.extMessage) && r.value.displayTime == d.displayTime
  {
    match resolution
    case ExistsOnly => None
    case Resolved(state, error) =>
      match Classify(state, error, settings)
      case None => None
      case Some(d) =>
        Some(Notification(
          NotificationId(item.id, guid),
          Title(d.kind),
          IconPath(settings.iconStyle, d.kind),
          Message(item, d.extMessage),
          d.displayTime))
  }

  /**
   * onDonwloadItemUpdated after the search (and the tab query) answered:
   * the notification shown, if any, with line 191 as intended.
   */
  function UpdateNotification(delta: DownloadDelta, hits: seq<DownloadItem>, settings: CommonSettings,
                              quietActiveTabs: nat, guid: string): (r: Option<Notification>)
    ensures r.Some? ==> |hits| == 1 && r.value.id == NotificationId(hits[0].id, guid)
    ensures r.Some? ==> DownloadIdOf(r.value.id) == Some(hits[0].id)
    ensures r.Some? <==> ItemToNotify(hits, settings, quietActiveTabs).Some?
                         && NotifyDownloadItemIntended(delta, hits[0], settings, guid).Some?
  {
    match ItemToNotify(hits, settings, quietActiveTabs)
    case None => None
    case Some(item) => NotifyDownloadItemIntended(delta, item, settings, guid)
  }

  /** onDonwloadItemUpdated after the search as written, with line 191 storing the item's error into the state. */
  function UpdateNotificationAsWritten(delta: DownloadDelta, hits: seq<DownloadItem>, settings: CommonSettings,
                                       quietActiveTabs: nat, guid: string): (r: Option<Notification>)
    ensures r.Some? ==> |hits| == 1 && r.value.id == NotificationId(hits[0].id, guid)
    ensures r.Some? ==> DownloadIdOf(r.value.id) == Some(hits[0].id)
    ensures r.Some? <==> ItemToNotify(hits, settings, quietActiveTabs).Some?
                         && NotifyDownloadItem(delta, hits[0], settings, guid).Some?
  {
    match ItemToNotify(hits, settings, quietActiveTabs)
    case None => None
    case Some(item) => NotifyDownloadItem(delta, item, settings, guid)
  }

  /** notifyDownloadItem as written; every notification it shows names the download it is about. */
  function NotifyDownloadItem(delta: DownloadDelta, item: DownloadItem, settings: CommonSettings, guid: string)
    : (r: Option<Notification>)
    ensures r.Some? ==> r.value.id == NotificationId(item.id, guid)
    ensures r.Some? ==> DownloadIdOf(r.value.id) == Some(item.id)
  {
    NotificationIdRoundTrip(item.id, guid);
    Announce(Resolve(delta, item), item, settings, guid)
  }

  /** notifyDownloadItem with line 191 storing the item's error into `currentError`. */
  function NotifyDownloadItemIntended(delta: DownloadDelta, item: DownloadItem, settings: CommonSettings, guid: string)
    : (r: Option<Notification>)
    ensures r.Some? ==> r.value.id == NotificationId(item.id, guid)
    ensures r.Some? ==> DownloadIdOf(r.value.id) == Some(item.id)
  {
    NotificationIdRoundTrip(item.id, guid);
    Announce(ResolveIntended(delta, item), item, settings, guid)
  }

  // ---------------------------------------------------------------------------
  // The notification id names its download

  /** The download id written into a notification id, read back. */
  function DownloadIdOf(notificationId: string): Option<nat>
  {
    var prefix := NOTIFICATION_ID_PREFIX + "-";
    if |notificationId| < |prefix| || notificationId[..|prefix|] != prefix then None
    else
      var digits := Split(notificationId[|prefix|..], '-')[0];
      if AllDigits(digits) then Some(ParseDecimal(digits)) else None
  }

  lemma DigitsHaveNoDash(s: string)
    requires AllDigits(s)
    ensures '-' !in s
  {
  }

  lemma NotificationIdRoundTrip(downloadId: nat, guid: string)
    ensures DownloadIdOf(NotificationId(downloadId, guid)) == Some(downloadId)
  {
    var prefix := NOTIFICATION_ID_PREFIX + "-";
    var digits := Decimal(downloadId);
    var rest := digits + ("-" + guid);
    var id := NotificationId(downloadId, guid);
    assert id == prefix + rest;
    assert id[..|prefix|] == prefix;
    assert id[|prefix|..] == rest;
    DigitsHaveNoDash(digits);
    SplitHeadConcat(digits, "-" + guid, '-');
    assert Split("-" + guid, '-')[0] == "";
    assert digits + "" == digits;
    ParseDecimalOfDecimal(downloadId);
  }

  /** Two notifications share an id only for the same download and the same guid. */
  lemma NotificationIdInjective(d1: nat, g1: string, d2: nat, g2: string)
    requires NotificationId(d1, g1) == NotificationId(d2, g2)
    ensures d1 == d2 && g1 == g2
  {
    NotificationIdRoundTrip(d1, g1);
    NotificationIdRoundTrip(d2, g2);
    var head := NOTIFICATION_ID_PREFIX + "-" + Decimal(d1) + "-";
    assert NotificationId(d1, g1) == head + g1;
    assert NotificationId(d2, g2) == head + g2;
    assert g1 == (head + g1)[|head|..];
    assert g2 == (head + g2)[|head|..];
  }

  // ---------------------------------------------------------------------------
  // The message has one line per part

  lemma SuffixKeepsAbsent(s: string, k: nat, c: char)
    requires k <= |s| && c !in s
    ensures c !in s[k..]
  {
  }

  lemma HostnameKeepsAbsent(url: string, c: char)
    requires c !in url
    ensures c !in Hostname(url)
  {
    if c in Hostname(url) {
      HostnameChars(url, c);
      assert false;
    }
  }

  lemma FileLineSingle(item: DownloadItem)
    requires '\n' !in item.filename
    ensures '\n' !in FileLine(item)
  {
    var filename := Filename(item.filename);
    SuffixKeepsAbsent(item.filename, |item.filename| - |filename|, '\n');
    var glyph := Glyph(FileTypeEmojiCode(filename));
    assert glyph != '\n';
    var suffix := SizeSuffix(item);
    SizeSuffixSingle(item);
    assert FileLine(item) == [glyph, ':'] + filename + suffix;
  }

  lemma SizeSuffixSingle(item: DownloadItem)
    ensures '\n' !in SizeSuffix(item)
  {
    var size := ChosenSize(item);
    if size >= 0 {
      var text := LabelText(SizeLabelOf(Some(size)).value);
      assert '\n' !in text;
      assert SizeSuffix(item) == " (" + text + ")";
    }
  }

  /**
   * Split at newlines, the message is the host line, the file line (with
   * the size when one is known), and the error line exactly when there is
   * an error text.
   */
  lemma MessageLines(item: DownloadItem, extMessage: Option<string>)
    requires '\n' !in item.url && '\n' !in item.filename
    requires extMessage.Some? ==> '\n' !in extMessage.value
    ensures Split(Message(item, extMessage), '\n') == Lines(item, extMessage)
    ensures |Lines(item, extMessage)| == if extMessage.Some? then 3 else 2
  {
    LinesSingle(item, extMessage);
    var error := if extMessage.Some? then Some(ErrorLine(extMessage.value)) else None;
    SplitLines(HostLine(item), FileLine(item), error);
  }

  lemma LinesSingle(item: DownloadItem, extMessage: Option<string>)
    requires '\n' !in item.url && '\n' !in item.filename
    requires extMessage.Some? ==> '\n' !in extMessage.value
    ensures '\n' !in HostLine(item) && '\n' !in FileLine(item)
    ensures extMessage.Some? ==> '\n' !in ErrorLine(extMessage.value)
  {
    assert '\n' !in HostLine(item) by {
      HostnameKeepsAbsent(item.url, '\n');
      assert HostLine(item) == [Glyph(HOST_EMOJI_CODE), ':'] + Hostname(item.url);
    }
    FileLineSingle(item);
    if extMessage.Some? {
      assert ErrorLine(extMessage.value) == [Glyph(ERROR_EMOJI_CODE), ':'] + extMessage.value;
    }
  }

  /** Two or three lines without line breaks, joined by line breaks, split back into those lines. */
  lemma SplitLines(host: string, file: string, error: Option<string>)
    requires '\n' !in host && '\n' !in file && (error.Some? ==> '\n' !in error.value)
    ensures var lines := [host, file] + (if error.Some? then [error.value] else []);
            Split(Join(lines, '\n'), '\n') == lines
  {
    var lines := [host, file] + (if error.Some? then [error.value] else []);
    if error.Some? {
      assert lines == [host, file, error.value];
    } else {
      assert lines == [host, file];
    }
    SplitJoin(lines, '\n');
  }

  /** The size suffix appears exactly when the file size or, failing that, the total is known. */
  lemma SizeShownWhenKnown(item: DownloadItem)
    ensures SizeSuffix(item) != ""
        <==> (item.fileSize.Some? && item.fileSize.value >= 0) || (item.totalBytes.Some? && item.totalBytes.value >= 0)
    ensures item.fileSize.Some? && item.fileSize.value >= 0
        ==> SizeSuffix(item) == " (" + LabelText(SizeLabelOf(item.fileSize).value) + ")"
  {
  }

  // ---------------------------------------------------------------------------
  // What notifyDownloadItem shows

  /** The notification put together for a merged state the classification accepts. */
  lemma AnnounceOf(resolution: Resolution, item: DownloadItem, settings: CommonSettings, guid: string, d: Branch)
    requires resolution.Resolved? && Classify(resolution.state, resolution.error, settings) == Some(d)
    ensures Announce(resolution, item, settings, guid)
         == Some(Notification(NotificationId(item.id, guid), Title(d.kind), IconPath(settings.iconStyle, d.kind),
                              Message(item, d.extMessage), d.displayTime))
  {
  }

  /** The four branches have four different titles. */
  lemma TitlesDistinct(k1: Kind, k2: Kind)
    ensures Title(k1) == Title(k2) <==> k1 == k2
  {
    if k1 != k2 && |Title(k1)| == |Title(k2)| {
      assert Title(k1)[9] != Title(k2)[9];
    }
  }

  /** In any one icon style, the four branches have four different icons. */
  lemma IconsDistinct(k1: Kind, k2: Kind, iconStyle: Option<string>)
    ensures IconPath(iconStyle, k1) == IconPath(iconStyle, k2) <==> k1 == k2
  {
    if k1 != k2 {
      assert |IconName(k1)| != |IconName(k2)|;
    }
  }

  /** A delta in which only `exists` changed shows nothing. */
  lemma ExistsOnlyIsSilent(delta: DownloadDelta, item: DownloadItem, settings: CommonSettings, guid: string)
    requires CurrentOf(delta.state).None? && CurrentOf(delta.error).None? && delta.existsChange.Some?
    ensures NotifyDownloadItem(delta, item, settings, guid).None?
    ensures NotifyDownloadItemIntended(delta, item, settings, guid).None?
  {
  }

  /** A new download with no error is announced as started, with the start display time. */
  lemma CreatedDownloadAnnouncesStart(item: DownloadItem, settings: CommonSettings, guid: string)
    requires !Present(item.error)
    ensures NotifyDownloadItem(CreatedDelta(item.id), item, settings, guid)
         == Some(Notification(NotificationId(item.id, guid), "download start",
                              IconPath(settings.iconStyle, Start),
                              Message(item, None), settings.startDisplayTime))
  {
  }

  /** A download that completed without error is announced as complete, with the complete display time. */
  lemma CompleteAnnounced(delta: DownloadDelta, item: DownloadItem, settings: CommonSettings, guid: string)
    requires CurrentOf(delta.error).None? && !Present(item.error)
    requires Prefer(CurrentOf(delta.state), ItemState(item)) == Some(STATE_COMPLETE)
    requires CurrentOf(delta.state).Some? || delta.existsChange.None?
    ensures NotifyDownloadItem(delta, item, settings, guid)
         == Some(Notification(NotificationId(item.id, guid), "download complete",
                              IconPath(settings.iconStyle, Complete),
                              Message(item, None), settings.completeDisplayTime))
  {
    var r := Resolve(delta, item);
    assert r == Resolved(Some(STATE_COMPLETE), None);
    assert STATE_COMPLETE != STATE_IN_PROGRESS by { assert STATE_COMPLETE[0] != STATE_IN_PROGRESS[0]; }
    assert STATE_COMPLETE != STATE_INTERRUPTED by { assert STATE_COMPLETE[0] != STATE_INTERRUPTED[0]; }
    AnnounceOf(r, item, settings, guid, Branch(Complete, settings.completeDisplayTime, None));
  }

  /** A download the user cancelled is announced as cancelled, with no error line. */
  lemma CancelAnnounced(delta: DownloadDelta, item: DownloadItem, settings: CommonSettings, guid: string)
    requires CurrentOf(delta.error) == Some(ERROR_CODE_USER_CANCEL)
    requires Prefer(CurrentOf(delta.state), ItemState(item)) == Some(STATE_INTERRUPTED)
    ensures NotifyDownloadItem(delta, item, settings, guid)
         == Some(Notification(NotificationId(item.id, guid), "download cancel",
                              IconPath(settings.iconStyle, Cancel),
                              Message(item, None), settings.cancelDisplayTime))
  {
  }

  /** An error the delta reports, other than one the user caused, is announced with its code on the third line. */
  lemma DeltaErrorAnnounced(delta: DownloadDelta, item: DownloadItem, settings: CommonSettings, guid: string)
    requires CurrentOf(delta.error).Some? && !IsUserError(CurrentOf(delta.error).value)
    ensures NotifyDownloadItem(delta, item, settings, guid)
         == Some(Notification(NotificationId(item.id, guid), "download error",
                              IconPath(settings.iconStyle, Failure),
                              Message(item, CurrentOf(delta.error)), settings.errorDisplayTime))
  {
    UserErrorExamples();
    var error := CurrentOf(delta.error);
    assert error != Some(ERROR_CODE_USER_CANCEL);
    var r := Resolve(delta, item);
    assert r.Resolved? && r.error == error;
    AnnounceOf(r, item, settings, guid, Branch(Failure, settings.errorDisplayTime, error));
  }

  /** An error the user caused, other than a cancelled download, shows nothing. */
  lemma UserErrorIsSilent(delta: DownloadDelta, item: DownloadItem, settings: CommonSettings, guid: string)
    requires CurrentOf(delta.error).Some? && IsUserError(CurrentOf(delta.error).value)
    requires Prefer(CurrentOf(delta.state), ItemState(item)) != Some(STATE_INTERRUPTED)
             || CurrentOf(delta.error) != Some(ERROR_CODE_USER_CANCEL)
    ensures NotifyDownloadItem(delta, item, settings, guid).None?
    ensures NotifyDownloadItemIntended(delta, item, settings, guid).None?
  {
  }

  lemma UserErrorExamples()
    ensures IsUserError(ERROR_CODE_USER_CANCEL) && IsUserError("USER_SHUTDOWN")
    ensures !IsUserError("USER_") && !IsUserError("NETWORK_FAILED") && !IsUserError("USER_X\n")
  {
    UserErrorMatches();
    UserErrorMismatches();
  }

  lemma UserErrorMatches()
    ensures IsUserError(ERROR_CODE_USER_CANCEL) && IsUserError("USER_SHUTDOWN")
  {
  }

  lemma UserErrorMismatches()
    ensures !IsUserError("USER_") && !IsUserError("NETWORK_FAILED") && !IsUserError("USER_X\n")
  {
    assert "USER_"[..5] == "USER_";
    assert "NETWORK_FAILED"[..5] != "USER_" by { assert "NETWORK_FAILED"[0] == 'N'; }
    assert "USER_X\n"[6] == '\n';
  }

  // ---------------------------------------------------------------------------
  // Line 191: the item's error is stored into the state

  /**
   * As written, an error that only the queried item carries replaces the
   * state, and the error stays null: unless the error code happens to spell
   * a state, nothing is shown at all.
   */
  lemma ItemErrorSilencesNotification(delta: DownloadDelta, item: DownloadItem, settings: CommonSettings, guid: string)
    requires CurrentOf(delta.error).None? && Present(item.error)
    requires item.error.value != STATE_IN_PROGRESS && item.error.value != STATE_COMPLETE
    ensures NotifyDownloadItem(delta, item, settings, guid).None?
  {
  }

  /** With the error stored into the error, the item's error is announced like a delta error. */
  lemma IntendedAnnouncesItemError(delta: DownloadDelta, item: DownloadItem, settings: CommonSettings, guid: string)
    requires CurrentOf(delta.error).None? && Present(item.error) && !IsUserError(item.error.value)
    requires CurrentOf(delta.state).Some? || delta.existsChange.None?
    ensures NotifyDownloadItemIntended(delta, item, settings, guid)
         == Some(Notification(NotificationId(item.id, guid), "download error",
                              IconPath(settings.iconStyle, Failure),
                              Message(item, item.error), settings.errorDisplayTime))
  {
    UserErrorExamples();
    var r := ResolveIntended(delta, item);
    assert r.Resolved? && r.error == item.error;
    assert item.error != Some(ERROR_CODE_USER_CANCEL);
    AnnounceOf(r, item, settings, guid, Branch(Failure, settings.errorDisplayTime, item.error));
  }

  /** The two versions differ only when the error comes from the item alone. */
  lemma IntendedAgreesOtherwise(delta: DownloadDelta, item: DownloadItem, settings: CommonSettings, guid: string)
    requires CurrentOf(delta.error).Some? || !Present(item.error)
    ensures NotifyDownloadItem(delta, item, settings, guid) == NotifyDownloadItemIntended(delta, item, settings, guid)
  {
  }

  /** An interrupted download whose error only the item reports: shown as written, silent; intended, an error. */
  lemma NetworkFailureExample()
    ensures var delta := DownloadDelta(7, Some(Change(Some(STATE_IN_PROGRESS), Some(STATE_INTERRUPTED))), None, None, false);
            var item := DownloadItem(7, "https://example.org/a.zip", "/tmp/a.zip", STATE_INTERRUPTED,
                                     Some("NETWORK_FAILED"), None, None);
            NotifyDownloadItem(delta, item, FillDefaults(EMPTY_SETTINGS), "g").None?
            && NotifyDownloadItemIntended(delta, item, FillDefaults(EMPTY_SETTINGS), "g").Some?
            && NotifyDownloadItemIntended(delta, item, FillDefaults(EMPTY_SETTINGS), "g").value.title == "download error"
  {
    var delta := DownloadDelta(7, Some(Change(Some(STATE_IN_PROGRESS), Some(STATE_INTERRUPTED))), None, None, false);
    var item := DownloadItem(7, "https://example.org/a.zip", "/tmp/a.zip", STATE_INTERRUPTED,
                             Some("NETWORK_FAILED"), None, None);
    assert "NETWORK_FAILED"[0] == 'N';
    assert !IsUserError("NETWORK_FAILED") by { assert "NETWORK_FAILED"[..5] != "USER_" by { assert "NETWORK_FAILED"[..5][0] == 'N'; } }
    ItemErrorSilencesNotification(delta, item, FillDefaults(EMPTY_SETTINGS), "g");
    IntendedAnnouncesItemError(delta, item, FillDefaults(EMPTY_SETTINGS), "g");
  }
}
