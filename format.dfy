/**
 * The text helpers of background.js: the host of a download URL, the file
 * name of a local path, and the emoji code that stands for a file's type.
 */
module Format {
  import opened Wrappers
  import opened Strings

  // ---------------------------------------------------------------------------
  // getHostname

  /** `url.indexOf("://") > -1` */
  predicate HasSchemeSeparator(url: string)
    decreases |url|
  {
    |url| >= 3 && (url[..3] == "://" || HasSchemeSeparator(url[1..]))
  }

  /** "://" starts at index `i` of the URL. */
  predicate SeparatorAt(url: string, i: int)
  {
    0 <= i <= |url| - 3 && url[i] == ':' && url[i + 1] == '/' && url[i + 2] == '/'
  }

  /** The recursive predicate holds exactly when "://" occurs somewhere in the URL. */
  lemma {:induction false} SchemeSeparatorOccurs(url: string)
    ensures HasSchemeSeparator(url) <==> exists i :: SeparatorAt(url, i)
    decreases |url|
  {
    if |url| >= 3 {
      var tail := url[1..];
      SchemeSeparatorOccurs(tail);
      assert forall j :: 0 <= j ==> (SeparatorAt(tail, j) <==> SeparatorAt(url, j + 1));
      if url[..3] == "://" {
        assert SeparatorAt(url, 0);
      } else {
        assert !SeparatorAt(url, 0);
        if i :| SeparatorAt(url, i) {
          assert SeparatorAt(tail, i - 1);
        }
      }
    }
  }

  /** A URL holding "://" has two slashes, so `url.split("/")[2]` exists. */
  lemma {:induction false} SchemeSeparatorGivesThreeFields(url: string)
    requires HasSchemeSeparator(url)
    ensures |Split(url, '/')| >= 3
    decreases |url|
  {
    if url[..3] == "://" {
      assert url[0] == ':' && url[1] == '/' && url[2] == '/';
      assert Count(url[2..], '/') >= 1;
      assert Count(url[1..], '/') >= 2;
    } else {
      SchemeSeparatorGivesThreeFields(url[1..]);
    }
  }

  lemma {:induction false} SchemeSeparatorAfter(scheme: string, rest: string)
    ensures HasSchemeSeparator(scheme + "://" + rest)
    decreases |scheme|
  {
    var url := scheme + "://" + rest;
    if |scheme| == 0 {
      assert url[..3] == "://";
    } else {
      assert url[1..] == scheme[1..] + "://" + rest;
      SchemeSeparatorAfter(scheme[1..], rest);
    }
  }

  /**
   * The host of a URL: the third `/`-field when the URL has a scheme, the
   * first otherwise, cut at the first `:` (the port) and then at the first `?`.
   */
  function Hostname(url: string): (r: string)
    ensures '/' !in r && ':' !in r && '?' !in r
  {
    var authority :=
      if HasSchemeSeparator(url) then
        SchemeSeparatorGivesThreeFields(url);
        Split(url, '/')[2]
      else
        Split(url, '/')[0];
    var withoutPort := Split(authority, ':')[0];
    Split(withoutPort, '?')[0]
  }

  /** Every character of the host occurs in the URL. */
  lemma HostnameChars(url: string, c: char)
    requires c in Hostname(url)
    ensures c in url
  {
    var authority :=
      if HasSchemeSeparator(url) then
        SchemeSeparatorGivesThreeFields(url);
        Split(url, '/')[2]
      else
        Split(url, '/')[0];
    var withoutPort := Split(authority, ':')[0];
    SplitPieceChars(withoutPort, '?', 0, c);
    SplitPieceChars(authority, ':', 0, c);
    if HasSchemeSeparator(url) {
      SplitPieceChars(url, '/', 2, c);
    } else {
      SplitPieceChars(url, '/', 0, c);
    }
  }

  /** The first `sep`-field of a string that starts with `sep` is empty. */
  lemma FirstFieldEmpty(s: string, sep: char)
    requires |s| > 0 && s[0] == sep
    ensures Split(s, sep)[0] == ""
  {
  }

  /**
   * A URL made of a scheme, "://", a host and a tail that starts with a path,
   * a port or a query (or is empty) has exactly that host.
   */
  lemma HostnameOfUrl(scheme: string, host: string, tail: string)
    requires '/' !in scheme
    requires '/' !in host && ':' !in host && '?' !in host
    requires tail == "" || tail[0] == '/' || tail[0] == ':' || tail[0] == '?'
    ensures Hostname(scheme + "://" + host + tail) == host
  {
    var url := scheme + "://" + host + tail;
    SchemeSeparatorAfter(scheme, host + tail);
    assert url == scheme + "://" + (host + tail);
    assert url == (scheme + ":") + ['/'] + (['/'] + (host + tail));
    SplitAfterSeparator(scheme + ":", ['/'] + (host + tail), '/');
    SplitAfterSeparator("", host + tail, '/');
    assert "" + ['/'] + (host + tail) == ['/'] + (host + tail);
    assert Split(url, '/')[2] == Split(host + tail, '/')[0];
    SplitHeadConcat(host, tail, '/');
    var t1 := Split(tail, '/')[0];
    SplitHeadConcat(host, t1, ':');
    var t2 := Split(t1, ':')[0];
    SplitHeadConcat(host, t2, '?');
    if |t2| > 0 {
      assert t2[0] == t1[0] == tail[0];
      if tail[0] == '/' {
        FirstFieldEmpty(tail, '/');
      } else if tail[0] == ':' {
        FirstFieldEmpty(t1, ':');
      } else {
        FirstFieldEmpty(t2, '?');
      }
    }
    assert host + Split(t2, '?')[0] == host;
  }

  // ---------------------------------------------------------------------------
  // getFilename

  /** The file name of a local path: `\\` read as `/`, then the text after the last `/`. */
  function Filename(path: string): (r: string)
    ensures '/' !in r && '\\' !in r
    ensures |r| <= |path| && r == path[|path| - |r|..]
  {
    var normalized := ReplaceAll(path, '\\', '/');
    var cut := LastIndexOf(normalized, '/') + 1;
    assert forall j :: cut <= j < |path| ==> path[j] == normalized[j];
    normalized[cut..]
  }

  lemma {:induction false} FilenameIdempotent(path: string)
    ensures Filename(Filename(path)) == Filename(path)
  {
    var name := Filename(path);
    assert ReplaceAll(name, '\\', '/') == name;
    assert LastIndexOf(name, '/') == -1;
  }

  /** The name after the last separator of either kind is the file name. */
  lemma FilenameAfterSeparator(dir: string, sep: char, name: string)
    requires sep == '/' || sep == '\\'
    requires '/' !in name && '\\' !in name
    ensures Filename(dir + [sep] + name) == name
  {
    var path := dir + [sep] + name;
    var normalized := ReplaceAll(path, '\\', '/');
    assert normalized[|dir|] == '/';
    assert forall j :: |dir| < j < |path| ==> normalized[j] == name[j - |dir| - 1];
    assert LastIndexOf(normalized, '/') == |dir|;
    assert normalized[|dir| + 1..] == name;
  }

  // ---------------------------------------------------------------------------
  // getFileTypeEmojiCode

  const ARCHIVE_CODE := 0x1F5DC
  const VIDEO_CODE := 0x1F39E
  const EXECUTABLE_CODE := 0x1F5A5
  const AUDIO_CODE := 0x1F3B5
  const DISC_CODE := 0x1F4BF
  const DOCUMENT_CODE := 0x1F4C4
  const IMAGE_CODE := 0x1F5BC

  /** The extensions of each regular expression, in lower case; the archive one also has `z[0-9]{2}`. */
  const ARCHIVE_EXTENSIONS: seq<string> := ["zip", "rar", "7z", "lzh", "z", "tar", "gz", "cab", "bz2", "z", "sit"]
  const VIDEO_EXTENSIONS: seq<string> := ["avi", "wmv", "mp4", "mkv", "mpg", "mpeg", "mov", "ra", "webm", "flv", "vod", "ogv"]
  const EXECUTABLE_EXTENSIONS: seq<string> := ["exe", "scr"]
  const AUDIO_EXTENSIONS: seq<string> := ["mp3", "ogg", "ape", "mid", "aac", "flac", "tta", "wav", "wma"]
  const DISC_EXTENSIONS: seq<string> := ["iso", "mdf", "mds", "cue", "ccd", "cdi", "img"]
  const DOCUMENT_EXTENSIONS: seq<string> := ["txt", "doc", "xls", "docx", "xlsx", "odt", "pdf", "rtf", "log", "md", "html", "htm", "xml"]
  const IMAGE_EXTENSIONS: seq<string> := ["bmp", "jpg", "gif", "png", "webp", "pic", "mng", "psd", "tga", "tiff", "tif", "svg"]

  /** `z[0-9]{2}` against a lower-cased candidate. */
  predicate IsNumberedZ(ext: string)
  {
    |ext| == 3 && ext[0] == 'z' && IsDigit(ext[1]) && IsDigit(ext[2])
  }

  /** `s` ends with a dot and `n` more characters whose lower-case form satisfies the pattern. */
  predicate EndsWithDotThen(s: string, n: nat, lowered: string -> bool)
  {
    |s| > n && s[|s| - n - 1] == '.' && lowered(LowerAll(s[|s| - n..]))
  }

  /** The regular expression `\.(e1|e2|...)$` with the `i` flag. */
  predicate MatchesExtensions(s: string, exts: seq<string>)
    ensures MatchesExtensions(s, exts) ==> Extension(s).Some?
  {
    exists k :: 0 <= k < |exts| && EndsWithDotThen(s, |exts[k]|, x => x == exts[k])
  }

  /** The regular expression `\.z[0-9]{2}$` with the `i` flag (one alternative of the archive pattern). */
  predicate MatchesNumberedZ(s: string)
    ensures MatchesNumberedZ(s) <==> Extension(s).Some? && IsNumberedZ(LowerAll(Extension(s).value))
  {
    EndsWithDotThenIffExtension(s, 3, IsNumberedZ);
    EndsWithDotThen(s, 3, IsNumberedZ)
  }

  /** The code of the first group that matched, in the order archive, video, executable, audio, disc, document, image. */
  function FirstMatchCode(archive: bool, video: bool, executable: bool, audio: bool, disc: bool, document: bool, image: bool): (r: int)
    ensures r in {ARCHIVE_CODE, VIDEO_CODE, EXECUTABLE_CODE, AUDIO_CODE, DISC_CODE, DOCUMENT_CODE, IMAGE_CODE}
    ensures r == ARCHIVE_CODE <==> archive
    ensures r == VIDEO_CODE <==> !archive && video
    ensures r == EXECUTABLE_CODE <==> !archive && !video && executable
    ensures r == AUDIO_CODE <==> !archive && !video && !executable && audio
    ensures r == DISC_CODE <==> !archive && !video && !executable && !audio && disc
    ensures r == DOCUMENT_CODE <==> !archive && !video && !executable && !audio && !disc && (document || !image)
    ensures r == IMAGE_CODE <==> !archive && !video && !executable && !audio && !disc && !document && image
  {
    if archive then ARCHIVE_CODE
    else if video then VIDEO_CODE
    else if executable then EXECUTABLE_CODE
    else if audio then AUDIO_CODE
    else if disc then DISC_CODE
    else if document then DOCUMENT_CODE
    else if image then IMAGE_CODE
    else DOCUMENT_CODE
  }

  /** The emoji code of a file name, the seven patterns tried in the order of the source. */
  function FileTypeEmojiCode(filename: string): (r: int)
    ensures r in {ARCHIVE_CODE, VIDEO_CODE, EXECUTABLE_CODE, AUDIO_CODE, DISC_CODE, DOCUMENT_CODE, IMAGE_CODE}
  {
    FirstMatchCode(
      MatchesExtensions(filename, ARCHIVE_EXTENSIONS) || MatchesNumberedZ(filename),
      MatchesExtensions(filename, VIDEO_EXTENSIONS),
      MatchesExtensions(filename, EXECUTABLE_EXTENSIONS),
      MatchesExtensions(filename, AUDIO_EXTENSIONS),
      MatchesExtensions(filename, DISC_EXTENSIONS),
      MatchesExtensions(filename, DOCUMENT_EXTENSIONS),
      MatchesExtensions(filename, IMAGE_EXTENSIONS))
  }

  /** The text after the last `.` of a name, if it has one. */
  function Extension(s: string): (r: Option<string>)
    ensures r.Some? <==> '.' in s
    ensures r.Some? ==> '.' !in r.value
  {
    var dot := LastIndexOf(s, '.');
    if dot < 0 then None else Some(s[dot + 1..])
  }

  /** Reference classification of an extension that is already in lower case. */
  function ExtensionCode(ext: string): int
  {
    FirstMatchCode(
      ext in ARCHIVE_EXTENSIONS || IsNumberedZ(ext),
      ext in VIDEO_EXTENSIONS,
      ext in EXECUTABLE_EXTENSIONS,
      ext in AUDIO_EXTENSIONS,
      ext in DISC_EXTENSIONS,
      ext in DOCUMENT_EXTENSIONS,
      ext in IMAGE_EXTENSIONS)
  }

  lemma LowerKeepsDots(s: string)
    ensures forall i :: 0 <= i < |s| ==> (LowerAll(s)[i] == '.' <==> s[i] == '.')
  {
  }

  /** A dot followed by `n` dot-free characters at the end is exactly the last dot. */
  lemma DotSuffixIsExtension(s: string, n: nat)
    requires |s| > n && s[|s| - n - 1] == '.' && '.' !in s[|s| - n..]
    ensures Extension(s) == Some(s[|s| - n..])
  {
    var p := |s| - n - 1;
    var dot := LastIndexOf(s, '.');
    assert forall j :: p < j < |s| ==> s[j] == s[|s| - n..][j - p - 1];
    assert dot == p;
  }

  /** Ending in a dot and a dot-free pattern match means the extension matches. */
  lemma EndsWithDotThenIffExtension(s: string, n: nat, lowered: string -> bool)
    requires forall x :: lowered(x) ==> |x| == n && '.' !in x
    ensures EndsWithDotThen(s, n, lowered)
        <==> Extension(s).Some? && lowered(LowerAll(Extension(s).value))
  {
    if EndsWithDotThen(s, n, lowered) {
      var suffix := s[|s| - n..];
      LowerKeepsDots(suffix);
      assert '.' !in suffix;
      DotSuffixIsExtension(s, n);
    }
    if Extension(s).Some? && lowered(LowerAll(Extension(s).value)) {
      var dot := LastIndexOf(s, '.');
      assert |s[dot + 1..]| == n;
      assert dot == |s| - n - 1;
    }
  }

  predicate DotFree(exts: seq<string>)
  {
    forall k :: 0 <= k < |exts| ==> '.' !in exts[k]
  }

  lemma MatchesExtensionsIffExtension(s: string, exts: seq<string>)
    requires DotFree(exts)
    ensures MatchesExtensions(s, exts)
        <==> Extension(s).Some? && LowerAll(Extension(s).value) in exts
  {
    if MatchesExtensions(s, exts) {
      var k :| 0 <= k < |exts| && EndsWithDotThen(s, |exts[k]|, x => x == exts[k]);
      EndsWithDotThenIffExtension(s, |exts[k]|, x => x == exts[k]);
    }
    if Extension(s).Some? && LowerAll(Extension(s).value) in exts {
      var k :| 0 <= k < |exts| && exts[k] == LowerAll(Extension(s).value);
      EndsWithDotThenIffExtension(s, |exts[k]|, x => x == exts[k]);
    }
  }

  /** One pattern of the chain matches exactly when the lower-cased extension is in its list. */
  predicate GroupAgrees(filename: string, exts: seq<string>)
  {
    MatchesExtensions(filename, exts)
      == (Extension(filename).Some? && LowerAll(Extension(filename).value) in exts)
  }

  lemma VideoGroupAgrees(filename: string)
    ensures GroupAgrees(filename, VIDEO_EXTENSIONS)
  {
    assert DotFree(VIDEO_EXTENSIONS);
    MatchesExtensionsIffExtension(filename, VIDEO_EXTENSIONS);
  }

  lemma ExecutableGroupAgrees(filename: string)
    ensures GroupAgrees(filename, EXECUTABLE_EXTENSIONS)
  {
    assert DotFree(EXECUTABLE_EXTENSIONS);
    MatchesExtensionsIffExtension(filename, EXECUTABLE_EXTENSIONS);
  }

  lemma AudioGroupAgrees(filename: string)
    ensures GroupAgrees(filename, AUDIO_EXTENSIONS)
  {
    assert DotFree(AUDIO_EXTENSIONS);
    MatchesExtensionsIffExtension(filename, AUDIO_EXTENSIONS);
  }

  lemma DiscGroupAgrees(filename: string)
    ensures GroupAgrees(filename, DISC_EXTENSIONS)
  {
    assert DotFree(DISC_EXTENSIONS);
    MatchesExtensionsIffExtension(filename, DISC_EXTENSIONS);
  }

  lemma DocumentGroupAgrees(filename: string)
    ensures GroupAgrees(filename, DOCUMENT_EXTENSIONS)
  {
    assert DotFree(DOCUMENT_EXTENSIONS);
    MatchesExtensionsIffExtension(filename, DOCUMENT_EXTENSIONS);
  }

  lemma ImageGroupAgrees(filename: string)
    ensures GroupAgrees(filename, IMAGE_EXTENSIONS)
  {
    assert DotFree(IMAGE_EXTENSIONS);
    MatchesExtensionsIffExtension(filename, IMAGE_EXTENSIONS);
  }

  lemma OtherGroupsByExtension(filename: string)
    ensures GroupAgrees(filename, VIDEO_EXTENSIONS) && GroupAgrees(filename, EXECUTABLE_EXTENSIONS)
    ensures GroupAgrees(filename, AUDIO_EXTENSIONS) && GroupAgrees(filename, DISC_EXTENSIONS)
    ensures GroupAgrees(filename, DOCUMENT_EXTENSIONS) && GroupAgrees(filename, IMAGE_EXTENSIONS)
  {
    VideoGroupAgrees(filename);
    ExecutableGroupAgrees(filename);
    AudioGroupAgrees(filename);
    DiscGroupAgrees(filename);
    DocumentGroupAgrees(filename);
    ImageGroupAgrees(filename);
  }

  lemma ArchiveByExtension(filename: string)
    ensures (MatchesExtensions(filename, ARCHIVE_EXTENSIONS) || MatchesNumberedZ(filename))
        == (Extension(filename).Some?
            && (LowerAll(Extension(filename).value) in ARCHIVE_EXTENSIONS
                || IsNumberedZ(LowerAll(Extension(filename).value))))
  {
    assert DotFree(ARCHIVE_EXTENSIONS);
    MatchesExtensionsIffExtension(filename, ARCHIVE_EXTENSIONS);
  }

  /**
   * The source's chain of case-insensitive patterns classifies a name by its
   * lower-cased extension alone; a name without a dot is a document.
   */
  lemma FileTypeByExtension(filename: string)
    ensures FileTypeEmojiCode(filename)
         == if Extension(filename).None? then DOCUMENT_CODE
            else ExtensionCode(LowerAll(Extension(filename).value))
  {
    ArchiveByExtension(filename);
    OtherGroupsByExtension(filename);
  }

  /** Two strings with the given character at the same places have the same last one. */
  lemma LastIndexOfAgrees(f: string, g: string, c: char)
    requires |f| == |g|
    requires forall i :: 0 <= i < |f| ==> (f[i] == c <==> g[i] == c)
    ensures LastIndexOf(f, c) == LastIndexOf(g, c)
  {
  }

  /** The extension of a lower-cased name is the lower-cased extension. */
  lemma ExtensionLowered(s: string)
    ensures Extension(LowerAll(s)) == if Extension(s).None? then None else Some(LowerAll(Extension(s).value))
  {
    LowerKeepsDots(s);
    LastIndexOfAgrees(s, LowerAll(s), '.');
    var dot := LastIndexOf(s, '.');
    if dot >= 0 {
      LowerAllSuffix(s, dot + 1);
    }
  }

  /** Changing the case of letters never changes the emoji code. */
  lemma FileTypeIgnoresCase(f: string, g: string)
    requires LowerAll(f) == LowerAll(g)
    ensures FileTypeEmojiCode(f) == FileTypeEmojiCode(g)
  {
    FileTypeByExtension(f);
    FileTypeByExtension(g);
    ExtensionLowered(f);
    ExtensionLowered(g);
  }

  /** The text after the final dot of `stem.ext` is `ext`. */
  lemma ExtensionOfDotted(stem: string, ext: string)
    requires '.' !in ext
    ensures Extension(stem + "." + ext) == Some(ext)
  {
    var s := stem + "." + ext;
    assert s[|s| - |ext|..] == ext;
    DotSuffixIsExtension(s, |ext|);
  }

  lemma UpperCaseArchive()
    ensures FileTypeEmojiCode("Archive.ZIP") == ARCHIVE_CODE
  {
    ExtensionOfDotted("Archive", "ZIP");
    assert "Archive" + "." + "ZIP" == "Archive.ZIP";
    assert LowerAll("ZIP") == "zip";
    FileTypeByExtension("Archive.ZIP");
  }

  /** Any name whose lower-cased extension is in none of the lists is shown as a document. */
  lemma UnlistedExtensionIsDocument(filename: string)
    requires Extension(filename).Some?
    requires var ext := LowerAll(Extension(filename).value);
      && ext !in ARCHIVE_EXTENSIONS && !IsNumberedZ(ext) && ext !in VIDEO_EXTENSIONS
      && ext !in EXECUTABLE_EXTENSIONS && ext !in AUDIO_EXTENSIONS && ext !in DISC_EXTENSIONS
      && ext !in IMAGE_EXTENSIONS
    ensures FileTypeEmojiCode(filename) == DOCUMENT_CODE
  {
    FileTypeByExtension(filename);
  }
}
