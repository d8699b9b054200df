/**
 * The improved command-line downloader (`YouTubeDownloader`): URL pattern
 * check, file-name sanitising, the skip-if-present check, the per-URL outcome
 * with its success/failed/skipped counters, and the CSV batch with its summary.
 * The engine's answers and the existing files are inputs; the counters and the
 * set of existing files are threaded through as a value.
 */
module BajadorMejorado {
  import opened Wrappers
  import opened PyStr
  import Csv
  import opened Ydl

  // ---------------------------------------------------------------------------
  // Configuration
  // ---------------------------------------------------------------------------

  /** The downloader's settings, fixed at construction. */
  datatype Downloader = Downloader(
    outputFolder: string,
    audioQuality: string,
    audioFormat: string,
    ffmpegPath: Option<string>,
    skipExisting: bool)

  const DefaultAudioQuality: string := "192"
  const DefaultAudioFormat: string := "mp3"

  /** Python truthiness of an optional string: present and non-empty. */
  predicate Truthy(s: Option<string>) {
    s.Some? && s.value != ""
  }

  /** `__init__`: `ffmpeg_path or self._find_ffmpeg()`, so a missing or empty
      explicit path falls back to the detected one; the rest is stored as given. */
  function NewDownloader(outputFolder: string, audioQuality: string, audioFormat: string,
                         explicitFfmpeg: Option<string>, detectedFfmpeg: Option<string>,
                         skipExisting: bool): (r: Downloader)
    ensures Truthy(explicitFfmpeg) ==> r.ffmpegPath == explicitFfmpeg
    ensures !Truthy(explicitFfmpeg) ==> r.ffmpegPath == detectedFfmpeg
    ensures r.outputFolder == outputFolder && r.audioQuality == audioQuality
    ensures r.audioFormat == audioFormat && r.skipExisting == skipExisting
  {
    Downloader(outputFolder, audioQuality, audioFormat,
               if Truthy(explicitFfmpeg) then explicitFfmpeg else detectedFfmpeg,
               skipExisting)
  }

  // ---------------------------------------------------------------------------
  // URL check
  // ---------------------------------------------------------------------------

  /** The substrings `_is_valid_url` looks for, in the order it tries them. */
  const YoutubePatterns: seq<string> :=
    ["youtube.com/watch", "youtu.be/", "youtube.com/playlist", "youtube.com/watch?v="]

  /** `_is_valid_url`: some pattern occurs somewhere in the URL. No URL shorter than
      the shortest pattern passes, and each of the first three patterns suffices. */
  predicate IsValidUrl(url: string): (r: bool)
    ensures r ==> |url| >= 9
    ensures Contains(url, "youtube.com/watch") ==> r
    ensures Contains(url, "youtu.be/") ==> r
    ensures Contains(url, "youtube.com/playlist") ==> r
  {
    assert YoutubePatterns[0] == "youtube.com/watch" && YoutubePatterns[1] == "youtu.be/";
    assert YoutubePatterns[2] == "youtube.com/playlist";
    exists i :: 0 <= i < |YoutubePatterns| && Contains(url, YoutubePatterns[i])
  }

  /** The check accepts exactly the URLs containing one of three substrings; the
      fourth pattern adds nothing, since it extends the first. */
  lemma IsValidUrlIff(url: string)
    ensures IsValidUrl(url) <==>
      Contains(url, "youtube.com/watch") || Contains(url, "youtu.be/") || Contains(url, "youtube.com/playlist")
  {
    var p := YoutubePatterns;
    assert p[0] == "youtube.com/watch" && p[1] == "youtu.be/" && p[2] == "youtube.com/playlist";
    assert p[3] == p[0] + "?v=";
    if Contains(url, p[3]) {
      ContainsPrefix(url, p[0], "?v=");
    }
    if Contains(url, p[0]) {
      assert 0 < |p|;
    } else if Contains(url, p[1]) {
      assert 1 < |p|;
    } else if Contains(url, p[2]) {
      assert 2 < |p|;
    }
  }

  /** Neither scheme nor host is checked: any text around a pattern is accepted. */
  lemma AcceptsAnyTextAroundPattern(before: string, after: string)
    ensures IsValidUrl(before + "youtube.com/watch" + after)
    ensures IsValidUrl(before + "youtu.be/" + after)
    ensures IsValidUrl(before + "youtube.com/playlist" + after)
  {
    ContainsInfix(before, "youtube.com/watch", after);
    ContainsInfix(before, "youtu.be/", after);
    ContainsInfix(before, "youtube.com/playlist", after);
    IsValidUrlIff(before + "youtube.com/watch" + after);
    IsValidUrlIff(before + "youtu.be/" + after);
    IsValidUrlIff(before + "youtube.com/playlist" + after);
  }

  /** A URL with the `ftp` scheme passes the check. */
  lemma AcceptsFtpScheme()
    ensures IsValidUrl("ftp://youtube.com/watch")
  {
    var url := "ftp://youtube.com/watch";
    assert url[6..] == YoutubePatterns[0];
    ContainsFromSlice(url, YoutubePatterns[0], 6, |url|);
  }

  /** A short link passes the check. */
  lemma AcceptsShortLink()
    ensures IsValidUrl("https://youtu.be/abc123")
  {
    var url := "https://youtu.be/abc123";
    assert url[8..17] == YoutubePatterns[1];
    ContainsFromSlice(url, YoutubePatterns[1], 8, 17);
  }

  /** A string without the letter `y` contains none of the patterns. */
  lemma RejectsWithoutY(url: string)
    requires 'y' !in url
    ensures !IsValidUrl(url)
  {
    forall i | 0 <= i < |YoutubePatterns| ensures !Contains(url, YoutubePatterns[i]) {
      var p := YoutubePatterns[i];
      assert p[0] == 'y';
      if Contains(url, p) {
        var a, b := SliceFromContains(url, p);
      }
    }
  }

  /** Plain words are rejected. */
  lemma RejectsPlainWords()
    ensures !IsValidUrl("not a url")
  {
    RejectsWithoutY("not a url");
  }

  // ---------------------------------------------------------------------------
  // File names and the skip check
  // ---------------------------------------------------------------------------

  /** The characters `_sanitize_filename` replaces with an underscore. */
  const InvalidChars: string := "<>:\"/\\|?*"

  /** The length `_sanitize_filename` cuts names to. */
  const MaxNameLength: nat := 200

  /** What sanitising does to one character. */
  function Scrub(c: char): (r: char)
    ensures r !in InvalidChars
  {
    if c in InvalidChars then '_' else c
  }

  /** `_sanitize_filename`: each forbidden character replaced in turn, then the
      first 200 characters kept. Position by position the result is the scrubbed
      input, its length is the smaller of the input's and 200, and no forbidden
      character is left. */
  function SanitizeFilename(name: string): (r: string)
    ensures |r| == (if |name| < MaxNameLength then |name| else MaxNameLength)
    ensures forall i :: 0 <= i < |r| ==> r[i] == Scrub(name[i])
    ensures forall i :: 0 <= i < |r| ==> r[i] !in InvalidChars
  {
    var t := Scrubbed(name);
    if |t| <= MaxNameLength then t else t[..MaxNameLength]
  }

  /** The sequential replacements scrub every position. */
  function Scrubbed(name: string): (t: string)
    ensures |t| == |name|
    ensures forall i :: 0 <= i < |t| ==> t[i] == Scrub(name[i])
  {
    ReplaceEachPointwise(name, InvalidChars, '_');
    ReplaceEach(name, InvalidChars, '_')
  }

  /** Sanitising a sanitised name changes nothing. */
  lemma SanitizeIdempotent(name: string)
    ensures SanitizeFilename(SanitizeFilename(name)) == SanitizeFilename(name)
  {
    var r := SanitizeFilename(name);
    var rr := SanitizeFilename(r);
    assert |rr| == |r|;
    forall i | 0 <= i < |r| ensures rr[i] == r[i] {
      assert rr[i] == Scrub(r[i]);
    }
  }

  /** Names of equal length whose characters agree after scrubbing sanitise to
      the same file name. */
  lemma SanitizeMerges(a: string, b: string)
    requires |a| == |b|
    requires forall i :: 0 <= i < |a| ==> Scrub(a[i]) == Scrub(b[i])
    ensures SanitizeFilename(a) == SanitizeFilename(b)
  {
  }

  /** Only the first 200 characters of a name matter. */
  lemma SanitizeIgnoresTail(a: string, b: string)
    requires |a| >= MaxNameLength
    ensures SanitizeFilename(a + b) == SanitizeFilename(a)
  {
    var r, s := SanitizeFilename(a + b), SanitizeFilename(a);
    forall i | 0 <= i < |r| ensures r[i] == s[i] {
      assert (a + b)[i] == a[i];
    }
  }

  /** The file the skip check looks for: `output_folder / f"{sanitized}.{audio_format}"`.
      It lies directly in the output folder: after the separator comes the scrubbed
      title, which holds no forbidden character (so no `/`), then the extension. */
  function ExpectedPath(d: Downloader, title: string): (r: string)
    ensures |r| == |d.outputFolder| + 1 + |SanitizeFilename(title)| + 1 + |d.audioFormat|
    ensures r[..|d.outputFolder|] == d.outputFolder && r[|d.outputFolder|] == '/'
    ensures forall i :: 0 <= i < |SanitizeFilename(title)| ==>
      r[|d.outputFolder| + 1 + i] == Scrub(title[i]) && r[|d.outputFolder| + 1 + i] !in InvalidChars
    ensures r[|d.outputFolder| + 1 + |SanitizeFilename(title)|..] == "." + d.audioFormat
  {
    var stem := SanitizeFilename(title);
    PathParts(d.outputFolder, stem, d.audioFormat);
    JoinPath(d.outputFolder, stem + "." + d.audioFormat)
  }

  /** Where the stem and the extension sit in `folder/stem.ext`. */
  lemma PathParts(folder: string, stem: string, ext: string)
    ensures var r := JoinPath(folder, stem + "." + ext);
      && (forall i :: 0 <= i < |stem| ==> r[|folder| + 1 + i] == stem[i])
      && r[|folder| + 1 + |stem|..] == "." + ext
  {
    var r := JoinPath(folder, stem + "." + ext);
    assert r[|folder| + 1..] == stem + "." + ext;
    assert r[|folder| + 1 + |stem|..] == (stem + "." + ext)[|stem|..];
  }

  /** Python's `AttributeError` when the title is `None` and sanitising calls `None.replace`. */
  datatype TitleError = NoneTitle

  /** `_file_exists`: `False` when skipping is off; otherwise whether the expected
      file is among the existing ones, raising when there is no title to sanitise. */
  function FileExists(d: Downloader, title: Option<string>, existing: set<string>): (r: Result<bool, TitleError>)
    ensures !d.skipExisting ==> r == Success(false)
    ensures d.skipExisting && title.None? ==> r.Failure?
    ensures d.skipExisting && title.Some? ==> r == Success(ExpectedPath(d, title.value) in existing)
  {
    if !d.skipExisting then Success(false)
    else match title
      case None => Failure(NoneTitle)
      case Some(t) => Success(ExpectedPath(d, t) in existing)
  }

  /** A file found once is found after more files appear. */
  lemma FileExistsMonotone(d: Downloader, title: Option<string>, existing: set<string>, more: set<string>)
    requires existing <= more
    requires FileExists(d, title, existing) == Success(true)
    ensures FileExists(d, title, more) == Success(true)
  {
  }

  /** Titles that differ only in forbidden characters look for the same file, so
      a file at the path checked for one makes the other a skip. */
  lemma TitlesShareFile(d: Downloader, a: string, b: string, existing: set<string>)
    requires |a| == |b|
    requires forall i :: 0 <= i < |a| ==> Scrub(a[i]) == Scrub(b[i])
    ensures FileExists(d, Some(a), existing) == FileExists(d, Some(b), existing)
  {
    SanitizeMerges(a, b);
  }

  // ---------------------------------------------------------------------------
  // Options bag
  // ---------------------------------------------------------------------------

  /** The `ydl_opts` built in `download_audio`: quiet, the output template below
      the folder, audio extraction to the configured codec and quality, and an
      ffmpeg location only when a non-empty path is known. */
  function AudioOptions(d: Downloader): (r: Options)
    ensures r.format == "bestaudio/best" && r.quiet && r.noWarnings
    ensures r.outTemplate == d.outputFolder + "/%(title)s.%(ext)s"
    ensures r.postprocessors == [FFmpegExtractAudio(d.audioFormat, d.audioQuality)]
    ensures r.ffmpegLocation.Some? <==> Truthy(d.ffmpegPath)
    ensures r.ffmpegLocation.Some? ==> r.ffmpegLocation == d.ffmpegPath
  {
    Options(
      format := BestAudio,
      outTemplate := JoinPath(d.outputFolder, TitleTemplate),
      quiet := true,
      noWarnings := true,
      postprocessors := [FFmpegExtractAudio(d.audioFormat, d.audioQuality)],
      ffmpegLocation := if Truthy(d.ffmpegPath) then d.ffmpegPath else None)
  }

  // ---------------------------------------------------------------------------
  // The engine, the counters and one download
  // ---------------------------------------------------------------------------

  /** The `title` entry of the probed metadata: missing, `None`, or a string. */
  datatype TitleField = NoTitle | NullTitle | Title(text: string)

  /** `extract_info(url, download=False)`: raises, or returns the metadata. */
  datatype Probe = ProbeRaised | Probed(title: TitleField)

  /** `download([url])`: raises, or returns after writing some files. */
  datatype Fetch = FetchRaised | Fetched(written: set<string>)

  /** The engine's answer for each URL. A `DownloadError` and any other exception
      are one case, as the downloader treats them alike. */
  datatype Engine = Engine(probe: string -> Probe, fetch: string -> Fetch)

  /** One call into the engine, with the options bag it was built with. */
  datatype EngineCall = ExtractInfo(url: string, options: Options) | Download(url: string, options: Options)

  /** `info.get('title', 'Unknown')`. */
  function InfoTitle(field: TitleField): (r: Option<string>)
    ensures r.None? <==> field.NullTitle?
    ensures field.NoTitle? ==> r == Some("Unknown")
    ensures field.Title? ==> r == Some(field.text)
  {
    match field
    case NoTitle => Some("Unknown")
    case NullTitle => None
    case Title(t) => Some(t)
  }

  /** The `stats` dictionary. */
  datatype Stats = Stats(success: nat, failed: nat, skipped: nat)

  /** The three ways one call of `download_audio` ends. */
  datatype Outcome = Succeeded | Skipped | Failed

  /** `_print_summary`'s total: the sum of the counters. It is zero only before any
      call and at least each single counter. */
  function Total(st: Stats): (r: nat)
    ensures r == 0 <==> st == Stats(0, 0, 0)
    ensures st.success <= r && st.failed <= r && st.skipped <= r
  {
    st.success + st.failed + st.skipped
  }

  /** The counters after one call that ended in `o`: that counter goes up by one,
      the other two stay. */
  function Bump(st: Stats, o: Outcome): (r: Stats)
    ensures Total(r) == Total(st) + 1
    ensures r.success == st.success + (if o == Succeeded then 1 else 0)
    ensures r.skipped == st.skipped + (if o == Skipped then 1 else 0)
    ensures r.failed == st.failed + (if o == Failed then 1 else 0)
  {
    match o
    case Succeeded => st.(success := st.success + 1)
    case Skipped => st.(skipped := st.skipped + 1)
    case Failed => st.(failed := st.failed + 1)
  }

  /** What the downloader carries from call to call: its counters, and the files
      that exist on disk. */
  datatype State = State(stats: Stats, existing: set<string>)

  /** The result of one `download_audio` call: what it returned, which counter it
      moved, the state after it, and the engine calls it made, in order. */
  datatype Attempt = Attempt(returned: bool, outcome: Outcome, state: State, calls: seq<EngineCall>)

  /** The skip check's answer for a URL whose probe succeeded. */
  function SkipCheck(d: Downloader, e: Engine, existing: set<string>, url: string): Result<bool, TitleError>
    requires e.probe(url).Probed?
  {
    FileExists(d, InfoTitle(e.probe(url).title), existing)
  }

  /** The URL gets past the check and the probe, and its file is present: skip. */
  predicate WouldSkip(d: Downloader, e: Engine, existing: set<string>, url: string) {
    IsValidUrl(url) && e.probe(url).Probed? && SkipCheck(d, e, existing, url) == Success(true)
  }

  /** The URL gets past the check, the probe and the skip check: download. */
  predicate WouldFetch(d: Downloader, e: Engine, existing: set<string>, url: string) {
    IsValidUrl(url) && e.probe(url).Probed? && SkipCheck(d, e, existing, url) == Success(false)
  }

  /** `download_audio`: check the URL, probe the title, check for the file, download. */
  function DownloadAudio(d: Downloader, e: Engine, s: State, url: string): (r: Attempt)
    ensures r.returned <==> r.outcome != Failed
    ensures r.state.stats == Bump(s.stats, r.outcome)
    ensures r.outcome == Succeeded ==>
      e.fetch(url).Fetched? && r.state.existing == s.existing + e.fetch(url).written
    ensures r.outcome != Succeeded ==> r.state.existing == s.existing
    ensures !IsValidUrl(url) ==> r.outcome == Failed && r.calls == []
    ensures IsValidUrl(url) ==>
      || r.calls == [ExtractInfo(url, AudioOptions(d))]
      || r.calls == [ExtractInfo(url, AudioOptions(d)), Download(url, AudioOptions(d))]
    ensures r.outcome == Skipped ==> r.calls == [ExtractInfo(url, AudioOptions(d))]
  {
    if !IsValidUrl(url) then
      Attempt(false, Failed, s.(stats := Bump(s.stats, Failed)), [])
    else
      var opts := AudioOptions(d);
      var probe := ExtractInfo(url, opts);
      match e.probe(url)
      case ProbeRaised =>
        Attempt(false, Failed, s.(stats := Bump(s.stats, Failed)), [probe])
      case Probed(field) =>
        match FileExists(d, InfoTitle(field), s.existing)
        case Failure(_) =>
          Attempt(false, Failed, s.(stats := Bump(s.stats, Failed)), [probe])
        case Success(true) =>
          Attempt(true, Skipped, s.(stats := Bump(s.stats, Skipped)), [probe])
        case Success(false) =>
          var calls := [probe, Download(url, opts)];
          match e.fetch(url)
          case FetchRaised =>
            Attempt(false, Failed, s.(stats := Bump(s.stats, Failed)), calls)
          case Fetched(written) =>
            Attempt(true, Succeeded, State(Bump(s.stats, Succeeded), s.existing + written), calls)
  }

  /** Which way an attempt goes is decided by the URL check, the probe, the skip
      check and the download: it skips exactly when the file is found, asks for a
      download exactly when it is not, and succeeds exactly when that download
      returns. */
  lemma DownloadAudioDecides(d: Downloader, e: Engine, s: State, url: string)
    ensures var r := DownloadAudio(d, e, s, url);
      && (Download(url, AudioOptions(d)) in r.calls <==> WouldFetch(d, e, s.existing, url))
      && (r.outcome == Skipped <==> WouldSkip(d, e, s.existing, url))
      && (r.outcome == Succeeded <==> WouldFetch(d, e, s.existing, url) && e.fetch(url).Fetched?)
  {
    var r := DownloadAudio(d, e, s, url);
    var probe := ExtractInfo(url, AudioOptions(d));
    if IsValidUrl(url) {
      match e.probe(url)
      case ProbeRaised =>
        assert r.calls == [probe];
      case Probed(field) =>
        var check := SkipCheck(d, e, s.existing, url);
        assert check == FileExists(d, InfoTitle(field), s.existing);
        match check
        case Failure(_) =>
          assert r.outcome == Failed && r.calls == [probe];
        case Success(found) =>
          if found {
            assert r.outcome == Skipped && r.calls == [probe];
          } else {
            assert r.calls == [probe, Download(url, AudioOptions(d))];
          }
    }
  }

  // ---------------------------------------------------------------------------
  // The batch loop
  // ---------------------------------------------------------------------------

  /** How many entries of `outs` are `o`. */
  function Count(outs: seq<Outcome>, o: Outcome): (n: nat)
    ensures n <= |outs|
  {
    if outs == [] then 0 else (if outs[0] == o then 1 else 0) + Count(outs[1..], o)
  }

  /** A finished loop: the final state, every engine call in order, and one outcome per link. */
  datatype Batch = Batch(state: State, calls: seq<EngineCall>, outcomes: seq<Outcome>)

  /** The `for link in links: self.download_audio(link)` loop. Each link gets one
      outcome, in order; the counters grow by exactly the number of links, each by
      the number of outcomes of its kind; files only ever appear. */
  function DownloadEach(d: Downloader, e: Engine, s: State, links: seq<string>): (r: Batch)
    ensures |r.outcomes| == |links|
    ensures Total(r.state.stats) == Total(s.stats) + |links|
    ensures r.state.stats.success == s.stats.success + Count(r.outcomes, Succeeded)
    ensures r.state.stats.skipped == s.stats.skipped + Count(r.outcomes, Skipped)
    ensures r.state.stats.failed == s.stats.failed + Count(r.outcomes, Failed)
    ensures s.existing <= r.state.existing
    ensures ValidCalls(d, r.calls)
    decreases |links|
  {
    if links == [] then Batch(s, [], [])
    else
      var a := DownloadAudio(d, e, s, links[0]);
      var rest := DownloadEach(d, e, a.state, links[1..]);
      ValidCallsConcat(d, a.calls, rest.calls);
      Batch(rest.state, a.calls + rest.calls, [a.outcome] + rest.outcomes)
  }

  /** Every call is for a URL that passes the check, with the downloader's options bag. */
  predicate ValidCalls(d: Downloader, calls: seq<EngineCall>) {
    forall i :: 0 <= i < |calls| ==> IsValidUrl(calls[i].url) && calls[i].options == AudioOptions(d)
  }

  lemma ValidCallsConcat(d: Downloader, a: seq<EngineCall>, b: seq<EngineCall>)
    requires ValidCalls(d, a) && ValidCalls(d, b)
    ensures ValidCalls(d, a + b)
  {
    forall i | 0 <= i < |a + b| ensures IsValidUrl((a + b)[i].url) && (a + b)[i].options == AudioOptions(d) {
      if i >= |a| {
        assert (a + b)[i] == b[i - |a|];
      }
    }
  }

  /** The URLs the engine was asked to probe, in order. */
  function ProbedUrls(calls: seq<EngineCall>): (r: seq<string>)
    ensures |r| <= |calls|
  {
    if calls == [] then []
    else if calls[0].ExtractInfo? then [calls[0].url] + ProbedUrls(calls[1..])
    else ProbedUrls(calls[1..])
  }

  lemma {:induction false} ProbedUrlsAppend(a: seq<EngineCall>, b: seq<EngineCall>)
    ensures ProbedUrls(a + b) == ProbedUrls(a) + ProbedUrls(b)
    decreases |a|
  {
    if a == [] {
      assert a + b == b;
    } else {
      assert (a + b)[0] == a[0];
      assert (a + b)[1..] == a[1..] + b;
      ProbedUrlsAppend(a[1..], b);
      if a[0].ExtractInfo? {
        assert ProbedUrls(a + b) == [a[0].url] + (ProbedUrls(a[1..]) + ProbedUrls(b));
      }
    }
  }

  /** The links that pass the URL check, in order. */
  function ValidLinks(links: seq<string>): (r: seq<string>)
    ensures |r| <= |links|
    ensures forall x :: x in r <==> x in links && IsValidUrl(x)
  {
    if links == [] then []
    else if IsValidUrl(links[0]) then [links[0]] + ValidLinks(links[1..])
    else ValidLinks(links[1..])
  }

  /** One attempt probes its URL once when the URL passes the check, and never otherwise. */
  lemma AttemptProbes(d: Downloader, e: Engine, s: State, url: string)
    ensures ProbedUrls(DownloadAudio(d, e, s, url).calls) == if IsValidUrl(url) then [url] else []
  {
    var calls := DownloadAudio(d, e, s, url).calls;
    if IsValidUrl(url) {
      var probe := ExtractInfo(url, AudioOptions(d));
      if |calls| == 2 {
        assert calls[1..][1..] == [];
      } else {
        assert calls[1..] == [];
      }
    }
  }

  /** The engine is asked about exactly the links that pass the URL check, once
      each, in input order; the others never reach it. */
  lemma {:induction false} ProbesAreValidLinks(d: Downloader, e: Engine, s: State, links: seq<string>)
    ensures ProbedUrls(DownloadEach(d, e, s, links).calls) == ValidLinks(links)
    decreases |links|
  {
    if links != [] {
      var a := DownloadAudio(d, e, s, links[0]);
      var rest := DownloadEach(d, e, a.state, links[1..]);
      ProbesAreValidLinks(d, e, a.state, links[1..]);
      ProbedUrlsAppend(a.calls, rest.calls);
      AttemptProbes(d, e, s, links[0]);
    }
  }

  // ---------------------------------------------------------------------------
  // The CSV batch
  // ---------------------------------------------------------------------------

  /** Python's `AttributeError` when a short row's `link` cell is `None` and is stripped. */
  datatype ReadError = NoneLinkCell

  /** The link-collection loop of `download_from_csv`: for each row with a `link`
      column, the stripped cell when it is not blank; a `None` cell raises. */
  function CollectLinks(rows: seq<Csv.Row>): (r: Result<seq<string>, ReadError>)
    ensures r.Success? <==>
      forall i :: 0 <= i < |rows| ==> !(Csv.LinkColumn in rows[i] && rows[i][Csv.LinkColumn].None?)
    ensures r.Success? ==> |r.value| <= |rows|
    ensures r.Success? ==> forall i :: 0 <= i < |r.value| ==> r.value[i] != "" && IsStripped(r.value[i])
  {
    if rows == [] then Success([])
    else
      var here: Result<seq<string>, ReadError> :=
        if Csv.LinkColumn !in rows[0] then Success([])
        else match rows[0][Csv.LinkColumn]
          case None => Failure(NoneLinkCell)
          case Some(v) => if Strip(v) != "" then Success([Strip(v)]) else Success([]);
      match (here, CollectLinks(rows[1..]))
      case (Success(x), Success(rest)) => Success(x + rest)
      case (Failure(err), _) => Failure(err)
      case (_, Failure(err)) => Failure(err)
  }

  /** Where `download_from_csv` reads its rows from. */
  datatype CsvSource = CsvMissing | CsvUnreadable | CsvRows(rows: seq<Csv.Row>)

  /** A finished `download_from_csv`: the state, the engine calls, and the total the
      summary reports (`None` when no summary is printed). */
  datatype CsvRun = CsvRun(state: State, calls: seq<EngineCall>, summary: Option<nat>)

  /** `download_from_csv`: a missing or unreadable file, a `None` cell, or no links
      at all leave everything as it was; otherwise every link is downloaded in
      order, the counters grow by the number of links, and the summary reports
      their sum. */
  function DownloadFromCsv(d: Downloader, e: Engine, s: State, source: CsvSource): (r: CsvRun)
    ensures r.summary.Some? <==>
      source.CsvRows? && CollectLinks(source.rows).Success? && CollectLinks(source.rows).value != []
    ensures r.summary.None? ==> r.state == s && r.calls == []
    ensures r.summary.Some? ==>
      && r.summary.value == Total(r.state.stats)
      && Total(r.state.stats) == Total(s.stats) + |CollectLinks(source.rows).value|
      && ProbedUrls(r.calls) == ValidLinks(CollectLinks(source.rows).value)
  {
    match source
    case CsvMissing => CsvRun(s, [], None)
    case CsvUnreadable => CsvRun(s, [], None)
    case CsvRows(rows) =>
      match CollectLinks(rows)
      case Failure(_) => CsvRun(s, [], None)
      case Success(links) =>
        if links == [] then CsvRun(s, [], None)
        else
          var b := DownloadEach(d, e, s, links);
          ProbesAreValidLinks(d, e, s, links);
          CsvRun(b.state, b.calls, Some(Total(b.state.stats)))
  }
}
