# bajador-yt in Dafny

A Dafny model of the batch YouTube-audio downloaders of the bajador-yt
repository. It covers the three command-line variants:

- `yt_downloader.py`, the library the desktop front end uses. It extracts
  links from free text or from CSV rows, and its download loop skips empty
  links and hands each remaining one to yt-dlp with a fixed audio options bag.
- `bajador-yt.py`, the original script. It takes every row's `link` cell as
  is and downloads each one with the same fixed bag.
- `bajador-yt-mejorado.py`, the improved `YouTubeDownloader` class. It adds:
  - a substring check on URLs;
  - file-name sanitising;
  - a skip-if-present check keyed on the probed title;
  - `success`/`failed`/`skipped` counters;
  - a CSV batch that ends with a summary.

The yt-dlp engine and the disk are inputs to the model:

- In the two plain variants, the engine is a predicate saying which download
  calls raise. Nothing catches those exceptions, so the first one ends the
  batch. A batch is recorded as its trace: the calls it made, in order.
- In the improved variant, the engine answers each URL in two steps. The
  metadata probe raises, or returns a title that may be missing or `None`.
  The download raises, or returns the set of files it wrote.
- The files on disk are a set of paths. The counters and that set are carried
  from call to call as one value.

Modules: `Wrappers` (Option/Result), `PyStr` (the Python string operations
used: `isspace`, `strip`, `splitlines`, `in`, `replace`), `Csv` (rows as
`csv.DictReader` yields them), `Ydl` (options bag and call traces),
`YtDownloader`, `BajadorYt`, `BajadorMejorado`, `MejoradoRerun` (why re-runs
are safe) and `Variants` (how the three variants relate).

What the code does, in points where a reader might expect otherwise:

- The URL check is a plain substring test, with no scheme or host check, so
  `ftp://youtube.com/watch` is accepted.
- No variant removes duplicate links.
- The per-link outcome is a counter (`success`/`failed`/`skipped`).
  `app.py` (lines 8 and 92-108) expects `DownloadResult` records with statuses
  `success`/`skipped`/`invalid`/`error` and a `progress_callback`. This
  repository's `yt_downloader.py` has neither.
- The library variant's CSV extraction turns a cell of spaces into an empty
  link. It does not drop it, but its download loop skips it later.

## Model

| member | source | states |
|---|---|---|
| PyStr.Strip | yt_downloader.py:23 | `strip()` gives a string with no space at either end. The result is empty exactly when the input is all space. |
| PyStr.StripIsSlice | yt_downloader.py:23 | `strip()` returns its input with an all-space prefix and an all-space suffix cut off. Together with `Strip`'s ends, these are the longest such, so the result is the input minus its leading and trailing space. |
| PyStr.StripIdempotent | yt_downloader.py:23 | Stripping twice is the same as stripping once. |
| PyStr.SplitLines | yt_downloader.py:23 | `splitlines()` gives at least one line, and no line holds a break character. |
| PyStr.SplitJoinRoundTrip | yt_downloader.py:23 | Take a non-empty list of lines, none holding a break character. Joining them with newlines and then splitting gives the same lines back. |
| PyStr.ContainsIff | bajador-yt-mejorado.py:79 | The `pattern in url` scan succeeds exactly when the pattern is a slice of the URL. |
| PyStr.ReplaceEach | bajador-yt-mejorado.py:90-92 | The length is kept. Each position keeps its character or holds the fill character, and every position holding one of the replaced characters holds the fill. |
| PyStr.ReplaceEachPointwise | bajador-yt-mejorado.py:90-92 | Each forbidden character is replaced in turn by a character that is not forbidden. The result is the same as mapping each position on its own. |
| Csv.GetLink | yt_downloader.py:13 | `row.get('link')` is a string exactly when the row has the column and the cell is not `None`, and it is then that cell. |
| YtDownloader.RowLinks | yt_downloader.py:13-16 | A row adds at most one link. It adds `x` exactly when its `link` cell is present, not `None`, not empty, and strips to `x`. |
| YtDownloader.ExtractLinksFromCsv | yt_downloader.py:8-17 | There are no more links than rows, and every link is stripped. |
| YtDownloader.ExtractLinksFromCsvAppend | yt_downloader.py:12-16 | Extraction keeps row order: extracting from `a + b` gives the links of `a`, then those of `b`. |
| YtDownloader.ExtractLinksFromCsvMembers | yt_downloader.py:12-16 | A string is extracted exactly when some row yields it. |
| YtDownloader.BlankCellYieldsEmptyLink | yt_downloader.py:14-16 | A non-empty cell of spaces is not skipped. It becomes the empty link `""`. |
| YtDownloader.KeepStripped | yt_downloader.py:23 | There are no more links than lines. |
| YtDownloader.KeepStrippedLinks | yt_downloader.py:23 | Every kept line is a link: non-empty and equal to its own strip. |
| YtDownloader.ExtractLinksFromText | yt_downloader.py:20-23 | Empty text gives no links. There are no more links than lines. Every link is non-empty and stripped. |
| YtDownloader.KeepStrippedAppend | yt_downloader.py:23 | Line order is kept: the links of the first lines come first. |
| YtDownloader.KeepStrippedMembers | yt_downloader.py:23 | A string is extracted exactly when it is non-empty and some line strips to it. |
| YtDownloader.TextRoundTrip | yt_downloader.py:20-23 | Joining the extracted links with newlines and extracting again gives the same links. |
| YtDownloader.BlankAndPaddedLines | yt_downloader.py:23 | Lines of spaces and empty lines are dropped, padding around a link is removed, and order is kept. |
| YtDownloader.TextExample | yt_downloader.py:20-23 | Concrete text with a line of spaces, an empty line and a padded link gives the two links in order. |
| YtDownloader.EnsureOutputFolder | yt_downloader.py:26-29 | An empty folder name creates nothing. Any other name exists afterwards, together with every parent path (each prefix ending just before a `/`). Nothing else is created. |
| YtDownloader.NestedFolderMakesParent | yt_downloader.py:29 | Ensuring `parent/child` makes both `parent` and `parent/child` exist. |
| YtDownloader.DownloadAudioFromYoutube | yt_downloader.py:32-48 | The engine is not called for an empty link. For any other link it gets `bestaudio/best`, the template `folder/%(title)s.%(ext)s`, mp3 at 192 and the fixed ffmpeg path. |
| YtDownloader.NonEmpty | yt_downloader.py:54-55 | The loop's skip keeps exactly the non-empty links, in order. |
| YtDownloader.DownloadLoop | yt_downloader.py:53-58 | Every engine call is for a non-empty input link and carries the fixed bag for the folder. |
| YtDownloader.DownloadLoopStops | yt_downloader.py:51-58 | The engine is handed the non-empty links in input order. Handing stops right after the first download that raises. With no exception, every non-empty link is downloaded. |
| YtDownloader.DownloadFromLinks | yt_downloader.py:51-58 | The folder exists before any download. Downloads follow the same stop-at-first-exception order over the non-empty links. |
| YtDownloader.DownloadFromCsv | yt_downloader.py:61-63 | The CSV batch is the link batch over the links extracted from the rows. |
| YtDownloader.CsvDownloadsOnlyNonBlankCells | yt_downloader.py:61-63 | Every URL handed to the engine is a non-empty stripped cell of some row. A cell of spaces is never downloaded. |
| BajadorYt.ExtractLinksFromCsv | bajador-yt.py:6-12 | This succeeds exactly when every row has a `link` column. The result then has one entry per row, in order, and each entry is the cell as read (`None` for a short row). Otherwise it is a `KeyError`. |
| BajadorYt.AudioOptions | bajador-yt.py:21-31 | The bag is constant except for the output template: `bestaudio/best`, `folder/%(title)s.%(ext)s`, mp3 at 192 and the fixed ffmpeg path. |
| BajadorYt.DownloadLoop | bajador-yt.py:38-41 | Every call carries the fixed bag for the folder. |
| BajadorYt.DownloadLoopStops | bajador-yt.py:36-41 | The engine is handed every extracted value in order, with no filtering, until the first download that raises. |
| BajadorYt.AutomateYoutubeDownload | bajador-yt.py:36-41 | A row without a `link` column stops the run before any download. Otherwise the downloads follow the stop-at-first-exception order over the extracted values. |
| BajadorYt.EveryRowIsDownloaded | bajador-yt.py:36-41 | If no download raises, the engine receives exactly the `link` cell of every row, in order, blank and `None` cells included. |
| BajadorMejorado.NewDownloader | bajador-yt-mejorado.py:35-44 | A non-empty explicit ffmpeg path wins over the detected one. A missing or empty one falls back to detection. The other settings are kept as given. |
| BajadorMejorado.IsValidUrl | bajador-yt-mejorado.py:71-79 | A URL shorter than 9 characters, the shortest pattern, is rejected. A URL containing `youtube.com/watch`, `youtu.be/` or `youtube.com/playlist` is accepted. |
| BajadorMejorado.IsValidUrlIff | bajador-yt-mejorado.py:71-79 | A URL is valid exactly when it contains `youtube.com/watch`, `youtu.be/` or `youtube.com/playlist`. The fourth pattern adds nothing. |
| BajadorMejorado.AcceptsAnyTextAroundPattern | bajador-yt-mejorado.py:71-79 | Neither scheme nor host is checked: any text before or after a pattern is accepted. |
| BajadorMejorado.AcceptsFtpScheme | bajador-yt-mejorado.py:71-79 | `ftp://youtube.com/watch` is accepted. |
| BajadorMejorado.AcceptsShortLink | bajador-yt-mejorado.py:71-79 | `https://youtu.be/abc123` is accepted. |
| BajadorMejorado.RejectsWithoutY | bajador-yt-mejorado.py:71-79 | A string without the letter `y` matches no pattern, since every pattern starts with `y`. |
| BajadorMejorado.RejectsPlainWords | bajador-yt-mejorado.py:71-79 | `not a url` is rejected. |
| BajadorMejorado.SanitizeFilename | bajador-yt-mejorado.py:88-93 | The length is the smaller of the input's length and 200. Each position holds `_` where the input has one of `<>:"/\|?*`, and the input character otherwise. No forbidden character is left. |
| BajadorMejorado.SanitizeIdempotent | bajador-yt-mejorado.py:88-93 | Sanitising a sanitised name changes nothing. |
| BajadorMejorado.SanitizeMerges | bajador-yt-mejorado.py:88-93 | Names of equal length that agree after scrubbing give the same file name. For example, `AC/DC` and `AC_DC` give the same name. |
| BajadorMejorado.SanitizeIgnoresTail | bajador-yt-mejorado.py:93 | Only the first 200 characters of a title matter. |
| BajadorMejorado.ExpectedPath | bajador-yt-mejorado.py:85 | The path is the output folder, `/`, the title scrubbed position by position and cut to 200 characters, then `.` and the format. The file-name part holds no forbidden character, so no `/`: the file always sits directly in the output folder. |
| BajadorMejorado.FileExists | bajador-yt-mejorado.py:81-86 | With skipping off the answer is always false. With skipping on, it is membership of `folder/sanitized.format` in the existing files, and it raises when the title is `None`. |
| BajadorMejorado.FileExistsMonotone | bajador-yt-mejorado.py:81-86 | A file found once is still found after more files appear. |
| BajadorMejorado.TitlesShareFile | bajador-yt-mejorado.py:81-93 | Two titles of equal length that differ only in forbidden characters give the same skip-check answer. For example, a file at the path checked for `AC/DC` makes `AC_DC` a skip. |
| BajadorMejorado.AudioOptions | bajador-yt-mejorado.py:103-117 | The bag is quiet, uses `bestaudio/best` and the folder template, and extracts audio to the configured codec and quality. It has an ffmpeg location exactly when a non-empty path is known. |
| BajadorMejorado.InfoTitle | bajador-yt-mejorado.py:122 | A missing title becomes `Unknown`. A `None` title stays `None`. |
| BajadorMejorado.Total | bajador-yt-mejorado.py:177 | The summary total is zero exactly when all three counters are, and it is at least each counter. |
| BajadorMejorado.Bump | bajador-yt-mejorado.py:99-143 | The counter of the outcome grows by one, the other two stay, and the total grows by one. |
| BajadorMejorado.DownloadAudio | bajador-yt-mejorado.py:95-143 | See the list below the table. |
| BajadorMejorado.DownloadAudioDecides | bajador-yt-mejorado.py:121-134 | An attempt skips exactly when the URL passes, the probe succeeds and the file is found. It asks for a download exactly when the probe succeeds and the file is not found. It succeeds exactly when that download returns. |
| BajadorMejorado.AttemptProbes | bajador-yt-mejorado.py:97-121 | One attempt probes its URL exactly once when the URL passes the check, and never otherwise. |
| BajadorMejorado.DownloadEach | bajador-yt-mejorado.py:166-167 | There is one outcome per link. The total grows by the number of links, and each counter by the number of its outcomes. Files are only added. Every engine call is for a valid URL with the bag. |
| BajadorMejorado.ProbesAreValidLinks | bajador-yt-mejorado.py:166-167 | The engine is probed for exactly the links that pass the URL check, once each, in input order. |
| BajadorMejorado.CollectLinks | bajador-yt-mejorado.py:152-157 | This succeeds exactly when no row has a `None` `link` cell. The links are then non-empty and stripped, with no more links than rows. |
| BajadorMejorado.DownloadFromCsv | bajador-yt-mejorado.py:145-177 | See the list below the table. |
| MejoradoRerun.SecondAttemptSkips | bajador-yt-mejorado.py:121-134 | Assume skipping is on and the engine writes the expected file. After a successful download, the next attempt on the same URL is skipped after the probe alone. |
| MejoradoRerun.DuplicateLinkSkipped | bajador-yt-mejorado.py:121-134 | Assume skipping is on, the engine writes the expected file, and the first download succeeds. Then the same URL twice in one batch is downloaded once and then skipped. |
| MejoradoRerun.AttemptSettles | bajador-yt-mejorado.py:121-134 | Assume skipping is on and the engine writes the expected file. Once an attempt's files are on disk, possibly with more, its URL cannot be downloaded again. It is skipped unless the attempt failed. |
| MejoradoRerun.FirstRunSettles | bajador-yt-mejorado.py:121-134 | Assume skipping is on and the engine writes the expected file for every link. After a batch, every link is settled by the final files, together with its outcome. No link can be downloaded again, and each link that did not fail would now be skipped. |
| MejoradoRerun.AllSettledAt | bajador-yt-mejorado.py:166-167 | Being settled link by link gives the property at every position of the batch. |
| MejoradoRerun.SettledRunDownloadsNothing | bajador-yt-mejorado.py:121-134 | A batch over links none of which can be downloaded adds no file and succeeds nowhere. It skips exactly the links whose file exists. |
| MejoradoRerun.RerunDownloadsNothing | bajador-yt-mejorado.py:121-134 | See the list below the table. |
| Variants.PlainBagsAgree | yt_downloader.py:35-46 | The two plain variants build the same bag for every folder. |
| Variants.ImprovedBagExtendsPlainBag | bajador-yt-mejorado.py:103-117 | With the default mp3/192 and the plain variants' ffmpeg path, the improved bag is the plain bag with the quiet flags on. |
| Variants.CsvLinksAgree | bajador-yt-mejorado.py:155-157 | When no cell is `None`, the improved collector gives the library variant's extracted links with the empty ones removed. |
| Variants.CsvBatchesAgree | yt_downloader.py:61-63 | When no download raises, the library variant's CSV batch hands the engine exactly the links the improved variant collects, in the same order. |

`BajadorMejorado.DownloadAudio` (one `download_audio` call):

- It moves exactly one counter, by one.
- It returns true exactly when it did not fail.
- An invalid URL fails without any engine call.
- A valid URL makes exactly one probe first, then at most one download. Both
  use the downloader's options bag.
- A skip makes no download call.
- The written files are added only on success, and every other outcome leaves
  the files as they were.

`BajadorMejorado.DownloadFromCsv` (the CSV batch):

- A missing or unreadable file does nothing, and so do a `None` cell and an
  empty link list. No summary is printed in these cases.
- Otherwise the total grows by the number of links.
- The probes are the valid links, in order.
- The summary reports `success + skipped + failed`.

`MejoradoRerun.RerunDownloadsNothing` (re-running the same batch with
skipping on):

- No file is added.
- The success counter stays the same.
- Every link that succeeded or was skipped the first time is skipped the
  second time.

## Left out

- `app.py` (the Tkinter front end) is not modelled. It imports names that this
  repository's `yt_downloader.py` does not define: `AUDIO_FORMATS`, `QUALITY_LEVELS`,
  `VIDEO_FORMATS` and `DownloadResult`. It also calls `download_from_links`
  with arguments that function does not accept. The status taxonomy and the
  progress callback therefore have no implementation to model.
- yt-dlp itself is not modelled. `extract_info` and `download` are inputs
  that give one answer per URL. `DownloadError` and any other exception are
  one case, because the improved downloader treats them the same.
- An engine that answers the same URL differently on different calls is not
  modelled. The re-run lemmas rely on one answer per URL.
- `MejoradoRerun.RerunDownloadsNothing` assumes the engine writes exactly the
  file the skip check looks for (`WritesExpected`). The real engine applies
  its own file-name sanitising to the title, which need not match
  `_sanitize_filename` (for example, it has no 200-character cut). Without
  that assumption a re-run can download again.
- `_find_ffmpeg` (`shutil.which`, `sys.platform`, probing install folders) is
  not modelled. The detected path is a parameter of
  `BajadorMejorado.NewDownloader`. Only the rule that an explicit path wins is
  modelled.
- Files and folders are not modelled:
  - the constructor's `mkdir`;
  - `os.makedirs` errors;
  - opening and parsing CSV files;
  - the `Path.exists` test on the CSV file.

  CSV input is pre-parsed rows. For the improved variant, a missing or
  unreadable file is a `CsvSource` case. In the plain variants, a file-open
  error simply propagates and is not modelled.
- `pathlib` normalisation is not modelled. For example, `Path('./downloads')`
  prints as `downloads`. Paths here are the folder, `/` and the name.
- YtDownloader.EnsureOutputFolder: parents are the prefixes that end before a
  `/`, taken literally. Doubled or trailing slashes, `..` and the Windows `\`
  separator are not normalised the way `os.makedirs` would handle them.
- BajadorMejorado.DownloadAudio: a download that raises is assumed to leave no
  file behind. In reality yt-dlp can write the fetched audio and then raise,
  for example when `FFmpegExtractAudio` fails. `bajador-yt-mejorado.py` counts
  that as failed while the file stays on disk. Under this assumption, "every
  outcome other than success leaves the files as they were" holds for the
  model, not necessarily for the program.
- `csv.DictReader` puts extra cells under a `None` key (`restkey`). This is
  not modelled, since no variant reads that key.
- Logging, `tqdm`, `print`, `argparse`, `load_config` and the merging of
  configuration and arguments in `main` are not modelled. The defaults
  `mp3`/`192` appear only as constants.
- Titles that are neither a string nor `None` are not modelled.
- `PyStr.SplitLines` splits at every line-break character on its own. Python
  treats `\r\n` as one break and drops a trailing empty line. Both
  differences only add empty lines, and the extraction drops those, so the
  extracted links are the same. The whitespace set is Python's `isspace` set
  as listed in `PyStr.IsSpace`. Other Unicode details are not claimed.
