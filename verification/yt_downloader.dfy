/**
 * The library variant: link extraction from text and from CSV rows, and a
 * download loop that skips empty links and calls the engine once per link with
 * a fixed audio options bag. Nothing catches an engine exception, so the first
 * one ends the batch.
 */
module YtDownloader {
  import opened Wrappers
  import opened PyStr
  import Csv
  import opened Ydl

  /** The ffmpeg directory hard-wired into the options bag. */
  const FfmpegLocation: string := "C:/Program Files/ffmpeg-7.0.2-full_build/bin"

  // ---------------------------------------------------------------------------
  // Link extraction from CSV rows
  // ---------------------------------------------------------------------------

  /** `row` contributes the link `x`: its `link` cell is present, non-empty and strips to `x`. */
  predicate Yields(row: Csv.Row, x: string) {
    var v := Csv.GetLink(row);
    v.Some? && v.value != "" && Strip(v.value) == x
  }

  /** What one row adds to the list: nothing for a `None` or empty cell, else the stripped cell. */
  function RowLinks(row: Csv.Row): (r: seq<string>)
    ensures |r| <= 1
    ensures forall x :: x in r <==> Yields(row, x)
  {
    match Csv.GetLink(row)
    case Some(v) => if v == "" then [] else [Strip(v)]
    case None => []
  }

  /** `extract_links_from_csv` over rows already read: one stripped link per row
      whose `link` cell is neither missing, `None` nor empty, in row order. */
  function ExtractLinksFromCsv(rows: seq<Csv.Row>): (r: seq<string>)
    ensures |r| <= |rows|
    ensures forall i :: 0 <= i < |r| ==> IsStripped(r[i])
  {
    if rows == [] then [] else RowLinks(rows[0]) + ExtractLinksFromCsv(rows[1..])
  }

  /** Extraction keeps row order: the rows of `a` before those of `b` give their links first. */
  lemma {:induction false} ExtractLinksFromCsvAppend(a: seq<Csv.Row>, b: seq<Csv.Row>)
    ensures ExtractLinksFromCsv(a + b) == ExtractLinksFromCsv(a) + ExtractLinksFromCsv(b)
    decreases |a|
  {
    if a == [] {
      assert a + b == b;
    } else {
      assert (a + b)[1..] == a[1..] + b;
      ExtractLinksFromCsvAppend(a[1..], b);
    }
  }

  /** A string is extracted exactly when some row yields it. */
  lemma {:induction false} ExtractLinksFromCsvMembers(rows: seq<Csv.Row>, x: string)
    ensures x in ExtractLinksFromCsv(rows) <==> exists i :: 0 <= i < |rows| && Yields(rows[i], x)
    decreases |rows|
  {
    if rows != [] {
      ExtractLinksFromCsvMembers(rows[1..], x);
      if x in ExtractLinksFromCsv(rows[1..]) {
        var i :| 0 <= i < |rows[1..]| && Yields(rows[1..][i], x);
        assert Yields(rows[i + 1], x);
      }
      if exists i :: 0 <= i < |rows| && Yields(rows[i], x) {
        var i :| 0 <= i < |rows| && Yields(rows[i], x);
        if i > 0 {
          assert Yields(rows[1..][i - 1], x);
        }
      }
    }
  }

  /** A cell of spaces only is not skipped: it becomes an empty link. */
  lemma BlankCellYieldsEmptyLink(row: Csv.Row, v: string)
    requires Csv.LinkColumn in row && row[Csv.LinkColumn] == Some(v)
    requires v != "" && AllSpace(v)
    ensures ExtractLinksFromCsv([row]) == [""]
  {
    assert [row][1..] == [];
  }

  // ---------------------------------------------------------------------------
  // Link extraction from free text
  // ---------------------------------------------------------------------------

  /** A link as the text extraction returns it: non-empty and stripped. */
  predicate IsLink(x: string) {
    x != "" && IsStripped(x)
  }

  /** `[line.strip() for line in lines if line.strip()]`. */
  function KeepStripped(lines: seq<string>): (r: seq<string>)
    ensures |r| <= |lines|
    decreases |lines|
  {
    if lines == [] then []
    else
      var t := Strip(lines[0]);
      if t == "" then KeepStripped(lines[1..]) else [t] + KeepStripped(lines[1..])
  }

  /** Every kept line is a link: non-empty and stripped. */
  lemma {:induction false} KeepStrippedLinks(lines: seq<string>)
    ensures forall i :: 0 <= i < |KeepStripped(lines)| ==> IsLink(KeepStripped(lines)[i])
    decreases |lines|
  {
    if lines != [] {
      var t := Strip(lines[0]);
      var rest := KeepStripped(lines[1..]);
      KeepStrippedLinks(lines[1..]);
      if t != "" {
        assert KeepStripped(lines) == [t] + rest;
        forall i | 0 <= i < |[t] + rest| ensures IsLink(([t] + rest)[i]) {
          if i > 0 {
            assert ([t] + rest)[i] == rest[i - 1];
          }
        }
      } else {
        assert KeepStripped(lines) == rest;
      }
    }
  }

  /** `extract_links_from_text`: the stripped lines of `text`, blank ones dropped. */
  function ExtractLinksFromText(text: string): (r: seq<string>)
    ensures text == "" ==> r == []
    ensures |r| <= |SplitLines(text)|
    ensures forall i :: 0 <= i < |r| ==> IsLink(r[i])
  {
    if text == "" then [] else KeepStrippedLinks(SplitLines(text)); KeepStripped(SplitLines(text))
  }

  /** Keeping stripped lines preserves order across a split of the lines. */
  lemma {:induction false} KeepStrippedAppend(a: seq<string>, b: seq<string>)
    ensures KeepStripped(a + b) == KeepStripped(a) + KeepStripped(b)
    decreases |a|
  {
    if a == [] {
      assert a + b == b;
    } else {
      var t := Strip(a[0]);
      assert (a + b)[0] == a[0];
      assert (a + b)[1..] == a[1..] + b;
      KeepStrippedAppend(a[1..], b);
      if t != "" {
        assert KeepStripped(a + b) == [t] + (KeepStripped(a[1..]) + KeepStripped(b));
      }
    }
  }

  /** A string is extracted from `text` exactly when some line of `text` strips to it and it is not empty. */
  lemma {:induction false} KeepStrippedMembers(lines: seq<string>, x: string)
    ensures x in KeepStripped(lines) <==>
      x != "" && exists i :: 0 <= i < |lines| && Strip(lines[i]) == x
    decreases |lines|
  {
    if lines != [] {
      KeepStrippedMembers(lines[1..], x);
      if exists i :: 0 <= i < |lines| && Strip(lines[i]) == x {
        var i :| 0 <= i < |lines| && Strip(lines[i]) == x;
        if i > 0 {
          assert Strip(lines[1..][i - 1]) == x;
        }
      }
      if x in KeepStripped(lines[1..]) {
        var i :| 0 <= i < |lines[1..]| && Strip(lines[1..][i]) == x;
        assert Strip(lines[i + 1]) == x;
      }
    }
  }

  /** Lines that are already non-empty and stripped pass through unchanged. */
  lemma {:induction false} KeepStrippedFixes(lines: seq<string>)
    requires forall i :: 0 <= i < |lines| ==> IsLink(lines[i])
    ensures KeepStripped(lines) == lines
    decreases |lines|
  {
    if lines != [] {
      StripFixesStripped(lines[0]);
      KeepStrippedFixes(lines[1..]);
    }
  }

  /** Every extracted link is free of line breaks. */
  lemma {:induction false} KeepStrippedNoLineBreak(lines: seq<string>)
    requires forall i :: 0 <= i < |lines| ==> NoLineBreak(lines[i])
    ensures forall i :: 0 <= i < |KeepStripped(lines)| ==> NoLineBreak(KeepStripped(lines)[i])
    decreases |lines|
  {
    if lines != [] {
      var t := Strip(lines[0]);
      var rest := KeepStripped(lines[1..]);
      StripKeepsNoLineBreak(lines[0]);
      KeepStrippedNoLineBreak(lines[1..]);
      if t != "" {
        assert KeepStripped(lines) == [t] + rest;
        forall i | 0 <= i < |[t] + rest| ensures NoLineBreak(([t] + rest)[i]) {
          if i > 0 {
            assert ([t] + rest)[i] == rest[i - 1];
          }
        }
      }
    }
  }

  /** Joining extracted links with newlines and extracting again gives the same links. */
  lemma TextRoundTrip(text: string)
    ensures ExtractLinksFromText(JoinLines(ExtractLinksFromText(text))) == ExtractLinksFromText(text)
  {
    var links := ExtractLinksFromText(text);
    if text != "" {
      KeepStrippedNoLineBreak(SplitLines(text));
    }
    if links != [] {
      var joined := JoinLines(links);
      assert joined != "" by {
        if |links| > 1 {
          assert joined == links[0] + ("\n" + JoinLines(links[1..]));
        }
      }
      SplitJoinRoundTrip(links);
      KeepStrippedFixes(links);
    }
  }

  /** A line of spaces, a link, an empty line, and a link padded with spaces give
      the two links, in order. */
  lemma {:induction false} BlankAndPaddedLines(w: string, a: string, b: string)
    requires AllSpace(w) && NoLineBreak(w)
    requires a != "" && IsStripped(a) && NoLineBreak(a)
    requires b != "" && IsStripped(b) && NoLineBreak(b)
    ensures ExtractLinksFromText(w + "\n" + a + "\n\n " + b + " \n") == [a, b]
  {
    var padded := " " + b + " ";
    var lines := [w, a, "", padded, ""];
    var text := w + "\n" + a + "\n\n " + b + " \n";
    assert NoLineBreak(padded);
    assert JoinLines(lines) == text by {
      assert JoinLines(lines[4..]) == "";
      assert JoinLines(lines[3..]) == padded + "\n" + "";
      assert JoinLines(lines[2..]) == "" + "\n" + JoinLines(lines[3..]);
      assert JoinLines(lines[1..]) == a + "\n" + JoinLines(lines[2..]);
    }
    SplitJoinRoundTrip(lines);
    StripPadded(b);
    StripFixesStripped(a);
    assert KeepStripped(lines[4..]) == [];
    assert KeepStripped(lines[3..]) == [b];
    assert KeepStripped(lines[2..]) == [b];
    assert KeepStripped(lines[1..]) == [a, b];
  }

  /** The same, on concrete text (written as the pieces it is made of). */
  lemma TextExample()
    ensures ExtractLinksFromText("  " + "\n" + "https://youtu.be/abc" + "\n\n "
                                 + "https://youtube.com/watch?v=xyz" + " \n")
      == ["https://youtu.be/abc", "https://youtube.com/watch?v=xyz"]
  {
    BlankAndPaddedLines("  ", "https://youtu.be/abc", "https://youtube.com/watch?v=xyz");
  }

  // ---------------------------------------------------------------------------
  // Output folder, options bag and the download loop
  // ---------------------------------------------------------------------------

  /** The folders `os.makedirs(folder)` makes sure of: `folder` itself and every
      prefix of it that ends just before a `/` (the parents). */
  function MakedirsPaths(folder: string): set<string> {
    {folder} + set i | 0 < i < |folder| && folder[i] == '/' :: folder[..i]
  }

  /** `ensure_output_folder` over the set of folders that exist: an empty name
      changes nothing; any other name exists afterwards together with all its
      parents, and nothing else is created. */
  function EnsureOutputFolder(folder: string, made: set<string>): (r: set<string>)
    ensures made <= r && r - made <= MakedirsPaths(folder)
    ensures folder == "" ==> r == made
    ensures folder != "" ==> MakedirsPaths(folder) <= r
  {
    if folder == "" then made else made + MakedirsPaths(folder)
  }

  /** A nested folder brings its parent into existence, as `os.makedirs` does. */
  lemma NestedFolderMakesParent(parent: string, child: string, made: set<string>)
    requires parent != ""
    ensures parent in EnsureOutputFolder(parent + "/" + child, made)
    ensures parent + "/" + child in EnsureOutputFolder(parent + "/" + child, made)
  {
    var folder := parent + "/" + child;
    assert folder[|parent|] == '/' && folder[..|parent|] == parent;
  }

  /** Ensuring the same folder twice is the same as ensuring it once (`exist_ok=True`). */
  lemma EnsureOutputFolderIdempotent(folder: string, made: set<string>)
    ensures EnsureOutputFolder(folder, EnsureOutputFolder(folder, made)) == EnsureOutputFolder(folder, made)
  {
  }

  /** The options bag `download_audio_from_youtube` passes for `folder`. */
  function AudioOptions(folder: string): Options {
    Options(
      format := BestAudio,
      outTemplate := JoinPath(folder, TitleTemplate),
      quiet := false,
      noWarnings := false,
      postprocessors := [FFmpegExtractAudio("mp3", "192")],
      ffmpegLocation := Some(FfmpegLocation))
  }

  /** `download_audio_from_youtube`: `None` when the link is empty (no engine call),
      otherwise the options bag the engine is given. */
  function DownloadAudioFromYoutube(link: string, folder: string): (r: Option<Options>)
    ensures r.None? <==> link == ""
    ensures r.Some? ==>
      && r.value.format == "bestaudio/best"
      && r.value.outTemplate == folder + "/%(title)s.%(ext)s"
      && r.value.postprocessors == [FFmpegExtractAudio("mp3", "192")]
      && r.value.ffmpegLocation == Some("C:/Program Files/ffmpeg-7.0.2-full_build/bin")
  {
    if link == "" then None else Some(AudioOptions(folder))
  }

  /** The links with empty ones removed, in order. */
  function NonEmpty(links: seq<string>): (r: seq<string>)
    ensures |r| <= |links|
    ensures forall i :: 0 <= i < |r| ==> r[i] != ""
    ensures forall x :: x in r <==> x in links && x != ""
  {
    if links == [] then []
    else if links[0] == "" then NonEmpty(links[1..])
    else [links[0]] + NonEmpty(links[1..])
  }

  /** The `for link in links` loop of `download_from_links`. The loop's own
      `if not link: continue` and the callee's `if not link: return` coincide, so
      the callee's answer decides whether the engine is called. */
  function DownloadLoop(links: seq<string>, folder: string, raises: string -> bool): (r: Run<string>)
    ensures forall i :: 0 <= i < |r.calls| ==>
      r.calls[i].url != "" && r.calls[i].url in links && r.calls[i].options == AudioOptions(folder)
  {
    if links == [] then Run([], false)
    else
      match DownloadAudioFromYoutube(links[0], folder)
      case None => DownloadLoop(links[1..], folder, raises)
      case Some(opts) =>
        if raises(links[0]) then Run([Call(links[0], opts)], true)
        else
          var rest := DownloadLoop(links[1..], folder, raises);
          Run([Call(links[0], opts)] + rest.calls, rest.raised)
  }

  /** The loop hands the engine the non-empty links in order, up to and including
      the first one whose download raises. */
  lemma {:induction false} DownloadLoopStops(links: seq<string>, folder: string, raises: string -> bool)
    ensures StopsAtFirstRaise(Urls(DownloadLoop(links, folder, raises).calls),
                              DownloadLoop(links, folder, raises).raised, NonEmpty(links), raises)
    decreases |links|
  {
    if links == [] {
      assert StopsAtFirstRaise([], false, [], raises);
    } else {
      var l := links[0];
      DownloadLoopStops(links[1..], folder, raises);
      var rest := DownloadLoop(links[1..], folder, raises);
      if l == "" {
        assert NonEmpty(links) == NonEmpty(links[1..]);
      } else {
        assert NonEmpty(links) == [l] + NonEmpty(links[1..]);
        var r := DownloadLoop(links, folder, raises);
        if raises(l) {
          assert Urls(r.calls) == [l];
          StopsAtFirstRaiseHead(l, NonEmpty(links[1..]), raises);
        } else {
          assert r.calls == [Call(l, AudioOptions(folder))] + rest.calls;
          assert Urls(r.calls) == [l] + Urls(rest.calls);
          StopsAtFirstRaiseCons(l, Urls(rest.calls), rest.raised, NonEmpty(links[1..]), raises);
        }
      }
    }
  }

  /** The state `download_from_links` leaves behind: the folders that exist and the engine trace. */
  datatype LinksRun = LinksRun(made: set<string>, run: Run<string>)

  /** `download_from_links`: ensure the folder, then run the loop. */
  function DownloadFromLinks(links: seq<string>, folder: string, made: set<string>,
                             raises: string -> bool): (r: LinksRun)
    ensures folder != "" ==> folder in r.made
    ensures StopsAtFirstRaise(Urls(r.run.calls), r.run.raised, NonEmpty(links), raises)
  {
    DownloadLoopStops(links, folder, raises);
    LinksRun(EnsureOutputFolder(folder, made), DownloadLoop(links, folder, raises))
  }

  /** `download_from_csv`: extract the links of the rows, then download them. */
  function DownloadFromCsv(rows: seq<Csv.Row>, folder: string, made: set<string>,
                           raises: string -> bool): (r: LinksRun)
    ensures StopsAtFirstRaise(Urls(r.run.calls), r.run.raised,
                              NonEmpty(ExtractLinksFromCsv(rows)), raises)
  {
    DownloadFromLinks(ExtractLinksFromCsv(rows), folder, made, raises)
  }

  /** Whatever the rows hold, the engine is only ever handed a non-blank stripped
      cell: a cell of spaces becomes an empty link, which the loop skips. */
  lemma CsvDownloadsOnlyNonBlankCells(rows: seq<Csv.Row>, folder: string, made: set<string>,
                                      raises: string -> bool, k: int)
    requires 0 <= k < |DownloadFromCsv(rows, folder, made, raises).run.calls|
    ensures exists i :: 0 <= i < |rows| && Yields(rows[i], DownloadFromCsv(rows, folder, made, raises).run.calls[k].url)
    ensures DownloadFromCsv(rows, folder, made, raises).run.calls[k].url != ""
  {
    var u := DownloadFromCsv(rows, folder, made, raises).run.calls[k].url;
    assert u in ExtractLinksFromCsv(rows);
    ExtractLinksFromCsvMembers(rows, u);
  }
}
