/**
 * The original script: read every row's `link` cell, then call the engine once
 * per value with a fixed audio options bag. There is no filtering, no
 * validation and no exception handling.
 */
module BajadorYt {
  import opened Wrappers
  import Csv
  import opened Ydl

  /** Python's `KeyError`, raised by `row['link']` when the column is missing. */
  datatype KeyError = KeyError(key: string)

  /** The ffmpeg directory hard-wired into the options bag. */
  const FfmpegLocation: string := "C:/Program Files/ffmpeg-7.0.2-full_build/bin"

  /** `extract_links_from_csv` over rows already read: `row['link']` for every row,
      passed through as is (a short row gives `None`), or a `KeyError` when some
      row has no `link` column. */
  function ExtractLinksFromCsv(rows: seq<Csv.Row>): (r: Result<seq<Option<string>>, KeyError>)
    ensures r.Success? <==> forall i :: 0 <= i < |rows| ==> Csv.LinkColumn in rows[i]
    ensures r.Success? ==>
      |r.value| == |rows| && forall i :: 0 <= i < |rows| ==> r.value[i] == rows[i][Csv.LinkColumn]
    ensures r.Failure? ==> r.error == KeyError("link")
  {
    if rows == [] then Success([])
    else if Csv.LinkColumn !in rows[0] then Failure(KeyError(Csv.LinkColumn))
    else
      match ExtractLinksFromCsv(rows[1..])
      case Success(rest) => Success([rows[0][Csv.LinkColumn]] + rest)
      case Failure(e) => Failure(e)
  }

  /** The options bag `download_audio_from_youtube` passes: constant but for the output template. */
  function AudioOptions(folder: string): (r: Options)
    ensures r.format == "bestaudio/best"
    ensures r.outTemplate == folder + "/%(title)s.%(ext)s"
    ensures r.postprocessors == [FFmpegExtractAudio("mp3", "192")]
    ensures r.ffmpegLocation == Some("C:/Program Files/ffmpeg-7.0.2-full_build/bin")
  {
    Options(
      format := BestAudio,
      outTemplate := JoinPath(folder, TitleTemplate),
      quiet := false,
      noWarnings := false,
      postprocessors := [FFmpegExtractAudio("mp3", "192")],
      ffmpegLocation := Some(FfmpegLocation))
  }

  /** The `for link in links` loop of `automate_youtube_download`: one engine call
      per value, whatever it is; an exception ends the loop. */
  function DownloadLoop(links: seq<Option<string>>, folder: string,
                        raises: Option<string> -> bool): (r: Run<Option<string>>)
    ensures forall i :: 0 <= i < |r.calls| ==> r.calls[i].options == AudioOptions(folder)
  {
    if links == [] then Run([], false)
    else
      var call := Call(links[0], AudioOptions(folder));
      if raises(links[0]) then Run([call], true)
      else
        var rest := DownloadLoop(links[1..], folder, raises);
        Run([call] + rest.calls, rest.raised)
  }

  /** The loop hands the engine every value in order, up to and including the first that raises. */
  lemma {:induction false} DownloadLoopStops(links: seq<Option<string>>, folder: string,
                                             raises: Option<string> -> bool)
    ensures StopsAtFirstRaise(Urls(DownloadLoop(links, folder, raises).calls),
                              DownloadLoop(links, folder, raises).raised, links, raises)
    decreases |links|
  {
    if links == [] {
      assert StopsAtFirstRaise([], false, links, raises);
    } else {
      var l := links[0];
      assert links == [l] + links[1..];
      var r := DownloadLoop(links, folder, raises);
      if raises(l) {
        assert Urls(r.calls) == [l];
        StopsAtFirstRaiseHead(l, links[1..], raises);
      } else {
        var rest := DownloadLoop(links[1..], folder, raises);
        DownloadLoopStops(links[1..], folder, raises);
        assert Urls(r.calls) == [l] + Urls(rest.calls);
        StopsAtFirstRaiseCons(l, Urls(rest.calls), rest.raised, links[1..], raises);
      }
    }
  }

  /** `automate_youtube_download`: a `KeyError` while reading the rows ends it
      before any download; otherwise every value goes to the engine in row order
      until one raises. */
  function AutomateYoutubeDownload(rows: seq<Csv.Row>, folder: string,
                                   raises: Option<string> -> bool): (r: Result<Run<Option<string>>, KeyError>)
    ensures r.Failure? <==> exists i :: 0 <= i < |rows| && Csv.LinkColumn !in rows[i]
    ensures r.Success? ==>
      StopsAtFirstRaise(Urls(r.value.calls), r.value.raised, ExtractLinksFromCsv(rows).value, raises)
  {
    match ExtractLinksFromCsv(rows)
    case Failure(e) => Failure(e)
    case Success(links) =>
      DownloadLoopStops(links, folder, raises);
      Success(DownloadLoop(links, folder, raises))
  }

  /** With no validation in between, a run in which nothing raises hands the engine
      exactly the `link` cell of every row, blank and `None` cells included. */
  lemma EveryRowIsDownloaded(rows: seq<Csv.Row>, folder: string, raises: Option<string> -> bool)
    requires forall i :: 0 <= i < |rows| ==> Csv.LinkColumn in rows[i]
    requires forall i :: 0 <= i < |rows| ==> !raises(rows[i][Csv.LinkColumn])
    ensures AutomateYoutubeDownload(rows, folder, raises).Success?
    ensures var run := AutomateYoutubeDownload(rows, folder, raises).value;
      && !run.raised
      && |run.calls| == |rows|
      && forall i :: 0 <= i < |rows| ==> run.calls[i] == Call(rows[i][Csv.LinkColumn], AudioOptions(folder))
  {
    var links := ExtractLinksFromCsv(rows).value;
    var run := AutomateYoutubeDownload(rows, folder, raises).value;
    assert Urls(run.calls) == links;
  }
}
