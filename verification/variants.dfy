/**
 * How the three downloaders relate: the same options bag up to the quiet flags,
 * and the same links from a CSV file when no cell is `None`.
 */
module Variants {
  import opened Wrappers
  import Csv
  import opened Ydl
  import YtDownloader
  import BajadorYt
  import BajadorMejorado

  /** The two plain variants build the same options bag for every folder. */
  lemma PlainBagsAgree(folder: string)
    ensures YtDownloader.AudioOptions(folder) == BajadorYt.AudioOptions(folder)
  {
  }

  /** The improved downloader, with its default codec and quality and the plain
      variants' ffmpeg path, builds their bag with the quiet flags switched on. */
  lemma ImprovedBagExtendsPlainBag(folder: string, skipExisting: bool)
    ensures var d := BajadorMejorado.Downloader(folder, BajadorMejorado.DefaultAudioQuality,
                                                BajadorMejorado.DefaultAudioFormat,
                                                Some(YtDownloader.FfmpegLocation), skipExisting);
      BajadorMejorado.AudioOptions(d) == YtDownloader.AudioOptions(folder).(quiet := true, noWarnings := true)
  {
  }

  /** A CSV cell the library variant extracts and then downloads is one the
      improved variant collects, and the other way round: the library variant
      turns a cell of spaces into an empty link that its loop skips, while the
      improved variant drops it at once. */
  lemma {:induction false} CsvLinksAgree(rows: seq<Csv.Row>)
    requires BajadorMejorado.CollectLinks(rows).Success?
    ensures BajadorMejorado.CollectLinks(rows).value
      == YtDownloader.NonEmpty(YtDownloader.ExtractLinksFromCsv(rows))
    decreases |rows|
  {
    if rows != [] {
      CsvLinksAgree(rows[1..]);
      var here := YtDownloader.RowLinks(rows[0]);
      var rest := YtDownloader.ExtractLinksFromCsv(rows[1..]);
      NonEmptyAppend(here, rest);
    }
  }

  lemma {:induction false} NonEmptyAppend(a: seq<string>, b: seq<string>)
    ensures YtDownloader.NonEmpty(a + b) == YtDownloader.NonEmpty(a) + YtDownloader.NonEmpty(b)
    decreases |a|
  {
    if a == [] {
      assert a + b == b;
    } else {
      assert (a + b)[0] == a[0];
      assert (a + b)[1..] == a[1..] + b;
      NonEmptyAppend(a[1..], b);
      if a[0] != "" {
        assert YtDownloader.NonEmpty(a + b) == [a[0]] + (YtDownloader.NonEmpty(a[1..]) + YtDownloader.NonEmpty(b));
      }
    }
  }

  /** When no download raises, the library variant's CSV batch hands the engine
      exactly the links the improved variant collects, in the same order. */
  lemma CsvBatchesAgree(rows: seq<Csv.Row>, folder: string, made: set<string>, raises: string -> bool)
    requires BajadorMejorado.CollectLinks(rows).Success?
    requires !YtDownloader.DownloadFromCsv(rows, folder, made, raises).run.raised
    ensures Urls(YtDownloader.DownloadFromCsv(rows, folder, made, raises).run.calls)
      == BajadorMejorado.CollectLinks(rows).value
  {
    CsvLinksAgree(rows);
  }
}
