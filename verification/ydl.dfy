/**
 * What the downloaders hand to the yt-dlp engine: an options bag and one URL
 * per `download` call. The engine itself is not modelled; a batch records the
 * calls it makes, in order, as a trace.
 */
module Ydl {
  import opened Wrappers

  /** The single post-processor the downloaders configure: ffmpeg audio extraction. */
  datatype Postprocessor = FFmpegExtractAudio(preferredCodec: string, preferredQuality: string)

  /** The `ydl_opts` dictionary. A key the source leaves out is modelled by the
      engine's default: `false` for the two flags, `None` for the ffmpeg location. */
  datatype Options = Options(
    format: string,
    outTemplate: string,
    quiet: bool,
    noWarnings: bool,
    postprocessors: seq<Postprocessor>,
    ffmpegLocation: Option<string>)

  /** The format selector every variant asks for. */
  const BestAudio: string := "bestaudio/best"

  /** The file-name part of every variant's output template. */
  const TitleTemplate: string := "%(title)s.%(ext)s"

  /** A path below a folder, joined with a forward slash. */
  function JoinPath(folder: string, name: string): (r: string)
    ensures |r| == |folder| + 1 + |name|
    ensures r[..|folder|] == folder && r[|folder|] == '/' && r[|folder| + 1..] == name
  {
    folder + "/" + name
  }

  /** One `YoutubeDL(options).download([url])` call. */
  datatype Call<U> = Call(url: U, options: Options)

  /** A batch that stops at the first engine exception: the calls made, and
      whether the last one raised (the exception then escapes the batch). */
  datatype Run<U> = Run(calls: seq<Call<U>>, raised: bool)

  /** The URLs of a trace, in call order. */
  function Urls<U>(calls: seq<Call<U>>): (r: seq<U>)
    ensures |r| == |calls|
    ensures forall i :: 0 <= i < |calls| ==> r[i] == calls[i].url
  {
    if calls == [] then [] else [calls[0].url] + Urls(calls[1..])
  }

  /** The reference behaviour of a loop without exception handling over `handed`:
      it calls the engine on a prefix of `handed`, every call but the last
      returned normally, and it stops early exactly when a call raised. */
  ghost predicate StopsAtFirstRaise<U>(urls: seq<U>, raised: bool, handed: seq<U>, raises: U -> bool)
  {
    && |urls| <= |handed|
    && urls == handed[..|urls|]
    && (forall i :: 0 <= i < |urls| - 1 ==> !raises(urls[i]))
    && (raised ==> urls != [] && raises(urls[|urls| - 1]))
    && (!raised ==> urls == handed && forall i :: 0 <= i < |handed| ==> !raises(handed[i]))
  }

  /** Such a run calls the engine on every element of `handed` exactly when none raises. */
  lemma StopsAtFirstRaiseComplete<U>(urls: seq<U>, raised: bool, handed: seq<U>, raises: U -> bool)
    requires StopsAtFirstRaise(urls, raised, handed, raises)
    ensures raised <==> exists i :: 0 <= i < |handed| && raises(handed[i])
  {
    if raised {
      assert raises(handed[|urls| - 1]);
    }
  }

  /** A loop that stops at the first raise, started one element earlier on an element that does not raise. */
  lemma StopsAtFirstRaiseCons<U>(u: U, urls: seq<U>, raised: bool, handed: seq<U>, raises: U -> bool)
    requires !raises(u)
    requires StopsAtFirstRaise(urls, raised, handed, raises)
    ensures StopsAtFirstRaise([u] + urls, raised, [u] + handed, raises)
  {
    var urls', handed' := [u] + urls, [u] + handed;
    assert handed'[..|urls'|] == [u] + handed[..|urls|];
    forall i | 0 <= i < |urls'| - 1 ensures !raises(urls'[i]) {
      if i > 0 {
        assert urls'[i] == urls[i - 1];
      }
    }
    if raised {
      assert urls'[|urls'| - 1] == urls[|urls| - 1];
    } else {
      forall i | 0 <= i < |handed'| ensures !raises(handed'[i]) {
        if i > 0 {
          assert handed'[i] == handed[i - 1];
        }
      }
    }
  }

  /** A loop whose first element raises stops right there. */
  lemma StopsAtFirstRaiseHead<U>(u: U, handed: seq<U>, raises: U -> bool)
    requires raises(u)
    ensures StopsAtFirstRaise([u], true, [u] + handed, raises)
  {
    assert ([u] + handed)[..1] == [u];
  }
}
