/**
 * Why re-running the improved downloader is safe: skipping is keyed on the file
 * name computed from the probed title, so once a URL's file exists, the next
 * attempt on it is skipped. This holds when the engine writes the file the skip
 * check looks for, which `WritesExpected` states as a hypothesis about the engine.
 */
module MejoradoRerun {
  import opened Wrappers
  import opened BajadorMejorado

  /** When the engine downloads `url`, it writes the file `_file_exists` would look
      for under the probed title. */
  predicate WritesExpected(d: Downloader, e: Engine, url: string) {
    var title := if e.probe(url).Probed? then InfoTitle(e.probe(url).title) else None;
    title.Some? && e.fetch(url).Fetched? ==> ExpectedPath(d, title.value) in e.fetch(url).written
  }

  /** From this set of files, an attempt on `url` cannot end in a download. */
  predicate NoNewDownload(d: Downloader, e: Engine, existing: set<string>, url: string) {
    !(WouldFetch(d, e, existing, url) && e.fetch(url).Fetched?)
  }

  /** More files can only turn a download into a skip. */
  lemma WouldFetchShrinks(d: Downloader, e: Engine, existing: set<string>, more: set<string>, url: string)
    requires existing <= more
    requires WouldFetch(d, e, more, url)
    ensures WouldFetch(d, e, existing, url)
  {
  }

  /** More files never turn a skip into anything else. */
  lemma WouldSkipGrows(d: Downloader, e: Engine, existing: set<string>, more: set<string>, url: string)
    requires existing <= more
    requires WouldSkip(d, e, existing, url)
    ensures WouldSkip(d, e, more, url)
  {
    FileExistsMonotone(d, InfoTitle(e.probe(url).title), existing, more);
  }

  /** After one successful download of `url`, the next attempt on it is skipped
      without asking the engine to download again. */
  lemma SecondAttemptSkips(d: Downloader, e: Engine, s: State, url: string)
    requires d.skipExisting
    requires WritesExpected(d, e, url)
    requires DownloadAudio(d, e, s, url).outcome == Succeeded
    ensures DownloadAudio(d, e, DownloadAudio(d, e, s, url).state, url).outcome == Skipped
    ensures DownloadAudio(d, e, DownloadAudio(d, e, s, url).state, url).calls
      == [ExtractInfo(url, AudioOptions(d))]
  {
    var a := DownloadAudio(d, e, s, url);
    DownloadAudioDecides(d, e, s, url);
    assert SkipCheck(d, e, a.state.existing, url) == Success(true);
    DownloadAudioDecides(d, e, a.state, url);
  }

  /** The same URL twice in one batch: downloaded once, then skipped. */
  lemma DuplicateLinkSkipped(d: Downloader, e: Engine, s: State, url: string)
    requires d.skipExisting
    requires WritesExpected(d, e, url)
    requires DownloadAudio(d, e, s, url).outcome == Succeeded
    ensures DownloadEach(d, e, s, [url, url]).outcomes == [Succeeded, Skipped]
  {
    var a := DownloadAudio(d, e, s, url);
    SecondAttemptSkips(d, e, s, url);
    OutcomesCons(d, e, s, url, [url]);
    OutcomesCons(d, e, a.state, url, []);
  }

  /** The loop's first outcome is that of its first link. */
  lemma OutcomesCons(d: Downloader, e: Engine, s: State, url: string, links: seq<string>)
    ensures DownloadEach(d, e, s, [url] + links).outcomes
      == [DownloadAudio(d, e, s, url).outcome] + DownloadEach(d, e, DownloadAudio(d, e, s, url).state, links).outcomes
  {
    assert ([url] + links)[0] == url && ([url] + links)[1..] == links;
  }

  /** Once the files of one attempt are on disk, and maybe more, its URL can no
      longer be downloaded, and it is skipped unless the attempt failed. */
  lemma AttemptSettles(d: Downloader, e: Engine, s: State, url: string, last: set<string>)
    requires d.skipExisting
    requires WritesExpected(d, e, url)
    requires DownloadAudio(d, e, s, url).state.existing <= last
    ensures Settled(d, e, last, url, DownloadAudio(d, e, s, url).outcome)
  {
    var a := DownloadAudio(d, e, s, url);
    DownloadAudioDecides(d, e, s, url);
    if a.outcome == Succeeded {
      assert SkipCheck(d, e, a.state.existing, url) == Success(true);
      WouldSkipGrows(d, e, a.state.existing, last, url);
    } else if a.outcome == Skipped {
      WouldSkipGrows(d, e, s.existing, last, url);
    } else if WouldFetch(d, e, last, url) {
      WouldFetchShrinks(d, e, s.existing, last, url);
    }
  }

  /** From this set of files, `url` cannot be downloaded, and it would be skipped
      unless its last outcome `o` was a failure. */
  predicate Settled(d: Downloader, e: Engine, existing: set<string>, url: string, o: Outcome) {
    NoNewDownload(d, e, existing, url) && (o != Failed ==> WouldSkip(d, e, existing, url))
  }

  /** `Settled` holds for every link with its outcome, position by position. */
  predicate AllSettled(d: Downloader, e: Engine, existing: set<string>, links: seq<string>, outs: seq<Outcome>)
    decreases |links|
  {
    && |links| == |outs|
    && (links != [] ==>
      Settled(d, e, existing, links[0], outs[0]) && AllSettled(d, e, existing, links[1..], outs[1..]))
  }

  lemma {:induction false} AllSettledAt(d: Downloader, e: Engine, existing: set<string>, links: seq<string>, outs: seq<Outcome>, i: int)
    requires AllSettled(d, e, existing, links, outs)
    requires 0 <= i < |links|
    ensures Settled(d, e, existing, links[i], outs[i])
    decreases i
  {
    if i > 0 {
      AllSettledAt(d, e, existing, links[1..], outs[1..], i - 1);
    }
  }

  /** After a batch with skipping on, no link of it can be downloaded again, and
      every link that did not fail would now be skipped. */
  lemma {:induction false} FirstRunSettles(d: Downloader, e: Engine, s: State, links: seq<string>)
    requires d.skipExisting
    requires forall i :: 0 <= i < |links| ==> WritesExpected(d, e, links[i])
    ensures var r := DownloadEach(d, e, s, links);
      AllSettled(d, e, r.state.existing, links, r.outcomes)
    decreases |links|
  {
    if links != [] {
      var a := DownloadAudio(d, e, s, links[0]);
      var rest := DownloadEach(d, e, a.state, links[1..]);
      assert forall i :: 0 <= i < |links[1..]| ==> WritesExpected(d, e, links[1..][i]);
      FirstRunSettles(d, e, a.state, links[1..]);
      var r := DownloadEach(d, e, s, links);
      assert r.state == rest.state && r.outcomes == [a.outcome] + rest.outcomes;
      assert r.outcomes[0] == a.outcome && r.outcomes[1..] == rest.outcomes;
      AttemptSettles(d, e, s, links[0], r.state.existing);
    }
  }

  /** A batch over links none of which can be downloaded adds no file, succeeds
      nowhere, and skips exactly the links whose file is already there. */
  lemma {:induction false} SettledRunDownloadsNothing(d: Downloader, e: Engine, s: State, links: seq<string>)
    requires forall i :: 0 <= i < |links| ==> NoNewDownload(d, e, s.existing, links[i])
    ensures var r := DownloadEach(d, e, s, links);
      && r.state.existing == s.existing
      && Count(r.outcomes, Succeeded) == 0
      && forall i :: 0 <= i < |links| ==> (r.outcomes[i] == Skipped <==> WouldSkip(d, e, s.existing, links[i]))
    decreases |links|
  {
    if links != [] {
      var a := DownloadAudio(d, e, s, links[0]);
      DownloadAudioDecides(d, e, s, links[0]);
      assert a.outcome != Succeeded;
      assert a.state.existing == s.existing;
      forall i | 0 <= i < |links[1..]| ensures NoNewDownload(d, e, a.state.existing, links[1..][i]) {
        assert links[1..][i] == links[i + 1];
      }
      SettledRunDownloadsNothing(d, e, a.state, links[1..]);
      var rest := DownloadEach(d, e, a.state, links[1..]);
      var r := DownloadEach(d, e, s, links);
      assert r.outcomes == [a.outcome] + rest.outcomes;
      forall i | 1 <= i < |links|
        ensures r.outcomes[i] == Skipped <==> WouldSkip(d, e, s.existing, links[i])
      {
        assert links[i] == links[1..][i - 1];
        assert r.outcomes[i] == rest.outcomes[i - 1];
      }
    }
  }

  /** Running the same batch again with skipping on downloads nothing: no file is
      added, the success counter stays, and every link that succeeded or was
      skipped the first time is skipped the second time. */
  lemma RerunDownloadsNothing(d: Downloader, e: Engine, s: State, links: seq<string>)
    requires d.skipExisting
    requires forall i :: 0 <= i < |links| ==> WritesExpected(d, e, links[i])
    ensures var first := DownloadEach(d, e, s, links);
      var second := DownloadEach(d, e, first.state, links);
      && second.state.existing == first.state.existing
      && second.state.stats.success == first.state.stats.success
      && forall i :: 0 <= i < |links| ==> (first.outcomes[i] != Failed ==> second.outcomes[i] == Skipped)
  {
    var first := DownloadEach(d, e, s, links);
    FirstRunSettles(d, e, s, links);
    forall i | 0 <= i < |links|
      ensures Settled(d, e, first.state.existing, links[i], first.outcomes[i])
    {
      AllSettledAt(d, e, first.state.existing, links, first.outcomes, i);
    }
    SettledRunDownloadsNothing(d, e, first.state, links);
  }
}
