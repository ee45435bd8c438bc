/**
 * The download half of main.go: choosing the videos a run asks for
 * (Videos), and handing them one by one to the external downloader
 * (Download, DownloadVideo). Whether a downloader process succeeds is not
 * known to the model; it enters as a predicate on the command line.
 */
module Downloader {
  import opened Wrappers
  import opened Text
  import opened Catalog

  /** The rows a run asks for: every row for (0, 0), one season for (s, 0),
      one episode otherwise. */
  function Query(season: int, episode: int): (sel: Selector)
    ensures sel.AllRows? <==> season == 0 && episode == 0
    ensures sel.InSeason? <==> season != 0 && episode == 0
  {
    if season == 0 && episode == 0 then AllRows
    else if episode == 0 then InSeason(season)
    else OneEpisode(season, episode)
  }

  /** Videos: dispatches to All, Season or Episode. The result holds each
      selected row once, and fails with NotFound exactly when nothing is
      selected. */
  method Videos(catalog: Catalog, season: int, episode: int) returns (r: Result<seq<Video>, Error>)
    requires catalog.Valid()
    ensures r.Err? <==> forall k :: k in catalog.rows ==> !Query(season, episode).Selects(k)
    ensures r.Err? ==> r.error == NotFound
    ensures r.Ok? ==> Distinct(r.value)
    ensures r.Ok? ==> forall v :: v in r.value <==>
              v.Key() in catalog.rows && catalog.rows[v.Key()] == v && Query(season, episode).Selects(v.Key())
  {
    if season == 0 && episode == 0 {
      r := catalog.All();
      if r.Err? {
        assert forall k :: k !in catalog.rows;
      }
      return;
    }
    if episode == 0 {
      r := catalog.Season(season);
      return;
    }
    var v := catalog.Episode(season, episode);
    if v.Err? {
      return Err(v.error);
    }
    r := Ok([v.value]);
  }

  /** The settings DownloadVideo reads, with the values the program gets from
      its environment: the operating system, the number of CPUs and the
      working directory filepath.Abs resolves against. */
  datatype Settings = Settings(outDir: string, youTubeDLDir: string, minRate: string,
                               dryRun: bool, windows: bool, cpus: nat, workDir: string)

  /** One run of the downloader, as DownloadVideo prepares it: the output
      directory, the resolved script, the fragment count, the rate floor and
      the video. Dir and Argv render it as a working directory and an
      argument vector. */
  datatype Invocation = Invocation(outDir: string, program: string, cpus: nat, minRate: string, video: Video)

  /** filepath.Abs, without cleaning. */
  function Abs(workDir: string, path: string): string {
    if StartsWith(path, "/") then path else PathJoin(workDir, path)
  }

  /** The downloader script: yt-dlp.cmd on Windows, yt-dlp.sh elsewhere. */
  function Script(windows: bool): string {
    if windows then "yt-dlp.cmd" else "yt-dlp.sh"
  }

  /** The command DownloadVideo runs for `v`. */
  function Plan(s: Settings, v: Video): (inv: Invocation)
    ensures inv.video == v
  {
    Invocation(s.outDir, Abs(s.workDir, PathJoin(s.youTubeDLDir, Script(s.windows))), s.cpus, s.minRate, v)
  }

  /** The season directory under the output directory. */
  function Dir(inv: Invocation): string {
    PathJoin(inv.outDir, inv.video.SeasonString())
  }

  /** The argument vector, program first. */
  function Argv(inv: Invocation): seq<string> {
    [inv.program,
     "--concurrent-fragments", IntToString(inv.cpus),
     "--throttled-rate", inv.minRate,
     "--output", inv.video.Format(),
     inv.video.url]
  }

  /** The downloader runs in the season's directory under the output
      directory. */
  lemma PlanDir(s: Settings, v: Video)
    ensures Dir(Plan(s, v)) == PathJoin(s.outDir, "S" + Pad2(v.season))
  {
  }

  /** The downloader gets the fragment count, the rate floor and the file
      template of the video as flag values, and the video's URL last; an
      absolute downloader directory is used as it is. */
  lemma PlanArgs(s: Settings, v: Video)
    ensures var a := Argv(Plan(s, v));
            && |a| == 8
            && a[1] == "--concurrent-fragments" && a[2] == IntToString(s.cpus)
            && a[3] == "--throttled-rate" && a[4] == s.minRate
            && a[5] == "--output" && a[6] == v.Format()
            && a[7] == v.url
            && (!s.windows && StartsWith(s.youTubeDLDir, "/") ==> a[0] == s.youTubeDLDir + "/yt-dlp.sh")
  {
    if !s.windows && StartsWith(s.youTubeDLDir, "/") {
      var path := s.youTubeDLDir + "/yt-dlp.sh";
      assert PathJoin(s.youTubeDLDir, Script(s.windows)) == path;
      assert path[..1] == s.youTubeDLDir[..1];
    }
  }

  /** Position of the first video whose download fails, or the number of
      videos when none does. */
  function FirstFailure(s: Settings, videos: seq<Video>, succeeds: Invocation -> bool): (n: nat)
    ensures n <= |videos|
    ensures forall i :: 0 <= i < n ==> succeeds(Plan(s, videos[i]))
    ensures n < |videos| ==> !succeeds(Plan(s, videos[n]))
  {
    if videos == [] then 0
    else if !succeeds(Plan(s, videos[0])) then 0
    else 1 + FirstFailure(s, videos[1..], succeeds)
  }

  /** The commands for the first `n` videos, in order. */
  function PlansUpTo(s: Settings, videos: seq<Video>, n: nat): seq<Invocation>
    requires n <= |videos|
  {
    if n == 0 then [] else PlansUpTo(s, videos, n - 1) + [Plan(s, videos[n - 1])]
  }

  lemma {:induction false} PlansUpToLength(s: Settings, videos: seq<Video>, n: nat)
    requires n <= |videos|
    ensures |PlansUpTo(s, videos, n)| == n
  {
    if n > 0 {
      PlansUpToLength(s, videos, n - 1);
      assert PlansUpTo(s, videos, n) == PlansUpTo(s, videos, n - 1) + [Plan(s, videos[n - 1])];
    }
  }

  lemma {:induction false} PlansUpToAt(s: Settings, videos: seq<Video>, n: nat)
    requires n <= |videos|
    ensures |PlansUpTo(s, videos, n)| == n
    ensures forall i :: 0 <= i < n ==> PlansUpTo(s, videos, n)[i] == Plan(s, videos[i])
  {
    PlansUpToLength(s, videos, n);
    if n > 0 {
      PlansUpToAt(s, videos, n - 1);
      var prev := PlansUpTo(s, videos, n - 1);
      assert PlansUpTo(s, videos, n) == prev + [Plan(s, videos[n - 1])];
      forall i | 0 <= i < n
        ensures PlansUpTo(s, videos, n)[i] == Plan(s, videos[i])
      {
        if i < n - 1 {
          assert PlansUpTo(s, videos, n)[i] == prev[i];
        }
      }
    }
  }

  /** Why Download fails: the selection found nothing, or one download
      failed. */
  datatype DownloadError = NoVideos(reason: Error) | DownloadFailed(inv: Invocation)

  /** Download's loop: each video in turn, stopping at the first failure.
      In a dry run nothing is started and the loop cannot fail. Otherwise
      the downloads started are those of the videos up to and including the
      first failing one, in order. */
  method Download(s: Settings, videos: seq<Video>, succeeds: Invocation -> bool)
    returns (r: Result<(), DownloadError>, started: seq<Invocation>)
    ensures s.dryRun ==> r.Ok? && started == []
    ensures !s.dryRun ==>
              var n := FirstFailure(s, videos, succeeds);
              && (r.Ok? <==> n == |videos|)
              && (r.Err? ==> r.error == DownloadFailed(Plan(s, videos[n])))
              && started == PlansUpTo(s, videos, if r.Ok? then n else n + 1)
    ensures |started| <= |videos|
    ensures forall i :: 0 <= i < |started| ==> started[i] == Plan(s, videos[i])
  {
    started := [];
    for i := 0 to |videos|
      invariant !s.dryRun ==> i <= FirstFailure(s, videos, succeeds)
      invariant started == if s.dryRun then [] else PlansUpTo(s, videos, i)
    {
      if !s.dryRun {
        var inv := Plan(s, videos[i]);
        started := started + [inv];
        if !succeeds(inv) {
          FirstFailureAt(s, videos, succeeds, i);
          PlansUpToAt(s, videos, i + 1);
          return Err(DownloadFailed(inv)), started;
        }
      }
    }
    if !s.dryRun {
      PlansUpToAt(s, videos, |videos|);
    }
    return Ok(()), started;
  }

  /** The first failure is where the first failing download is. */
  lemma FirstFailureAt(s: Settings, videos: seq<Video>, succeeds: Invocation -> bool, i: nat)
    requires i < |videos| && !succeeds(Plan(s, videos[i]))
    requires forall j :: 0 <= j < i ==> succeeds(Plan(s, videos[j]))
    ensures FirstFailure(s, videos, succeeds) == i
  {
  }

  /** RunE after the crawl: select the videos, then download them. A failed
      selection starts nothing. Otherwise `selected` is the selection, each
      selected row once, and the run is Download's loop over it; when that
      loop gets through, every selected row has been downloaded. */
  method Run(catalog: Catalog, s: Settings, season: int, episode: int, succeeds: Invocation -> bool)
    returns (r: Result<(), DownloadError>, started: seq<Invocation>, ghost selected: seq<Video>)
    requires catalog.Valid()
    ensures r == Err(NoVideos(NotFound)) <==> forall k :: k in catalog.rows ==> !Query(season, episode).Selects(k)
    ensures r.Err? && r.error.NoVideos? ==> started == []
    ensures s.dryRun ==> started == []
    ensures forall inv :: inv in started ==>
              exists k :: k in catalog.rows && Query(season, episode).Selects(k) && inv == Plan(s, catalog.rows[k])
    ensures r != Err(NoVideos(NotFound)) ==>
              && Distinct(selected)
              && (forall v :: v in selected <==>
                    v.Key() in catalog.rows && catalog.rows[v.Key()] == v && Query(season, episode).Selects(v.Key()))
              && (s.dryRun ==> r.Ok?)
              && (!s.dryRun ==>
                    var n := FirstFailure(s, selected, succeeds);
                    && (r.Ok? <==> n == |selected|)
                    && (r.Err? ==> r.error == DownloadFailed(Plan(s, selected[n])))
                    && started == PlansUpTo(s, selected, if r.Ok? then n else n + 1))
    ensures !s.dryRun && r.Ok? ==>
              forall k :: k in catalog.rows && Query(season, episode).Selects(k) ==> Plan(s, catalog.rows[k]) in started
  {
    var videos := Videos(catalog, season, episode);
    if videos.Err? {
      return Err(NoVideos(videos.error)), [], [];
    }
    selected := videos.value;
    r, started := Download(s, videos.value, succeeds);
    StartedSelected(s, catalog.rows, Query(season, episode), selected, started);
    if !s.dryRun && r.Ok? {
      DownloadedAll(s, catalog.rows, Query(season, episode), selected);
    }
  }

  /** Every download started from a prefix of the selection is of a
      selected row. */
  lemma StartedSelected(s: Settings, rows: map<Key, Video>, sel: Selector, selected: seq<Video>,
                        started: seq<Invocation>)
    requires forall v :: v in selected ==> v.Key() in rows && rows[v.Key()] == v && sel.Selects(v.Key())
    requires |started| <= |selected| && forall i :: 0 <= i < |started| ==> started[i] == Plan(s, selected[i])
    ensures forall inv :: inv in started ==>
              exists k :: k in rows && sel.Selects(k) && inv == Plan(s, rows[k])
  {
    forall inv | inv in started
      ensures exists k :: k in rows && sel.Selects(k) && inv == Plan(s, rows[k])
    {
      var i :| 0 <= i < |started| && started[i] == inv;
      assert selected[i] in selected;
      assert inv == Plan(s, rows[selected[i].Key()]);
    }
  }

  /** Once the whole selection has gone through, every selected row's
      download has been started. */
  lemma DownloadedAll(s: Settings, rows: map<Key, Video>, sel: Selector, selected: seq<Video>)
    requires forall k :: k in rows ==> rows[k].Key() == k
    requires forall v :: v in selected <==> v.Key() in rows && rows[v.Key()] == v && sel.Selects(v.Key())
    ensures forall k :: k in rows && sel.Selects(k) ==> Plan(s, rows[k]) in PlansUpTo(s, selected, |selected|)
  {
    PlansUpToAt(s, selected, |selected|);
    forall k | k in rows && sel.Selects(k)
      ensures Plan(s, rows[k]) in PlansUpTo(s, selected, |selected|)
    {
      var i :| 0 <= i < |selected| && selected[i] == rows[k];
      assert PlansUpTo(s, selected, |selected|)[i] == Plan(s, rows[k]);
    }
  }
}
