/**
 * The configuration checks of config/config.go. Validate is an ordered
 * chain of early returns: four guards on the All/Season/Episode selection,
 * then the directory and clone steps (I/O, which enter the model only as
 * their outcome), then the format of the minimum download rate.
 */
module Config {
  import opened Wrappers
  import opened Text
  import Downloader

  /** The Config struct. */
  datatype Config = Config(
    youTubeDLDir: string,
    outDir: string,
    configDir: string,
    reinitialize: bool,
    dryRun: bool,
    repoUrl: string,
    branch: string,
    all: bool,
    season: int,
    episode: int,
    userAgent: string,
    minRate: string)

  /** Why Validate refuses a configuration, one case per early return. */
  datatype ConfigError =
    | AllWithSelection
    | NoSelection
    | SeasonTooSmall
    | NegativeEpisode
    | SetupFailed(message: string)
    | InvalidMinRate(rate: string)

  predicate IsRateUnit(c: char) {
    c == 'K' || c == 'M' || c == 'G'
  }

  /** rateRegex, `^\d+[KMG]$`: Go's `\d` is the ASCII digits and `$` without
      the multi-line flag matches only at the end of the text. */
  predicate RateOk(s: string) {
    |s| >= 2 && AllDigits(s[..|s| - 1]) && IsRateUnit(s[|s| - 1])
  }

  /** A rate is one or more digits followed by exactly one unit letter. */
  lemma RateOkIff(digits: string, unit: char)
    ensures RateOk(digits + [unit]) <==> |digits| >= 1 && AllDigits(digits) && IsRateUnit(unit)
  {
    var s := digits + [unit];
    assert s[..|s| - 1] == digits;
  }

  /** The empty rate and a bare number are refused. */
  lemma RateNeedsDigitsAndUnit(s: string)
    ensures AllDigits(s) ==> !RateOk(s)
    ensures |s| == 1 ==> !RateOk(s)
  {
    if AllDigits(s) && |s| > 0 {
      assert IsAsciiDigit(s[|s| - 1]);
    }
  }

  /** Validate, with the outcome of the directory and clone steps of
      lines 53-100 given as `setup`: None when they all succeed, otherwise
      the error they return. */
  function Validate(c: Config, setup: Option<string>): Result<(), ConfigError> {
    if c.all && (c.season != 0 || c.episode != 0) then Err(AllWithSelection)
    else if !c.all && c.season == 0 && c.episode == 0 then Err(NoSelection)
    else if c.season < 1 then Err(SeasonTooSmall)
    else if c.episode < 0 then Err(NegativeEpisode)
    else if setup.Some? then Err(SetupFailed(setup.value))
    else if !RateOk(c.minRate) then Err(InvalidMinRate(c.minRate))
    else Ok(())
  }

  /** The configurations Validate accepts: not --all, a season of at least
      1, an episode of at least 0, working directories and a rate of the
      right form. */
  lemma ValidateAccepts(c: Config, setup: Option<string>)
    ensures Validate(c, setup).Ok? <==>
              !c.all && c.season >= 1 && c.episode >= 0 && setup.None? && RateOk(c.minRate)
  {
  }

  /** Which guard fails first decides the error; the rate is looked at only
      once the directory and clone steps have succeeded. */
  lemma ValidateFirstFailure(c: Config, setup: Option<string>)
    ensures Validate(c, setup) == Err(AllWithSelection) <==> c.all && (c.season != 0 || c.episode != 0)
    ensures Validate(c, setup) == Err(NoSelection) <==> !c.all && c.season == 0 && c.episode == 0
    ensures Validate(c, setup) == Err(SeasonTooSmall) <==>
              c.season < 1 && !(c.all && (c.season != 0 || c.episode != 0))
              && !(!c.all && c.season == 0 && c.episode == 0)
    ensures Validate(c, setup) == Err(NegativeEpisode) <==> !c.all && c.season >= 1 && c.episode < 0
    ensures (Validate(c, setup).Err? && Validate(c, setup).error.SetupFailed?) <==>
              !c.all && c.season >= 1 && c.episode >= 0 && setup.Some?
    ensures (Validate(c, setup).Err? && Validate(c, setup).error.InvalidMinRate?) <==>
              !c.all && c.season >= 1 && c.episode >= 0 && setup.None? && !RateOk(c.minRate)
  {
  }

  /** --all can never pass: it forces Season to 0, which the unconditional
      season check then refuses. */
  lemma AllNeverValidates(c: Config, setup: Option<string>)
    requires c.all
    ensures Validate(c, setup).Err?
    ensures c.season == 0 && c.episode == 0 ==> Validate(c, setup) == Err(SeasonTooSmall)
  {
  }

  /** Consequently the all-rows branch of Videos is unreachable from a
      validated configuration: every run selects one season or one episode. */
  lemma ValidatedQueryIsNotAll(c: Config, setup: Option<string>)
    requires Validate(c, setup).Ok?
    ensures !Downloader.Query(c.season, c.episode).AllRows?
    ensures Downloader.Query(c.season, c.episode).InSeason? <==> c.episode == 0
  {
  }

  /** Validate as evidently intended: the season floor applies only when
      --all is not given. */
  function ValidateIntended(c: Config, setup: Option<string>): Result<(), ConfigError> {
    if c.all && (c.season != 0 || c.episode != 0) then Err(AllWithSelection)
    else if !c.all && c.season == 0 && c.episode == 0 then Err(NoSelection)
    else if !c.all && c.season < 1 then Err(SeasonTooSmall)
    else if c.episode < 0 then Err(NegativeEpisode)
    else if setup.Some? then Err(SetupFailed(setup.value))
    else if !RateOk(c.minRate) then Err(InvalidMinRate(c.minRate))
    else Ok(())
  }

  /** The intended check accepts exactly --all alone, or a season of at
      least 1 with an episode of at least 0. */
  lemma ValidateIntendedAccepts(c: Config, setup: Option<string>)
    ensures ValidateIntended(c, setup).Ok? <==>
              ((c.all && c.season == 0 && c.episode == 0) || (!c.all && c.season >= 1 && c.episode >= 0))
              && setup.None? && RateOk(c.minRate)
  {
  }

  /** Under the intended check --all reaches the all-rows branch of Videos,
      and it differs from Validate only on --all. */
  lemma ValidateIntendedReachesAll(c: Config, setup: Option<string>)
    ensures ValidateIntended(c, setup).Ok? && c.all ==> Downloader.Query(c.season, c.episode).AllRows?
    ensures !c.all ==> ValidateIntended(c, setup) == Validate(c, setup)
  {
  }

  /** DBPath: the database file inside the configuration directory. */
  function DBPath(c: Config): (r: string)
    ensures c.configDir == "" ==> r == "southpark.db"
    ensures c.configDir != "" ==> StartsWith(r, c.configDir) && EndsWith(r, "/southpark.db")
    ensures c.configDir != "" ==> |r| == |c.configDir| + |"/southpark.db"|
  {
    PathJoin(c.configDir, "southpark.db")
  }
}
