# southpark-downloader, modelled in Dafny

A model of southpark-downloader's core, with proofs about it. The program crawls the
South Park web site for episode pages and keeps one catalog row per
(season, episode). It then hands the selected episodes to an external
downloader, one at a time. Around that core sit small helpers for git,
process execution and shell quoting.

There is one module per source file:

- **Catalog** (`catalog.dfy`, sql.go): the episode table. It is a class whose state is a
  map from (season, episode) to a row. Each SQL statement becomes the contract of the
  method that runs it. The file-name template of a row (`Format`, `SeasonString`) is here too.
- **EpisodeLink** (`episode_link.dfy`, the expression at main.go:112):
  - The expression is written down as data, and its meaning is stated as a predicate
    with no anchor at the start.
  - The recogniser is a right-to-left scanner that never backtracks. It is proved to
    decide that meaning.
- **Crawler** (`crawler.dfy`, the callbacks of CollectUrls in main.go):
  - the request gate with its `skippable` flag;
  - the meta-tag extraction loop;
  - the link filter;
  - the crawl itself, as a depth-first loop over a finite map from URL to page, filling
    a catalog instance.
- **Downloader** (`download.dfy`, main.go): `Videos`, the fail-fast `Download` loop and
  the command line `DownloadVideo` builds, including the dry run.
- **Config** (`config.dfy`, config/config.go): the guard chain of `Validate`, the rate
  format and `DBPath`.
- **SouthPark** (`southpark.dfy`, southpark.go): `InitialUrl`. The parts of Go's
  `url.ParseRequestURI` and `URL.String` that it depends on are written out.
- **Git**, **Exec**, **ExecUnix** (`git.dfy`, `exec.dfy`, `exec_unix.dfy`): the utils
  package. What a process prints, and whether a command exists, enter as parameters.
- **Text** (`text.dfy`) and **Wrappers** (`wrappers.dfy`): the Go library string
  functions these files call, and Option/Result.

A Go string is modelled as its sequence of runes. Go's `len` on a string counts UTF-8
bytes; it is modelled by `Text.Utf8Len` where the source compares lengths.

Some behaviours of the crawler that follow from the code:

- A page yields a row when six tags carry recognised properties (main.go:181-210). These
  are counted as tag occurrences, so six title tags are enough.
- A page without a row still has its links followed. The link handler (main.go:229-258)
  runs apart from the meta handler.
- The crawl is depth first. colly's `Request.Visit` (main.go:254-255) handles the new page
  before it returns, so each page's links are handled in document order, after the whole
  crawl below the link before.
- A release date that does not parse becomes Go's zero time, not the epoch
  (main.go:200-203). The date is kept as text in any case.

## Model

| member | source | states |
|---|---|---|
| Catalog.Pad2Digits | sql.go:144-150 | `%02d` prints a non-negative number as at least two digits, exactly two below 100, that read back as the number |
| Catalog.FormatFields | sql.go:144-146 | a file name of the Format shape determines its two digit fields |
| Catalog.FormatInjective | sql.go:144-146 | two rows with distinct non-negative keys never get the same output file name |
| Catalog.Catalog.constructor | sql.go:15-28 | a fresh table is empty and keyed consistently |
| Catalog.Catalog.Insert | sql.go:30-40 | INSERT OR REPLACE: the row at (season, episode) becomes the new row in full and every other key keeps its row, so a following Episode(season, episode) returns the inserted fields |
| Catalog.Catalog.Visited | sql.go:119-132 | true iff some row's url equals the argument exactly |
| Catalog.Catalog.Last | sql.go:95-117 | NotFound iff the table is empty; otherwise the url of a row whose key is greatest by season, then episode |
| Catalog.Catalog.Collect | sql.go:159-174 | the scan loop returns every selected row exactly once and nothing else |
| Catalog.Catalog.Season | sql.go:152-181 | exactly the rows of that season, none twice; NotFound iff there are none |
| Catalog.Catalog.Episode | sql.go:183-203 | the row keyed (season, episode), or NotFound iff there is none |
| Catalog.Catalog.All | sql.go:205-234 | every row once; NotFound iff the table is empty |
| EpisodeLink.SuffixMatchIsSomeSuffix | main.go:112 | the unanchored-start reading of a pattern holds iff some suffix of the text matches the whole pattern |
| EpisodeLink.ScanCorrect | main.go:112 | the non-backtracking scanner accepts exactly the texts the pattern matches, for every pattern whose repeated classes each follow a literal not wholly inside the class |
| EpisodeLink.EpisodePatternDeterminate | main.go:112 | the episode pattern has that property |
| EpisodeLink.EpisodeLinkIsSuffixMatch | main.go:112 | the recogniser decides the episode pattern |
| EpisodeLink.EpisodeLinkIffSuffixMatches | main.go:112 | an href is an episode link iff some suffix of it matches the whole expression, ending where the href ends |
| EpisodeLink.SuffixMatchPrefix | main.go:112 | putting any text in front of a match keeps it a match |
| EpisodeLink.EpisodeLinkPrefix | main.go:112 | if s is an episode link, so is p + s, for every p |
| EpisodeLink.EpisodePathIsEpisodeLink | main.go:112 | every path built from parts of the right character classes is an episode link |
| EpisodeLink.FirstEpisodePathIsEpisodeLink | main.go:111-112 | the English first-episode path is an episode link |
| EpisodeLink.GermanFirstEpisodePathIsEpisodeLink | main.go:110-112 | the German first-episode path is an episode link |
| EpisodeLink.AboutUsIsNotEpisodeLink | main.go:112 | `/about-us` is not an episode link |
| Crawler.RowOf | main.go:212-220 | the inserted row is keyed by the season and episode from the tags and carries the request URL |
| Crawler.ExtractMeta | main.go:172-210 | the tag loop returns no row below six recognised tags, and otherwise the last value given for each property, with strconv.Atoi for the numbers and the defaults of Attr/AttrOr |
| Crawler.LaterTagWins | main.go:182-205 | a later tag overrides earlier ones for its property; a recognised tag adds one to the count; any other tag changes nothing |
| Crawler.RepeatedTag | main.go:181-205 | tags are counted as occurrences: n copies of one recognised tag count n |
| Crawler.SixTitleTagsMakeARow | main.go:181-210 | six title tags alone give a row, with every other field at its default |
| Crawler.NumberFieldOfTag | main.go:188-193 | a season or episode tag reads back the number Itoa printed; text Atoi rejects reads as 0 |
| Crawler.FollowIff | main.go:229-258 | a link is followed iff it is not the page's path or URL, parses, is an episode link and is not in the catalog |
| Crawler.AbortIff | main.go:246-252 | the request is aborted iff the catalog lookup fails for a link that would otherwise be considered; no other link consults the catalog |
| Crawler.Collector.constructor | main.go:141-150 | a new collector has requested nothing and `skippable` is false |
| Crawler.Collector.OnRequest | main.go:150-161 | the first request proceeds even for a catalogued URL; every later request for a catalogued URL is aborted |
| Crawler.Collector.OnPage | main.go:168-227 | the page handler inserts exactly the row the tags describe, or nothing |
| Crawler.Collector.OnLink | main.go:229-258 | the link handler's action is the link decision for the catalog's current contents |
| Crawler.Collector.Request | main.go:150-161 | a URL is requested at most once; the page goes to the page handler iff the gate lets it through and the site has it |
| Crawler.Collector.HandleLink | main.go:229-258 | the action is the link decision for the catalog before the link; an ignored link changes nothing; a followed link's resolved target is requested, and its page is fetched iff it is new to the collector, on the site and let through by the gate, inserting exactly that page's row |
| Crawler.Collector.Step | main.go:229-258 | handling one link of a handled page gives the link decision; a candidate link is then settled (its target requested, or the link catalogued before the crawl or fetched during it); a page is fetched iff the link is followed and its target is new, on the site and let through by the gate, and the fetched page is the link's target, appended to the pages handled; the catalog is unchanged unless a page is fetched, and then gets that page's row, if its tags give one, written over its key |
| Crawler.Collector.Advance | main.go:229-258 | a used-up top frame is dropped and nothing else changes, the catalog included; otherwise its first link gets the link decision, the frame keeps the rest of its links, and a page is handled and pushed with all its links iff the link is followed and its target is new, on the site and let through by the gate; every candidate link of a handled page stays settled or pending, every unhandled request of the site was turned away for a URL catalogued before the crawl; the catalog changes only by the handled page's row written over its key; and the termination measure decreases |
| Crawler.Collector.TakeLink | main.go:229-258 | for a top frame with links left: the first link gets the link decision and is taken off, a page is handled and pushed with all its links iff the link is followed and its target is new, on the site and let through by the gate, and the catalog changes only by that page's row written over its key |
| Crawler.Collector.Walk | main.go:229-263 | when the stack is empty every candidate link of every handled page is settled; pages are handled once each, each after the first is the target of a candidate link on an earlier page, every request is accounted for, every requested page of the site that was not handled was catalogued before the crawl, and the catalog is the starting catalog with the rows of the handled pages written over it in order, the last write at a key winning |
| Crawler.Collector.Crawl | main.go:260-265 | the start page is fetched iff it is new to the collector, on the site and let through by the gate; it is then the first page handled; every candidate link of every handled page, with or without a row, is settled; a requested page of the site goes unhandled only if it was catalogued before the crawl; the catalog afterwards is the catalog before with the rows of the handled pages written over it in order, the last write at a key winning |
| Crawler.CollectUrls | main.go:124-265 | resumes from the URL of the greatest catalogued key, else from the seed; fails iff there is no start URL or the start page is missing; on success the pages handled start there and are reached by candidate links; every requested page of the site is handled unless it was catalogued before, no candidate link of a handled page is left unsettled, and the catalog becomes the one it was with the handled pages' rows written over it in order, the last write at a key winning |
| Crawler.FilledStep | main.go:212-220 | handling no page leaves the written catalog as it is; handling one more page writes that page's row, if any, over its key |
| Crawler.FilledLastWrite | main.go:212-220 | after the crawl, a handled page's row is in the catalog under its key unless a later handled page wrote a row with the same season and episode |
| Crawler.FilledUnwritten | main.go:212-220 | a key that no handled page writes keeps its row from before the crawl, or stays absent |
| Crawler.FilledRowsFrom | main.go:168-227 | the written catalog keeps every key it started with, and each row it changed carries the URL of a handled page and is the row that page's tags give |
| Downloader.Query | main.go:283-297 | (0, 0) selects every row; (s, 0) selects a season; otherwise one episode |
| Downloader.Videos | main.go:283-297 | returns exactly the selected rows, each once; NotFound iff nothing is selected |
| Downloader.PlanDir | main.go:301 | the downloader runs in `S<season %02d>` under the output directory |
| Downloader.PlanArgs | main.go:307-336 | the argument vector is the fragment count, the rate, the Format template and the video URL, after the resolved script |
| Downloader.FirstFailure | main.go:274-279 | the position of the first failing download: all before it succeed |
| Downloader.FirstFailureAt | main.go:274-279 | the first failure is where the first failing video is |
| Downloader.Download | main.go:274-279 | a dry run starts nothing and succeeds; otherwise the downloads start in order up to and including the first failure, and none after it |
| Downloader.Run | main.go:268-281 | a failed selection starts nothing; otherwise the run is Download's loop over the selection, each selected row once; every download started is of a selected row, and a successful run that is not a dry run has started every selected row's download |
| Config.RateOkIff | config/config.go:34 | a rate is accepted iff it is one or more ASCII digits followed by exactly one of K, M, G |
| Config.RateNeedsDigitsAndUnit | config/config.go:102-104 | a bare number, including the empty text, is refused |
| Config.ValidateAccepts | config/config.go:36-107 | Validate accepts iff not --all, the season is at least 1, the episode at least 0, setup succeeded and the rate is well formed |
| Config.ValidateFirstFailure | config/config.go:36-104 | the first failing guard, in source order, decides the error; the rate is checked only after setup succeeded |
| Config.AllNeverValidates | config/config.go:37-47 | --all is never accepted; with no season or episode it fails the season check |
| Config.ValidatedQueryIsNotAll | config/config.go:45-47 | a validated configuration never reaches the all-rows branch of Videos |
| Config.ValidateIntendedAccepts | config/config.go:45-47 | the corrected check accepts --all alone, or a season of at least 1 with an episode of at least 0 |
| Config.ValidateIntendedReachesAll | config/config.go:36-51 | under the corrected check --all reaches the all-rows branch; without --all the two checks agree |
| Config.DBPath | config/config.go:109-111 | `southpark.db` alone for an empty directory; otherwise exactly the directory, one separator and `southpark.db` |
| SouthPark.ScanScheme | southpark.go:39 | the scheme scan finds a colon after a letter and scheme characters only |
| SouthPark.SplitQuery | southpark.go:39 | the query is cut at the first `?`; a single trailing `?` forces an empty query |
| SouthPark.ParsedWellFormed | southpark.go:39 | every URL the parser accepts is well formed |
| SouthPark.RenderRoundTrip | southpark.go:58-60 | a well-formed URL with a plain absolute path prints to text that parses back to the same URL |
| SouthPark.SeedPathOk | southpark.go:58 | the seed path is absolute, with no second slash, control character, `?` or `%` |
| SouthPark.InitialUrlFails | southpark.go:38-42 | InitialUrl fails iff the address does not parse, with the parser's error; `data` has no influence; `""` is refused |
| SouthPark.InitialUrlRoundTrip | southpark.go:39-60 | the result parses back to the redirect target with only the path replaced by the seed path |
| SouthPark.InitialUrlOpaque | southpark.go:58-60 | an opaque target prints as it was, without the seed path |
| SouthPark.InitialUrlIsEpisodeLink | southpark.go:58-60 | without a query the result ends with the seed path and is an episode link |
| SouthPark.SeededRenderIsEpisodeLink | southpark.go:58-60 | any well-formed URL without a query, printed with the seed path, is an episode link |
| Git.NonEmptyTrimmed | utils/git.go:257-268 | the filter loop's result is no longer than its input and holds only non-empty trimmed lines |
| Git.RemoveEmptyLines | utils/git.go:247-269 | the two loops compute CleanLines: the input itself if no line is empty, else its trimmed non-blank lines |
| Git.NonEmptyTrimmedHas | utils/git.go:257-268 | a line survives iff it trims to something non-empty, and then in its trimmed form |
| Git.NonEmptyTrimmedOfClean | utils/git.go:257-268 | lines that are already trimmed and non-blank come back unchanged |
| Git.CleanLinesShape | utils/git.go:247-269 | never longer than the input; unchanged when no line is empty; otherwise trimmed and non-empty lines only |
| Git.CleanLinesIdempotent | utils/git.go:247-269 | removing empty lines twice is removing them once |
| Git.OneLineChecks | utils/git.go:18-21 | GitGetBranchName and GitRemoteUrl succeed only if exactly one line survives the clean-up (and, for GitRemoteUrl, it parses as a git URL); the branch name is that line and the remote URL is that line normalised |
| Git.OneLineOutput | utils/git.go:36-40 | a line printed with its newline comes back as exactly that line |
| Git.BranchNameOfOutput | utils/git.go:31-41 | a branch name printed by git is the name reported |
| Git.DefaultBranchCases | utils/git.go:222-228 | no surviving line is an error; otherwise one leading `<remote>/` is removed from the first line |
| Git.DefaultBranchOfOutput | utils/git.go:215-229 | `origin/main` printed for remote `origin` gives `main` |
| Git.CloneArgsDepth | utils/git.go:62-84 | the clone depth is 1 without a depth argument, else the first one; branch, URL and directory follow |
| Git.CommitSubject | utils/git.go:195-199 | the subject is a prefix of the message, cut to 50 runes when the message has 50 or more |
| Exec.ReportedOutput | utils/exec.go:32-35 | the error output is reported only when it has strictly more bytes; a tie reports the combined output |
| Exec.ErrorTextShape | utils/exec.go:36-41 | the message is the fixed prefix, the command and a space, then the arguments joined by spaces, then the exit code and the longer of the two outputs |
| Exec.OutputLines | utils/exec.go:77-84 | one line more than there are newlines; each line trimmed and without a newline |
| Exec.OutputLinesOfJoin | utils/exec.go:77-84 | output made of trimmed lines joined by newlines splits back into those lines |
| Exec.ExecuteWithOutput | utils/exec.go:45-85 | an unavailable command is reported and nothing runs; a failure carries both outputs trimmed; success gives the trimmed lines |
| Exec.ExecutePath | utils/exec.go:88-114 | an unavailable command is reported and nothing runs; a failure carries only the exit code, command and arguments |
| Exec.StripUnsafe | utils/exec.go:119-127 | the result is no longer than the input and holds only printable runes |
| Exec.StripUnsafeAppend | utils/exec.go:119-127 | stripping works piece by piece, so the kept runes stay in order |
| Exec.StripUnsafeKeeps | utils/exec.go:119-127 | a rune survives iff it occurs in the input and is printable |
| Exec.StripUnsafePrintable | utils/exec.go:119-127 | printable text is left unchanged |
| Exec.StripUnsafeIdempotent | utils/exec.go:119-127 | stripping twice is stripping once |
| ExecUnix.ShellQuote | utils/exec_unix.go:32-42 | never empty; `''` for the empty text; safe text unchanged; otherwise single-quoted at both ends |
| ExecUnix.ReadEscaped | utils/exec_unix.go:38 | inside single quotes the escaped text reads back as the original |
| ExecUnix.UnquoteShellQuote | utils/exec_unix.go:30-42 | the result, read as one shell word under section 2.2 of the POSIX.1-2017 Shell Command Language, is the input |
| ExecUnix.ParseSubErrorCode | utils/exec_unix.go:24-26 | the sub-error code is always 0 on Unix |
| Text.TrimSpace | utils/exec.go:81 | the trimmed text is no longer than the input and has no white space at either end |
| Text.TrimSpaceIsInfix | utils/exec.go:81 | TrimSpace keeps a contiguous middle part and drops only white space around it |
| Text.TrimSpaceEmptyIff | utils/git.go:262-265 | trimming gives the empty text iff the input is all white space |
| Text.TrimSpaceIdempotent | utils/git.go:262 | trimming twice is trimming once |
| Text.JoinSplit | utils/exec.go:79 | joining the pieces of a split with the separator gives back the input |
| Text.SplitJoin | utils/exec.go:79 | splitting a join of separator-free pieces gives back the pieces |
| Text.TrimPrefix | utils/git.go:227 | one copy of the prefix is removed when present; otherwise the text is unchanged |
| Text.AtoiOfIntToString | main.go:189 | Atoi reads back what Itoa prints, for every 64-bit integer |
| Text.Atoi | main.go:189 | the value is within the 64-bit range and 0 for text strconv.Atoi rejects |
| Text.PathJoin | config/config.go:110 | an empty element is dropped; otherwise the result starts with the first element and ends with a separator and the second |
| Text.PathJoinLength | config/config.go:110 | two present elements are joined by exactly one separator: the first element, `/`, the second, and nothing else |

## Left out

- transport.go, colly.go and `GetIndex`/`StartingUrl` (southpark.go:11-36, 63-76) are HTTP, context cancellation and collector set-up. The redirect target and the page body enter `InitialUrl` as arguments. The seed enters `Crawler.CollectUrls` as an Option.
- The empty-body re-visit (main.go:143-147) depends on colly's revisit policy. With revisits disallowed (colly.go:21) it is refused, so the model does not re-request.
- Crawler.Collector.Walk: the site is a finite map from URL to page, and link parsing, resolution and taking a path are function fields of `Crawler.Web`. `url.Parse`, goquery and HTML parsing are not modelled.
- Crawler.Collector.Walk, Crawler.Collector.Crawl: that a fetched episode page was not in the catalog when it was requested is stated per request, in Crawler.Collector.Request, and not for the whole crawl. The catalog at the end is stated exactly, as the last-write-wins fold `Crawler.Filled`. That fold does not record which URLs were catalogued at each request.
- Catalog: the SQLite engine, its errors and the date parsing with `time.Parse` are not modelled. Dates are opaque text, so the `time.Parse` failure path of Season, Episode and All is absent.
- Crawler.Collector.OnRequest: the catalog lookup cannot fail in the model. The source ignores that error anyway. A failing lookup in the link handler is modelled only in `Crawler.LinkDecision`.
- Crawler.Collector.OnPage: an insert error, which aborts the request, is not modelled, because the in-memory table does not fail.
- Text.PathJoin, Config.DBPath: the lexical clean-up that filepath.Join applies is not modelled, so a trailing slash or a `.` or `..` element in the directory is kept (`cfg/` and `southpark.db` give `cfg//southpark.db`).
- Downloader.Download: `os.MkdirAll`, `filepath.Abs` errors and path cleaning are not modelled. Whether a downloader run succeeds is a predicate on its command line. `runtime.NumCPU` and `runtime.GOOS` are fields of `Settings`.
- Config.Validate: the directory, git URL and clone steps (config/config.go:53-100) are I/O. They enter as their outcome, the `setup` argument.
- SouthPark.ParseHier: the host and user-information checks of `parseAuthority` and the escaping of `URL.String` are not modelled. Paths, hosts and user information stay in escaped form, and fragments do not occur in a request URI.
- SouthPark.RenderRoundTrip: requires a path made of a slash and no second slash, control character, `?` or `%`. The seed path is such a path.
- Exec.ExecuteWithOutput: process execution and `IsApplicationAvailable` are parameters. These are the command's availability and the run's outputs and exit code.
- Exec.StripUnsafe: `unicode.IsPrint` is the parameter `isPrint`.
- Git.RemoteUrl: `giturls.Parse` followed by `String` is the parameter `normalise`.
- The git helpers that are one process call and an error wrap are not modelled, because they compute nothing of their own. These are GitExistsBranch, GitChangeRemoteUrl, GitCheckRemoteUrl, GitRefreshIndex, GitPull, GitFetchPrune, GitPullPrune, GitCheckoutNewBranch, GitCheckoutBranch, GitDeleteBranch, GitDeleteRemoteBranch, GitAddAll, GitPushUpstream, GitCreateTag and GitPushTags.
- ExecUnix.UnquoteShellQuote: the word reader covers single quotes, double quotes and the characters the quoting pattern lets through unquoted. It refuses `$`, the backquote and the backslash inside double quotes. The rest of the shell's word expansion is not modelled.
- Text: strings are sequences of runes. Invalid UTF-8 is not modelled.
- utils/fs.go and the command-line wiring of main.go:25-107 are file-system and CLI glue.

## Findings

| source | as written | input that shows it | evidently intended | confidence | as-written member | corrected member |
|---|---|---|---|---|---|---|
| config/config.go:45-47 | `Season < 1` is refused whether or not `--all` is given, and `--all` requires Season 0 | All = true, Season = 0, Episode = 0, working setup, MinRate "1M": refused with "season must be greater than 0" | the season floor applies only without `--all`, so that `--all` downloads every row | not executed | Config.AllNeverValidates | Config.ValidateIntendedAccepts |
