/**
 * The crawl callbacks of main.go (CollectUrls): the request gate, the
 * meta-tag extraction that turns an episode page into a catalog row, and
 * the link filter that decides which hrefs to follow.
 *
 * A page is given as the list of its meta tags that carry a property
 * attribute and the list of its hrefs, in document order. Parsing a link
 * (url.Parse), resolving it against the page URL and taking a URL's path are
 * library code and enter as function parameters.
 */
module Crawler {
  import opened Wrappers
  import opened Text
  import opened Catalog
  import opened EpisodeLink

  /** A <meta property=... content=...> tag; the content attribute may be
      missing. */
  datatype Meta = Meta(property: string, content: Option<string>)

  /** What the crawler sees of a fetched page. */
  datatype Page = Page(meta: seq<Meta>, hrefs: seq<string>)

  const TitleProperty := "search:episodeTitle"
  const SeasonProperty := "search:seasonNumber"
  const EpisodeProperty := "search:episodeNumber"
  const DescriptionProperty := "og:description"
  const ImageProperty := "og:image"
  const DateProperty := "og:video:release_date"

  /** Release date read when the date tag has no content attribute. */
  const DefaultReleaseDate := "1970-01-01T00:00:00.000Z"
  /** Go's zero time, kept when no date tag is present at all. */
  const ZeroDate := "0001-01-01T00:00:00.000Z"

  /** The six property names the extraction switch recognises. */
  predicate Recognised(property: string) {
    property == TitleProperty || property == SeasonProperty || property == EpisodeProperty
    || property == DescriptionProperty || property == ImageProperty || property == DateProperty
  }

  /** Number of tags whose property is recognised (occurrences, not names). */
  function Count(meta: seq<Meta>): (n: nat)
    ensures n <= |meta|
  {
    if meta == [] then 0
    else Count(meta[..|meta| - 1]) + (if Recognised(meta[|meta| - 1].property) then 1 else 0)
  }

  /** The content of the last tag with this property: None when there is no
      such tag, Some(None) when that tag has no content attribute. */
  function LastContent(meta: seq<Meta>, property: string): Option<Option<string>>
  {
    if meta == [] then None
    else if meta[|meta| - 1].property == property then Some(meta[|meta| - 1].content)
    else LastContent(meta[..|meta| - 1], property)
  }

  /** A text field: Attr("content") gives "" when the attribute is missing,
      and the variable keeps "" when no tag is seen. */
  function TextField(meta: seq<Meta>, property: string): string {
    match LastContent(meta, property)
    case None => ""
    case Some(c) => c.GetOr("")
  }

  /** A number field: Atoi(AttrOr("content", "0")), 0 when no tag is seen. */
  function NumberField(meta: seq<Meta>, property: string): int {
    match LastContent(meta, property)
    case None => 0
    case Some(c) => Atoi(c.GetOr("0"))
  }

  /** The date field, kept as text. */
  function DateField(meta: seq<Meta>): string {
    match LastContent(meta, DateProperty)
    case None => ZeroDate
    case Some(c) => c.GetOr(DefaultReleaseDate)
  }

  /** The values the page handler passes to Insert, besides the URL. */
  datatype Fields = Fields(title: string, season: int, episode: int,
                           description: string, imageUrl: string, date: string)

  /** What the page handler extracts from a page's meta tags: nothing when
      fewer than six recognised tags are present, otherwise the value of the
      last tag for each property. */
  function MetaFields(meta: seq<Meta>): Option<Fields> {
    if Count(meta) < 6 then None
    else Some(Fields(TextField(meta, TitleProperty),
                     NumberField(meta, SeasonProperty),
                     NumberField(meta, EpisodeProperty),
                     TextField(meta, DescriptionProperty),
                     TextField(meta, ImageProperty),
                     DateField(meta)))
  }

  /** The row Insert writes for a page at `url`. */
  function RowOf(f: Fields, url: string): (v: Video)
    ensures v.Key() == (f.season, f.episode) && v.url == url
  {
    Video(f.title, f.season, f.episode, url, f.description, f.imageUrl, f.date)
  }

  /** The handler for "html": one pass over the tags, overwriting a local
      per property and counting recognised tags; no row below six. */
  method ExtractMeta(meta: seq<Meta>) returns (r: Option<Fields>)
    ensures r == MetaFields(meta)
  {
    var title, description, imageUrl := "", "", "";
    var season, episode := 0, 0;
    var date := ZeroDate;
    var cnt := 0;
    for i := 0 to |meta|
      invariant cnt == Count(meta[..i])
      invariant title == TextField(meta[..i], TitleProperty)
      invariant season == NumberField(meta[..i], SeasonProperty)
      invariant episode == NumberField(meta[..i], EpisodeProperty)
      invariant description == TextField(meta[..i], DescriptionProperty)
      invariant imageUrl == TextField(meta[..i], ImageProperty)
      invariant date == DateField(meta[..i])
    {
      assert meta[..i + 1][..i] == meta[..i];
      var m := meta[i];
      if m.property == TitleProperty {
        title := m.content.GetOr("");
        cnt := cnt + 1;
      } else if m.property == SeasonProperty {
        season := Atoi(m.content.GetOr("0"));
        cnt := cnt + 1;
      } else if m.property == EpisodeProperty {
        episode := Atoi(m.content.GetOr("0"));
        cnt := cnt + 1;
      } else if m.property == DescriptionProperty {
        description := m.content.GetOr("");
        cnt := cnt + 1;
      } else if m.property == ImageProperty {
        imageUrl := m.content.GetOr("");
        cnt := cnt + 1;
      } else if m.property == DateProperty {
        date := m.content.GetOr(DefaultReleaseDate);
        cnt := cnt + 1;
      }
    }
    assert meta[..|meta|] == meta;
    if cnt < 6 {
      return None;
    }
    return Some(Fields(title, season, episode, description, imageUrl, date));
  }

  /** A later tag overrides the earlier ones for its property and leaves
      every other property alone; it adds one to the count when its property
      is recognised, and a tag with any other property changes nothing. */
  lemma LaterTagWins(meta: seq<Meta>, m: Meta)
    ensures LastContent(meta + [m], m.property) == Some(m.content)
    ensures Count(meta + [m]) == Count(meta) + (if Recognised(m.property) then 1 else 0)
    ensures !Recognised(m.property) ==> MetaFields(meta + [m]) == MetaFields(meta)
  {
    assert (meta + [m])[..|meta|] == meta;
  }

  /** A page whose tags all repeat one tag. */
  lemma {:induction false} RepeatedTag(meta: seq<Meta>, t: Meta, q: string)
    requires |meta| > 0 && forall i :: 0 <= i < |meta| ==> meta[i] == t
    ensures LastContent(meta, q) == if q == t.property then Some(t.content) else None
    ensures Count(meta) == if Recognised(t.property) then |meta| else 0
  {
    var init := meta[..|meta| - 1];
    if |init| > 0 {
      RepeatedTag(init, t, q);
    }
  }

  /** The count is of tags, not of distinct names: six copies of the title
      tag are enough for a row, with every other field at its default. */
  lemma SixTitleTagsMakeARow(title: string)
    ensures MetaFields(seq(6, _ => Meta(TitleProperty, Some(title))))
         == Some(Fields(title, 0, 0, "", "", ZeroDate))
  {
    var t := Meta(TitleProperty, Some(title));
    var meta := seq(6, _ => t);
    RepeatedTag(meta, t, TitleProperty);
    RepeatedTag(meta, t, SeasonProperty);
    RepeatedTag(meta, t, EpisodeProperty);
    RepeatedTag(meta, t, DescriptionProperty);
    RepeatedTag(meta, t, ImageProperty);
    RepeatedTag(meta, t, DateProperty);
  }

  /** The season and episode read back the number the site printed; text
      strconv.Atoi rejects reads as 0. */
  lemma NumberFieldOfTag(meta: seq<Meta>, property: string, s: string)
    requires LastContent(meta, property) == Some(Some(s))
    ensures IsDecimal(s) ==> MinInt64 <= NumberField(meta, property) <= MaxInt64
    ensures !IsDecimal(s) ==> NumberField(meta, property) == 0
    ensures forall n :: MinInt64 <= n <= MaxInt64 && s == IntToString(n) ==> NumberField(meta, property) == n
  {
    forall n | MinInt64 <= n <= MaxInt64 && s == IntToString(n)
      ensures NumberField(meta, property) == n
    {
      AtoiOfIntToString(n);
    }
  }

  /** What the catalog lookup in the link handler reports. */
  datatype Lookup = Seen | Unseen | LookupFailed

  /** What the link handler does with one href. */
  datatype LinkAction = Ignore | Follow | AbortRequest

  /** The handler for "a[href]": links to the page itself (by path or by full
      URL) and links that do not parse are dropped; a link the recogniser
      accepts is followed unless the catalog has it, and a failed lookup
      aborts the request. */
  function LinkDecision(reqPath: string, reqUrl: string, link: string,
                        parses: bool, lookup: Lookup): LinkAction
  {
    if link == reqPath || link == reqUrl then Ignore
    else if !parses then Ignore
    else if !IsEpisodeLink(link) then Ignore
    else match lookup
      case LookupFailed => AbortRequest
      case Seen => Ignore
      case Unseen => Follow
  }

  /** A link is followed exactly when it is not the page itself, parses, is
      an episode link and the catalog does not have it. */
  lemma FollowIff(reqPath: string, reqUrl: string, link: string, parses: bool, lookup: Lookup)
    ensures LinkDecision(reqPath, reqUrl, link, parses, lookup) == Follow
        <==> link != reqPath && link != reqUrl && parses && IsEpisodeLink(link) && lookup == Unseen
  {
  }

  /** A request is aborted exactly when the lookup for a link that would
      otherwise be considered fails; the lookup is not consulted for any other
      link. */
  lemma AbortIff(reqPath: string, reqUrl: string, link: string, parses: bool, lookup: Lookup)
    ensures LinkDecision(reqPath, reqUrl, link, parses, lookup) == AbortRequest
        <==> link != reqPath && link != reqUrl && parses && IsEpisodeLink(link) && lookup == LookupFailed
    ensures !(link != reqPath && link != reqUrl && parses && IsEpisodeLink(link)) ==>
            forall l :: LinkDecision(reqPath, reqUrl, link, parses, l) == Ignore
  {
  }

  /** `v` is the row the page handler writes for the page at `u`. */
  ghost predicate RowFromPage(site: map<string, Page>, u: string, v: Video) {
    u in site && MetaFields(site[u].meta).Some? && v == RowOf(MetaFields(site[u].meta).value, u)
  }

  /** What the crawl sees of the web: the pages by URL, and the library code
      it calls on links (whether url.Parse accepts a link, the resolution of
      a link against the URL of its page, and the path of a URL). */
  datatype Web = Web(site: map<string, Page>, parses: string -> bool,
                     resolve: (string, string) -> string, pathOf: string -> string)

  /** The filter of the a[href] handler before the catalog lookup: not the
      page itself, by path or by URL; accepted by url.Parse; an episode link. */
  predicate Candidate(w: Web, u: string, link: string) {
    link != w.pathOf(u) && link != u && w.parses(link) && IsEpisodeLink(link)
  }

  /** Some row of `rows` has exactly the url `u`. */
  ghost predicate UrlIn(rows: map<Key, Video>, u: string) {
    exists k :: k in rows && rows[k].url == u
  }

  /** Every row of `rows0` is still keyed in `rows`, and every row of `rows`
      is unchanged from `rows0` or was written from one of the pages
      `fetched`. */
  ghost predicate RowsFrom(rows0: map<Key, Video>, rows: map<Key, Video>, site: map<string, Page>,
                           fetched: seq<string>) {
    (forall k :: k in rows0 ==> k in rows)
    && forall k :: k in rows ==>
         (k in rows0 && rows[k] == rows0[k]) || (rows[k].url in fetched && RowFromPage(site, rows[k].url, rows[k]))
  }

  lemma RowsFromStart(rows0: map<Key, Video>, site: map<string, Page>, u: string)
    requires u in site
    ensures RowsFrom(rows0, rows0, site, [u])
    ensures MetaFields(site[u].meta).Some? ==>
              var v := RowOf(MetaFields(site[u].meta).value, u);
              RowsFrom(rows0, rows0[v.Key() := v], site, [u])
  {
  }

  lemma RowsFromAppend(rows0: map<Key, Video>, rows: map<Key, Video>, site: map<string, Page>,
                       fetched: seq<string>, t: string)
    requires RowsFrom(rows0, rows, site, fetched) && t in site
    ensures RowsFrom(rows0, rows, site, fetched + [t])
    ensures MetaFields(site[t].meta).Some? ==>
              var v := RowOf(MetaFields(site[t].meta).value, t);
              RowsFrom(rows0, rows[v.Key() := v], site, fetched + [t])
  {
    forall k | k in rows && !(k in rows0 && rows[k] == rows0[k])
      ensures rows[k].url in fetched + [t]
    {
    }
  }

  /** The row the page handler inserts for the page at `t`, if any. */
  function PageRow(site: map<string, Page>, t: string): Option<Video> {
    if t in site && MetaFields(site[t].meta).Some? then Some(RowOf(MetaFields(site[t].meta).value, t))
    else None
  }

  /** PageRow for every URL of the site. */
  function PageRows(site: map<string, Page>): string -> Option<Video> {
    t => PageRow(site, t)
  }

  /** The catalog after the pages `fetched` went through the page handler,
      in order, starting from `rows0`, where `rowOf` gives the row the
      handler writes for a page (PageRows for the site): each row is an
      INSERT OR REPLACE, so the last page written at a key wins. */
  function Filled(rows0: map<Key, Video>, rowOf: string -> Option<Video>, fetched: seq<string>): map<Key, Video>
  {
    if fetched == [] then rows0
    else Put(Filled(rows0, rowOf, fetched[..|fetched| - 1]), rowOf(fetched[|fetched| - 1]))
  }

  /** `rows` with `row`, if any, written at its key. */
  function Put(rows: map<Key, Video>, row: Option<Video>): map<Key, Video> {
    match row
    case None => rows
    case Some(v) => rows[v.Key() := v]
  }

  lemma FilledAppend(rows0: map<Key, Video>, rowOf: string -> Option<Video>, fetched: seq<string>, t: string)
    ensures Filled(rows0, rowOf, fetched + [t]) == Put(Filled(rows0, rowOf, fetched), rowOf(t))
  {
    assert (fetched + [t])[..|fetched|] == fetched;
  }

  /** One more handled page, or none, keeps the catalog the fold of the
      pages handled. */
  lemma FilledStep(rows0: map<Key, Video>, rowOf: string -> Option<Video>, fetched: seq<string>, fetched': seq<string>,
                   rows: map<Key, Video>, rows': map<Key, Video>)
    requires fetched <= fetched' && |fetched'| <= |fetched| + 1
    requires rows == Filled(rows0, rowOf, fetched)
    requires rows' == if |fetched'| > |fetched| then Put(rows, rowOf(fetched'[|fetched|])) else rows
    ensures rows' == Filled(rows0, rowOf, fetched')
  {
    if |fetched'| > |fetched| {
      assert fetched' == fetched + [fetched'[|fetched|]];
      FilledAppend(rows0, rowOf, fetched, fetched'[|fetched|]);
    } else {
      assert fetched' == fetched;
    }
  }

  /** A handled page with a row that no later handled page overwrites has
      its row in the catalog. */
  lemma {:induction false} FilledLastWrite(rows0: map<Key, Video>, rowOf: string -> Option<Video>, fetched: seq<string>, i: nat)
    requires i < |fetched| && rowOf(fetched[i]).Some?
    requires forall j :: i < j < |fetched| && rowOf(fetched[j]).Some? ==>
               rowOf(fetched[j]).value.Key() != rowOf(fetched[i]).value.Key()
    ensures var v := rowOf(fetched[i]).value;
            v.Key() in Filled(rows0, rowOf, fetched) && Filled(rows0, rowOf, fetched)[v.Key()] == v
  {
    var n := |fetched|;
    var init := fetched[..n - 1];
    assert init + [fetched[n - 1]] == fetched;
    FilledAppend(rows0, rowOf, init, fetched[n - 1]);
    if i < n - 1 {
      forall j | i < j < |init| && rowOf(init[j]).Some?
        ensures rowOf(init[j]).value.Key() != rowOf(init[i]).value.Key()
      {
        assert init[j] == fetched[j];
      }
      assert init[i] == fetched[i];
      FilledLastWrite(rows0, rowOf, init, i);
    }
  }

  /** A key no handled page writes keeps the row it had before the crawl,
      or stays absent. */
  lemma {:induction false} FilledUnwritten(rows0: map<Key, Video>, rowOf: string -> Option<Video>, fetched: seq<string>, k: Key)
    requires forall j :: 0 <= j < |fetched| && rowOf(fetched[j]).Some? ==> rowOf(fetched[j]).value.Key() != k
    ensures k in Filled(rows0, rowOf, fetched) <==> k in rows0
    ensures k in rows0 ==> Filled(rows0, rowOf, fetched)[k] == rows0[k]
  {
    if fetched != [] {
      var n := |fetched|;
      var init := fetched[..n - 1];
      assert init + [fetched[n - 1]] == fetched;
      FilledAppend(rows0, rowOf, init, fetched[n - 1]);
      forall j | 0 <= j < |init| && rowOf(init[j]).Some?
        ensures rowOf(init[j]).value.Key() != k
      {
        assert init[j] == fetched[j];
      }
      FilledUnwritten(rows0, rowOf, init, k);
    }
  }

  /** The fold keeps every row of the starting catalog's keys and writes
      only rows of handled pages, each the one its page's metadata gives. */
  lemma {:induction false} FilledRowsFrom(rows0: map<Key, Video>, site: map<string, Page>, fetched: seq<string>)
    ensures RowsFrom(rows0, Filled(rows0, PageRows(site), fetched), site, fetched)
  {
    if fetched != [] {
      var n := |fetched|;
      var init, last := fetched[..n - 1], fetched[n - 1];
      assert init + [last] == fetched;
      FilledAppend(rows0, PageRows(site), init, last);
      FilledRowsFrom(rows0, site, init);
      var prev := Filled(rows0, PageRows(site), init);
      assert PageRows(site)(last) == PageRow(site, last);
      if last in site {
        RowsFromAppend(rows0, prev, site, init, last);
      } else {
        forall k | k in prev && !(k in rows0 && prev[k] == rows0[k])
          ensures prev[k].url in init + [last]
        {
        }
      }
    }
  }

  /** A url the catalog has during the crawl was there at its start or is
      one of the pages handled since. */
  lemma UrlInRowsFrom(rows0: map<Key, Video>, rows: map<Key, Video>, site: map<string, Page>,
                      fetched: seq<string>, l: string)
    requires RowsFrom(rows0, rows, site, fetched) && UrlIn(rows, l)
    ensures UrlIn(rows0, l) || l in fetched
  {
    var k :| k in rows && rows[k].url == l;
  }

  /** `u` is the target of a candidate link on one of the first `n` pages of
      `fetched`. */
  ghost predicate FollowedFrom(w: Web, fetched: seq<string>, n: nat, u: string) {
    exists j, l :: 0 <= j < n && j < |fetched| && fetched[j] in w.site && l in w.site[fetched[j]].hrefs
                   && Candidate(w, fetched[j], l) && u == w.resolve(fetched[j], l)
  }

  /** Handling one more page, and looking at more pages, keeps every
      followed target followed. */
  lemma FollowedFromAppend(w: Web, fetched: seq<string>, n: nat, m: nat, u: string, t: string)
    requires FollowedFrom(w, fetched, n, u) && n <= m
    ensures FollowedFrom(w, fetched + [t], m, u)
  {
    var j, l :| 0 <= j < n && j < |fetched| && fetched[j] in w.site && l in w.site[fetched[j]].hrefs
                && Candidate(w, fetched[j], l) && u == w.resolve(fetched[j], l);
    assert (fetched + [t])[j] == fetched[j];
  }

  /** The pages of a crawl, in the order they were handled: pages of the
      site requested during this crawl, none twice, and every one after the
      first the target of a candidate link on an earlier page. */
  ghost predicate FetchedInOrder(w: Web, fetched: seq<string>, newly: set<string>) {
    (forall i :: 0 <= i < |fetched| ==> fetched[i] in w.site && fetched[i] in newly)
    && (forall i, j :: 0 <= i < j < |fetched| ==> fetched[i] != fetched[j])
    && (forall i :: 0 < i < |fetched| ==> FollowedFrom(w, fetched, i, fetched[i]))
  }

  /** Every URL requested during a crawl is its start page or the target of
      a candidate link on a page it handled. */
  ghost predicate RequestedFrom(w: Web, fetched: seq<string>, newly: set<string>) {
    |fetched| > 0 && forall u :: u in newly ==> u == fetched[0] || FollowedFrom(w, fetched, |fetched|, u)
  }

  /** What becomes of a candidate link `l` on the page `u`: its target is
      requested, or the catalog has `l`, either from before the crawl or as
      a page handled since. */
  ghost predicate Settled(w: Web, rows0: map<Key, Video>, requested: set<string>, fetched: seq<string>,
                          u: string, l: string) {
    w.resolve(u, l) in requested || UrlIn(rows0, l) || l in fetched
  }

  /** Every candidate link of every handled page is settled. */
  ghost predicate Complete(w: Web, rows0: map<Key, Video>, requested: set<string>, fetched: seq<string>) {
    forall i, l :: (0 <= i < |fetched| && fetched[i] in w.site && l in w.site[fetched[i]].hrefs
                    && Candidate(w, fetched[i], l)) ==> Settled(w, rows0, requested, fetched, fetched[i], l)
  }

  /** Every page of the site requested during the crawl and not handled
      was turned away by the request hook, which only a URL catalogued
      before the crawl can cause. */
  ghost predicate TurnedAway(w: Web, rows0: map<Key, Video>, newly: set<string>, fetched: seq<string>) {
    forall u :: u in newly && u in w.site && u !in fetched ==> UrlIn(rows0, u)
  }

  /** One more request, turned away or handled, keeps TurnedAway. */
  lemma TurnedAwayMore(w: Web, rows0: map<Key, Video>, newly: set<string>, newly': set<string>,
                       fetched: seq<string>, fetched': seq<string>, t: string)
    requires TurnedAway(w, rows0, newly, fetched) && newly' <= newly + {t}
    requires forall x :: x in fetched ==> x in fetched'
    requires t in newly' && t !in newly && t in w.site && t !in fetched' ==> UrlIn(rows0, t)
    ensures TurnedAway(w, rows0, newly', fetched')
  {
  }

  /** A newly followed target keeps the crawl's pages in order and the
      requests accounted for. */
  lemma FollowTarget(w: Web, fetched: seq<string>, newly: set<string>, newly': set<string>, t: string)
    requires FetchedInOrder(w, fetched, newly) && RequestedFrom(w, fetched, newly)
    requires FollowedFrom(w, fetched, |fetched|, t) && newly <= newly' <= newly + {t}
    ensures FetchedInOrder(w, fetched, newly') && RequestedFrom(w, fetched, newly')
  {
  }

  /** A followed target that is fetched becomes the next page handled. */
  lemma FetchTarget(w: Web, fetched: seq<string>, newly: set<string>, t: string)
    requires FetchedInOrder(w, fetched, newly) && RequestedFrom(w, fetched, newly)
    requires FollowedFrom(w, fetched, |fetched|, t) && t in w.site && t in newly && t !in fetched
    ensures FetchedInOrder(w, fetched + [t], newly) && RequestedFrom(w, fetched + [t], newly)
  {
    FetchTargetInOrder(w, fetched, newly, t);
    var fetched' := fetched + [t];
    forall v | v in newly && v != fetched'[0]
      ensures FollowedFrom(w, fetched', |fetched'|, v)
    {
      FollowedFromAppend(w, fetched, |fetched|, |fetched'|, v, t);
    }
  }

  lemma FetchTargetInOrder(w: Web, fetched: seq<string>, newly: set<string>, t: string)
    requires FetchedInOrder(w, fetched, newly)
    requires FollowedFrom(w, fetched, |fetched|, t) && t in w.site && t in newly && t !in fetched
    ensures FetchedInOrder(w, fetched + [t], newly)
  {
    var fetched' := fetched + [t];
    forall i | 0 <= i < |fetched'|
      ensures fetched'[i] in w.site && fetched'[i] in newly
    {
      if i < |fetched| {
        assert fetched'[i] == fetched[i];
      }
    }
    forall i, j | 0 <= i < j < |fetched'|
      ensures fetched'[i] != fetched'[j]
    {
      assert fetched'[i] == fetched[i];
      if j < |fetched| {
        assert fetched'[j] == fetched[j];
      } else {
        assert fetched[i] in fetched;
      }
    }
    forall i | 0 < i < |fetched'|
      ensures FollowedFrom(w, fetched', i, fetched'[i])
    {
      if i < |fetched| {
        assert fetched'[i] == fetched[i];
        FollowedFromAppend(w, fetched, i, i, fetched[i], t);
      } else {
        FollowedFromAppend(w, fetched, |fetched|, i, t, t);
      }
    }
  }

  /** A page whose links are still being handled, with the links left. */
  datatype Frame = Frame(url: string, links: seq<string>)

  function LinksLeft(frames: seq<Frame>): nat {
    if frames == [] then 0 else LinksLeft(frames[..|frames| - 1]) + |frames[|frames| - 1].links|
  }

  lemma LinksLeftAppend(frames: seq<Frame>, f: Frame)
    ensures LinksLeft(frames + [f]) == LinksLeft(frames) + |f.links|
  {
    assert (frames + [f])[..|frames|] == frames;
  }

  /** Every frame belongs to a handled page and holds links of that page. */
  ghost predicate FramesOk(w: Web, fetched: seq<string>, frames: seq<Frame>) {
    forall k :: 0 <= k < |frames| ==>
      frames[k].url in fetched && frames[k].url in w.site
      && forall l :: l in frames[k].links ==> l in w.site[frames[k].url].hrefs
  }

  /** Taking the first link off the top frame keeps the frames well formed. */
  lemma FramesOkNext(w: Web, fetched: seq<string>, frames: seq<Frame>)
    requires frames != [] && frames[|frames| - 1].links != [] && FramesOk(w, fetched, frames)
    ensures var top := frames[|frames| - 1];
            FramesOk(w, fetched, frames[..|frames| - 1] + [Frame(top.url, top.links[1..])])
  {
    var top := frames[|frames| - 1];
    var next := frames[..|frames| - 1] + [Frame(top.url, top.links[1..])];
    forall k | 0 <= k < |next|
      ensures next[k].url in fetched && next[k].url in w.site
      ensures forall l :: l in next[k].links ==> l in w.site[next[k].url].hrefs
    {
      if k == |frames| - 1 {
        assert forall l :: l in top.links[1..] ==> l in top.links;
      }
    }
  }

  /** A newly handled page and its frame keep the frames well formed. */
  lemma FramesOkPush(w: Web, fetched: seq<string>, frames: seq<Frame>, t: string)
    requires FramesOk(w, fetched, frames) && t in w.site
    ensures FramesOk(w, fetched + [t], frames + [Frame(t, w.site[t].hrefs)])
  {
    var frames' := frames + [Frame(t, w.site[t].hrefs)];
    forall k | 0 <= k < |frames'|
      ensures frames'[k].url in fetched + [t] && frames'[k].url in w.site
      ensures forall l :: l in frames'[k].links ==> l in w.site[frames'[k].url].hrefs
    {
      if k < |frames| {
        assert frames'[k] == frames[k];
      }
    }
  }

  /** The link `l` of the page `u` is still to be handled. */
  ghost predicate Pending(frames: seq<Frame>, u: string, l: string) {
    exists k :: 0 <= k < |frames| && frames[k].url == u && l in frames[k].links
  }

  /** Every candidate link of every handled page is settled or still to be
      handled. */
  ghost predicate SettledOrPending(w: Web, rows0: map<Key, Video>, requested: set<string>,
                                   fetched: seq<string>, frames: seq<Frame>) {
    forall i, l :: (0 <= i < |fetched| && fetched[i] in w.site && l in w.site[fetched[i]].hrefs
                    && Candidate(w, fetched[i], l)) ==>
                     Settled(w, rows0, requested, fetched, fetched[i], l) || Pending(frames, fetched[i], l)
  }

  /** Dropping a frame whose links are used up loses nothing. */
  lemma SettledOrPendingPop(w: Web, rows0: map<Key, Video>, requested: set<string>,
                            fetched: seq<string>, frames: seq<Frame>)
    requires frames != [] && frames[|frames| - 1].links == []
    requires SettledOrPending(w, rows0, requested, fetched, frames)
    ensures SettledOrPending(w, rows0, requested, fetched, frames[..|frames| - 1])
  {
    var init := frames[..|frames| - 1];
    forall i, l | 0 <= i < |fetched| && fetched[i] in w.site && l in w.site[fetched[i]].hrefs
                  && Candidate(w, fetched[i], l) && !Settled(w, rows0, requested, fetched, fetched[i], l)
      ensures Pending(init, fetched[i], l)
    {
      var k :| 0 <= k < |frames| && frames[k].url == fetched[i] && l in frames[k].links;
      assert init[k] == frames[k];
    }
  }

  /** Taking the first link off the top frame, once that link is settled,
      loses nothing; more requests never unsettle a link. */
  lemma SettledOrPendingNext(w: Web, rows0: map<Key, Video>, requested: set<string>, requested': set<string>,
                             fetched: seq<string>, frames: seq<Frame>)
    requires frames != [] && frames[|frames| - 1].links != []
    requires SettledOrPending(w, rows0, requested, fetched, frames) && requested <= requested'
    requires var top := frames[|frames| - 1];
             Candidate(w, top.url, top.links[0]) ==> Settled(w, rows0, requested', fetched, top.url, top.links[0])
    ensures var top := frames[|frames| - 1];
            SettledOrPending(w, rows0, requested', fetched, frames[..|frames| - 1] + [Frame(top.url, top.links[1..])])
  {
    var top := frames[|frames| - 1];
    var next := frames[..|frames| - 1] + [Frame(top.url, top.links[1..])];
    forall i, l | 0 <= i < |fetched| && fetched[i] in w.site && l in w.site[fetched[i]].hrefs
                  && Candidate(w, fetched[i], l) && !Settled(w, rows0, requested', fetched, fetched[i], l)
      ensures Pending(next, fetched[i], l)
    {
      assert !Settled(w, rows0, requested, fetched, fetched[i], l);
      var k :| 0 <= k < |frames| && frames[k].url == fetched[i] && l in frames[k].links;
      if k < |frames| - 1 {
        assert next[k] == frames[k];
      } else {
        assert top.links == [top.links[0]] + top.links[1..];
        assert next[k] == Frame(top.url, top.links[1..]);
      }
    }
  }

  /** A newly handled page comes with a frame holding all its links. */
  lemma SettledOrPendingPush(w: Web, rows0: map<Key, Video>, requested: set<string>,
                             fetched: seq<string>, frames: seq<Frame>, t: string)
    requires t in w.site && SettledOrPending(w, rows0, requested, fetched, frames)
    ensures SettledOrPending(w, rows0, requested, fetched + [t], frames + [Frame(t, w.site[t].hrefs)])
  {
    var fetched', frames' := fetched + [t], frames + [Frame(t, w.site[t].hrefs)];
    forall i, l | 0 <= i < |fetched'| && fetched'[i] in w.site && l in w.site[fetched'[i]].hrefs
                  && Candidate(w, fetched'[i], l) && !Settled(w, rows0, requested, fetched', fetched'[i], l)
      ensures Pending(frames', fetched'[i], l)
    {
      if i < |fetched| {
        assert fetched'[i] == fetched[i];
        var k :| 0 <= k < |frames| && frames[k].url == fetched[i] && l in frames[k].links;
        assert frames'[k] == frames[k];
      } else {
        assert frames'[|frames|] == Frame(t, w.site[t].hrefs);
      }
    }
  }

  /** Requesting one more URL of the site leaves fewer unrequested ones. */
  lemma FewerUnrequested(sites: set<string>, requested: set<string>, u: string)
    ensures |sites - (requested + {u})| <= |sites - requested|
    ensures u in sites && u !in requested ==> |sites - (requested + {u})| < |sites - requested|
  {
    if u in sites && u !in requested {
      assert sites - requested == (sites - (requested + {u})) + {u};
    } else {
      assert sites - (requested + {u}) == sites - requested;
    }
  }

  /** The collector of one CollectUrls run: the catalog it fills, the
      `skippable` flag the request hook closes over, and the set of URLs
      already requested (revisits are not allowed, colly.go:21). */
  class Collector {
    const catalog: Catalog
    var skippable: bool
    var requested: set<string>

    constructor (catalog: Catalog)
      ensures this.catalog == catalog && !skippable && requested == {}
    {
      this.catalog := catalog;
      skippable := false;
      requested := {};
    }

    /** The request hook: the first request always goes ahead, even for a
        URL the catalog has; every later request for a URL the catalog has
        is aborted. */
    method OnRequest(u: string) returns (proceed: bool)
      modifies this
      ensures skippable && requested == old(requested)
      ensures proceed <==> !old(skippable) || !catalog.HasUrl(u)
    {
      var visited := catalog.Visited(u);
      if !skippable {
        skippable := true;
      } else if visited {
        return false;
      }
      return true;
    }

    /** The page handler: inserts the row the meta tags describe, if any. */
    method OnPage(u: string, meta: seq<Meta>)
      requires catalog.Valid()
      modifies catalog
      ensures catalog.Valid()
      ensures MetaFields(meta).None? ==> catalog.rows == old(catalog.rows)
      ensures MetaFields(meta).Some? ==>
                catalog.rows == old(catalog.rows)[RowOf(MetaFields(meta).value, u).Key() := RowOf(MetaFields(meta).value, u)]
    {
      var fields := ExtractMeta(meta);
      if fields.Some? {
        var f := fields.value;
        catalog.Insert(f.title, f.season, f.episode, u, f.description, f.imageUrl, f.date);
      }
    }

    /** The link handler for one href of the page at `u` whose path is
        `path`: the catalog is consulted only for episode links. */
    method OnLink(u: string, path: string, link: string, parses: bool) returns (action: LinkAction)
      ensures action == LinkDecision(path, u, link, parses, if catalog.HasUrl(link) then Seen else Unseen)
      ensures action != AbortRequest
    {
      if link == path || link == u || !parses || !IsEpisodeLink(link) {
        return Ignore;
      }
      var visited := catalog.Visited(link);
      action := if visited then Ignore else Follow;
    }

    /** colly's request path for one URL: a URL already requested is
        refused; otherwise it is recorded, the request hook runs, and the page
        (if the site has one) goes to the page handler. */
    method Request(u: string, site: map<string, Page>) returns (page: Option<Page>)
      requires catalog.Valid()
      modifies this, catalog
      ensures catalog.Valid()
      ensures requested == old(requested) + {u}
      ensures skippable == (old(skippable) || u !in old(requested))
      ensures page.Some? <==> u !in old(requested) && u in site && (!old(skippable) || !old(catalog.HasUrl(u)))
      ensures page.Some? ==> page.value == site[u]
      ensures page.Some? && MetaFields(site[u].meta).Some? ==>
                catalog.rows == old(catalog.rows)[RowOf(MetaFields(site[u].meta).value, u).Key() := RowOf(MetaFields(site[u].meta).value, u)]
      ensures page.None? || MetaFields(site[u].meta).None? ==> catalog.rows == old(catalog.rows)
    {
      if u in requested {
        return None;
      }
      requested := requested + {u};
      var proceed := OnRequest(u);
      if !proceed || u !in site {
        return None;
      }
      OnPage(u, site[u].meta);
      return Some(site[u]);
    }

    /** One href of the page at `u`: the link handler decides, and the
        link's target is requested when the handler follows it; nothing else
        changes. */
    method HandleLink(u: string, link: string, w: Web) returns (action: LinkAction, page: Option<Page>, target: string)
      requires catalog.Valid()
      modifies this, catalog
      ensures catalog.Valid()
      ensures action == LinkDecision(w.pathOf(u), u, link, w.parses(link),
                                     if old(catalog.HasUrl(link)) then Seen else Unseen)
      ensures action != Follow ==> page.None? && requested == old(requested) && skippable == old(skippable)
      ensures action == Follow ==>
                && target == w.resolve(u, link) && requested == old(requested) + {target}
                && skippable == (old(skippable) || target !in old(requested))
                && (page.Some? <==> target !in old(requested) && target in w.site
                                    && (!old(skippable) || !old(catalog.HasUrl(target))))
      ensures page.Some? ==> target in w.site && page.value == w.site[target]
      ensures catalog.rows == if page.Some? && MetaFields(w.site[target].meta).Some?
                              then old(catalog.rows)[RowOf(MetaFields(w.site[target].meta).value, target).Key()
                                                     := RowOf(MetaFields(w.site[target].meta).value, target)]
                              else old(catalog.rows)
    {
      page := None;
      target := u;
      action := OnLink(u, w.pathOf(u), link, w.parses(link));
      if action == Follow {
        target := w.resolve(u, link);
        page := Request(target, w.site);
      }
    }

    /** HandleLink for a link of a handled page, with the crawl's
        bookkeeping: the link is settled if it is a candidate, a fetched page
        is appended to the pages handled, and the crawl invariants hold. */
    method Step(u: string, link: string, w: Web,
                ghost base: set<string>, ghost rows0: map<Key, Video>, ghost fetched: seq<string>)
      returns (action: LinkAction, page: Option<Page>, target: string, ghost fetched': seq<string>)
      requires catalog.Valid() && base <= requested
      requires u in fetched && u in w.site && link in w.site[u].hrefs
      requires FetchedInOrder(w, fetched, requested - base) && RequestedFrom(w, fetched, requested - base)
      requires RowsFrom(rows0, catalog.rows, w.site, fetched) && TurnedAway(w, rows0, requested - base, fetched)
      modifies this, catalog
      ensures catalog.Valid() && old(requested) <= requested
      ensures action == LinkDecision(w.pathOf(u), u, link, w.parses(link),
                                     if old(catalog.HasUrl(link)) then Seen else Unseen)
      ensures requested <= old(requested) + {w.resolve(u, link)}
      ensures Candidate(w, u, link) ==> Settled(w, rows0, requested, fetched, u, link)
      ensures fetched' == if page.Some? then fetched + [target] else fetched
      ensures page.Some? ==> target == w.resolve(u, link) && target in w.site && page.value == w.site[target]
      ensures var t := w.resolve(u, link);
              page.Some? <==> action == Follow && t !in old(requested) && t in w.site
                              && (!old(skippable) || !old(catalog.HasUrl(t)))
      ensures FetchedInOrder(w, fetched', requested - base) && RequestedFrom(w, fetched', requested - base)
      ensures RowsFrom(rows0, catalog.rows, w.site, fetched') && TurnedAway(w, rows0, requested - base, fetched')
      ensures catalog.rows == if page.Some? then Put(old(catalog.rows), PageRow(w.site, target)) else old(catalog.rows)
      ensures |w.site.Keys - requested| <= old(|w.site.Keys - requested|)
      ensures page.Some? ==> |w.site.Keys - requested| < old(|w.site.Keys - requested|)
    {
      ghost var rowsBefore, newly := catalog.rows, requested - base;
      action, page, target := HandleLink(u, link, w);
      fetched' := fetched;
      if action == Follow {
        FewerUnrequested(w.site.Keys, old(requested), target);
        ghost var j :| 0 <= j < |fetched| && fetched[j] == u;
        assert FollowedFrom(w, fetched, |fetched|, target) by {
          assert fetched[j] in w.site && link in w.site[fetched[j]].hrefs && Candidate(w, fetched[j], link);
        }
        FollowTarget(w, fetched, newly, requested - base, target);
        if page.Some? {
          assert target !in fetched;
          RowsFromAppend(rows0, rowsBefore, w.site, fetched, target);
          assert catalog.rows == Put(rowsBefore, PageRow(w.site, target));
          FetchTarget(w, fetched, requested - base, target);
          fetched' := fetched + [target];
        } else if target in w.site && target !in old(requested) {
          assert UrlIn(rowsBefore, target);
          UrlInRowsFrom(rows0, rowsBefore, w.site, fetched, target);
          assert target !in fetched;
        }
        TurnedAwayMore(w, rows0, newly, requested - base, fetched, fetched', target);
      } else if Candidate(w, u, link) {
        assert UrlIn(rowsBefore, link);
        UrlInRowsFrom(rows0, rowsBefore, w.site, fetched, link);
      }
    }

    /** The crawl loop: the stack of pages whose links are still being
        handled, innermost last, worked off until it is empty. Every
        candidate link of every page handled is then settled. */
    method Walk(frames0: seq<Frame>, w: Web,
                ghost base: set<string>, ghost rows0: map<Key, Video>, ghost fetched0: seq<string>)
      returns (ghost fetched: seq<string>)
      requires catalog.Valid() && base <= requested
      requires FetchedInOrder(w, fetched0, requested - base) && RequestedFrom(w, fetched0, requested - base)
      requires RowsFrom(rows0, catalog.rows, w.site, fetched0) && TurnedAway(w, rows0, requested - base, fetched0)
      requires catalog.rows == Filled(rows0, PageRows(w.site), fetched0)
      requires FramesOk(w, fetched0, frames0) && SettledOrPending(w, rows0, requested, fetched0, frames0)
      modifies this, catalog
      ensures catalog.Valid() && base <= requested
      ensures FetchedInOrder(w, fetched, requested - base) && RequestedFrom(w, fetched, requested - base)
      ensures RowsFrom(rows0, catalog.rows, w.site, fetched) && TurnedAway(w, rows0, requested - base, fetched)
      ensures catalog.rows == Filled(rows0, PageRows(w.site), fetched)
      ensures Complete(w, rows0, requested, fetched)
      ensures fetched0 <= fetched
    {
      var frames := frames0;
      fetched := fetched0;
      while frames != []
        invariant catalog.Valid() && base <= requested
        invariant FetchedInOrder(w, fetched, requested - base) && RequestedFrom(w, fetched, requested - base)
        invariant RowsFrom(rows0, catalog.rows, w.site, fetched) && TurnedAway(w, rows0, requested - base, fetched)
        invariant catalog.rows == Filled(rows0, PageRows(w.site), fetched)
        invariant FramesOk(w, fetched, frames) && SettledOrPending(w, rows0, requested, fetched, frames)
        invariant fetched0 <= fetched
        decreases |w.site.Keys - requested|, LinksLeft(frames) + |frames|
      {
        var action;
        ghost var before, rowsBefore := fetched, catalog.rows;
        frames, action, fetched := Advance(frames, w, base, rows0, fetched);
        FilledStep(rows0, PageRows(w.site), before, fetched, rowsBefore, catalog.rows);
      }
    }

    /** One step of the walk: the top frame is dropped when its links are
        used up; otherwise its first link is taken off and handled, and a
        fetched page becomes the new top frame with all its links. Either
        fewer URLs of the site are left unrequested, or as many and fewer
        links are left. */
    method Advance(frames: seq<Frame>, w: Web,
                   ghost base: set<string>, ghost rows0: map<Key, Video>, ghost fetched: seq<string>)
      returns (frames': seq<Frame>, action: LinkAction, ghost fetched': seq<string>)
      requires frames != []
      requires catalog.Valid() && base <= requested
      requires FetchedInOrder(w, fetched, requested - base) && RequestedFrom(w, fetched, requested - base)
      requires RowsFrom(rows0, catalog.rows, w.site, fetched) && TurnedAway(w, rows0, requested - base, fetched)
      requires FramesOk(w, fetched, frames) && SettledOrPending(w, rows0, requested, fetched, frames)
      modifies this, catalog
      ensures catalog.Valid() && base <= requested
      ensures FetchedInOrder(w, fetched', requested - base) && RequestedFrom(w, fetched', requested - base)
      ensures RowsFrom(rows0, catalog.rows, w.site, fetched') && TurnedAway(w, rows0, requested - base, fetched')
      ensures catalog.rows == if |fetched'| > |fetched| then Put(old(catalog.rows), PageRow(w.site, fetched'[|fetched|]))
                              else old(catalog.rows)
      ensures FramesOk(w, fetched', frames') && SettledOrPending(w, rows0, requested, fetched', frames')
      ensures fetched <= fetched' && |fetched'| <= |fetched| + 1
      ensures var top := frames[|frames| - 1];
              top.links == [] ==>
                && frames' == frames[..|frames| - 1] && action == Ignore && fetched' == fetched
                && requested == old(requested) && catalog.rows == old(catalog.rows)
      ensures var top := frames[|frames| - 1];
              top.links != [] ==>
                && action == LinkDecision(w.pathOf(top.url), top.url, top.links[0], w.parses(top.links[0]),
                                          if old(catalog.HasUrl(top.links[0])) then Seen else Unseen)
                && requested <= old(requested) + {w.resolve(top.url, top.links[0])}
                && (var t := w.resolve(top.url, top.links[0]);
                    |fetched'| > |fetched| <==> action == Follow && t !in old(requested) && t in w.site
                                                && (!old(skippable) || !old(catalog.HasUrl(t))))
                && (|fetched'| > |fetched| ==> fetched'[|fetched|] == w.resolve(top.url, top.links[0]))
                && frames' == frames[..|frames| - 1] + [Frame(top.url, top.links[1..])]
                              + (if |fetched'| > |fetched| then [Frame(fetched'[|fetched|], w.site[fetched'[|fetched|]].hrefs)] else [])
      ensures |w.site.Keys - requested| < old(|w.site.Keys - requested|)
              || (|w.site.Keys - requested| == old(|w.site.Keys - requested|)
                  && LinksLeft(frames') + |frames'| < LinksLeft(frames) + |frames|)
    {
      var top := frames[|frames| - 1];
      if top.links == [] {
        var rest := frames[..|frames| - 1];
        assert frames == rest + [top];
        LinksLeftAppend(rest, top);
        frames', action, fetched' := rest, Ignore, fetched;
        SettledOrPendingPop(w, rows0, requested, fetched, frames);
      } else {
        frames', action, fetched' := TakeLink(frames, w, base, rows0, fetched);
      }
    }

    /** Advance on a top frame with links left: its first link is handled
        and taken off, and a fetched page is pushed with all its links. */
    method TakeLink(frames: seq<Frame>, w: Web,
                    ghost base: set<string>, ghost rows0: map<Key, Video>, ghost fetched: seq<string>)
      returns (frames': seq<Frame>, action: LinkAction, ghost fetched': seq<string>)
      requires frames != [] && frames[|frames| - 1].links != []
      requires catalog.Valid() && base <= requested
      requires FetchedInOrder(w, fetched, requested - base) && RequestedFrom(w, fetched, requested - base)
      requires RowsFrom(rows0, catalog.rows, w.site, fetched) && TurnedAway(w, rows0, requested - base, fetched)
      requires FramesOk(w, fetched, frames) && SettledOrPending(w, rows0, requested, fetched, frames)
      modifies this, catalog
      ensures catalog.Valid() && base <= requested
      ensures FetchedInOrder(w, fetched', requested - base) && RequestedFrom(w, fetched', requested - base)
      ensures RowsFrom(rows0, catalog.rows, w.site, fetched') && TurnedAway(w, rows0, requested - base, fetched')
      ensures catalog.rows == if |fetched'| > |fetched| then Put(old(catalog.rows), PageRow(w.site, fetched'[|fetched|]))
                              else old(catalog.rows)
      ensures FramesOk(w, fetched', frames') && SettledOrPending(w, rows0, requested, fetched', frames')
      ensures fetched <= fetched' && |fetched'| <= |fetched| + 1
      ensures var top := frames[|frames| - 1];
              && action == LinkDecision(w.pathOf(top.url), top.url, top.links[0], w.parses(top.links[0]),
                                        if old(catalog.HasUrl(top.links[0])) then Seen else Unseen)
              && requested <= old(requested) + {w.resolve(top.url, top.links[0])}
              && (var t := w.resolve(top.url, top.links[0]);
                  |fetched'| > |fetched| <==> action == Follow && t !in old(requested) && t in w.site
                                              && (!old(skippable) || !old(catalog.HasUrl(t))))
              && (|fetched'| > |fetched| ==> fetched'[|fetched|] == w.resolve(top.url, top.links[0]))
              && frames' == frames[..|frames| - 1] + [Frame(top.url, top.links[1..])]
                            + (if |fetched'| > |fetched| then [Frame(fetched'[|fetched|], w.site[fetched'[|fetched|]].hrefs)] else [])
      ensures |w.site.Keys - requested| < old(|w.site.Keys - requested|)
              || (|w.site.Keys - requested| == old(|w.site.Keys - requested|)
                  && LinksLeft(frames') + |frames'| < LinksLeft(frames) + |frames|)
    {
      var top := frames[|frames| - 1];
      var rest := frames[..|frames| - 1];
      assert frames == rest + [top];
      LinksLeftAppend(rest, top);
      ghost var requestedBefore := requested;
      var next := rest + [Frame(top.url, top.links[1..])];
      LinksLeftAppend(rest, Frame(top.url, top.links[1..]));
      assert top.links[0] in top.links;
      var page, target;
      action, page, target, fetched' := Step(top.url, top.links[0], w, base, rows0, fetched);
      SettledOrPendingNext(w, rows0, requestedBefore, requested, fetched, frames);
      FramesOkNext(w, fetched, frames);
      frames' := next;
      if page.Some? {
        assert fetched'[|fetched|] == target;
        SettledOrPendingPush(w, rows0, requested, fetched, next, target);
        FramesOkPush(w, fetched, next, target);
        frames' := next + [Frame(target, page.value.hrefs)];
      }
    }

    /** The crawl from `start`: colly handles a followed link at once, so
        the pages are walked depth first, each page's links in document
        order. `ok` says whether the start page was fetched; `fetched` lists
        the pages handed to the page handler, in order. */
    method Crawl(start: string, w: Web) returns (ok: bool, ghost fetched: seq<string>)
      requires catalog.Valid()
      modifies this, catalog
      ensures catalog.Valid()
      ensures ok <==> start !in old(requested) && start in w.site && (!old(skippable) || !old(catalog.HasUrl(start)))
      ensures ok <==> |fetched| > 0 && fetched[0] == start
      ensures !ok ==> fetched == [] && requested == old(requested) + {start} && catalog.rows == old(catalog.rows)
      ensures old(requested) + {start} <= requested
      ensures ok ==> FetchedInOrder(w, fetched, requested - old(requested))
                     && RequestedFrom(w, fetched, requested - old(requested))
      ensures RowsFrom(old(catalog.rows), catalog.rows, w.site, fetched)
      ensures catalog.rows == Filled(old(catalog.rows), PageRows(w.site), fetched)
      ensures TurnedAway(w, old(catalog.rows), requested - old(requested), fetched)
      ensures Complete(w, old(catalog.rows), requested, fetched)
    {
      ghost var rows0, base := catalog.rows, requested;
      var page := Request(start, w.site);
      ok := page.Some?;
      if ok {
        RowsFromStart(rows0, w.site, start);
        FilledAppend(rows0, PageRows(w.site), [], start);
        assert [] + [start] == [start];
        var frame := Frame(start, page.value.hrefs);
        assert requested - base == {start};
        assert SettledOrPending(w, rows0, requested, [start], [frame]) by {
          forall i, l | 0 <= i < 1 && [start][i] in w.site && l in w.site[[start][i]].hrefs
            ensures Pending([frame], [start][i], l)
          {
            assert [frame][0] == frame;
          }
        }
        fetched := Walk([frame], w, base, rows0, [start]);
      } else {
        fetched := [];
        if start !in base && start in w.site {
          assert UrlIn(rows0, start);
        }
      }
    }
  }

  /** `u` is the url of the row with the greatest key. */
  ghost predicate IsLatest(rows: map<Key, Video>, u: string) {
    exists k :: k in rows && rows[k].url == u && forall j :: j in rows ==> KeyLe(j, k)
  }

  datatype CollectError = SeedFailed | FetchFailed(url: string)

  /** CollectUrls: resume from the latest catalogued episode, or from the
      seed URL when the catalog is empty (`seed` is None when it could not be
      obtained), and crawl from there. Fails iff there is no start URL or
      the start page cannot be fetched; the start page is always fetched when
      the site has it, although a resumed start URL is in the catalog.
      `requested` is what the collector requested. */
  method CollectUrls(catalog: Catalog, seed: Option<string>, w: Web)
    returns (r: Result<(), CollectError>, ghost fetched: seq<string>, ghost requested: set<string>)
    requires catalog.Valid()
    modifies catalog
    ensures catalog.Valid()
    ensures r == Err(SeedFailed) <==> old(catalog.rows) == map[] && seed.None?
    ensures r.Ok? <==> |fetched| > 0
    ensures old(catalog.rows) == map[] && seed.Some? ==>
              (r.Ok? <==> seed.value in w.site) && (r.Ok? ==> fetched[0] == seed.value)
    ensures old(catalog.rows) != map[] ==>
              exists u :: IsLatest(old(catalog.rows), u) && (r.Ok? <==> u in w.site) && (r.Ok? ==> fetched[0] == u)
    ensures r.Ok? ==> FetchedInOrder(w, fetched, requested) && RequestedFrom(w, fetched, requested)
    ensures RowsFrom(old(catalog.rows), catalog.rows, w.site, fetched)
    ensures catalog.rows == Filled(old(catalog.rows), PageRows(w.site), fetched)
    ensures TurnedAway(w, old(catalog.rows), requested, fetched)
    ensures Complete(w, old(catalog.rows), requested, fetched)
  {
    var start: string;
    var last := catalog.Last();
    if last.Ok? {
      start := last.value;
      assert IsLatest(catalog.rows, start);
    } else if seed.Some? {
      start := seed.value;
    } else {
      return Err(SeedFailed), [], {};
    }
    var co := new Collector(catalog);
    var ok;
    ok, fetched := co.Crawl(start, w);
    requested := co.requested;
    if !ok {
      return Err(FetchFailed(start)), fetched, requested;
    }
    return Ok(()), fetched, requested;
  }
}
