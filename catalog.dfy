/**
 * The episode catalog of sql.go: one table keyed by (season, episode) with
 * the columns title, url, description, imageUrl and date. The SQL engine is
 * not modelled; the table is a map from key to row and each statement's
 * meaning becomes the contract of the method that runs it.
 */
module Catalog {
  import opened Wrappers
  import opened Text

  datatype Error = NotFound

  type Key = (int, int)

  /** One row of the table (the Video struct). The date is kept as the text
      the crawler stored, not as a parsed time. */
  datatype Video = Video(
    title: string,
    season: int,
    episode: int,
    url: string,
    description: string,
    imageUrl: string,
    date: string)
  {
    function Key(): Key { (season, episode) }

    /** Output file template: South_Park_S<season>E<episode>.%(ext)s with both
        numbers printed by %02d. */
    function Format(): string {
      "South_Park_S" + Pad2(season) + "E" + Pad2(episode) + ".%(ext)s"
    }

    /** Output sub-directory name: S<season> printed by %02d. */
    function SeasonString(): string {
      "S" + Pad2(season)
    }
  }

  /** fmt's %02d: the decimal text, padded with zeros after the sign to at
      least two characters. */
  function Pad2(n: int): (r: string)
  {
    if n < 0 then "-" + NatToString(-n)
    else if n < 10 then "0" + NatToString(n)
    else NatToString(n)
  }

  /** A non-negative number is printed as at least two digits that read back
      as the number itself. */
  lemma Pad2Digits(n: nat)
    ensures |Pad2(n)| >= 2 && AllDigits(Pad2(n))
    ensures DigitsValue(Pad2(n)) == n
    ensures n < 100 ==> |Pad2(n)| == 2
  {
    DigitsValueOfNatToString(n);
    var d := NatToString(n);
    if n < 10 {
      assert Pad2(n) == "0" + d;
      assert |d| == 1;
      assert DigitsValue(Pad2(n)) == 10 * DigitsValue("0") + DigitsValue(d) by {
        assert ("0" + d)[..1] == "0";
      }
    } else {
      assert |NatToString(n / 10)| >= 1;
      if n < 100 {
        assert n / 10 < 10;
      }
    }
  }

  /** Splitting "a" + "E" + "b" where `a` and `c` hold digits only: the
      position of the first 'E' decides the split. */
  lemma SplitAtFirstE(a: string, b: string, c: string, d: string)
    requires AllDigits(a) && AllDigits(c)
    requires a + "E" + b == c + "E" + d
    ensures a == c && b == d
  {
    var x := a + "E" + b;
    assert forall i :: 0 <= i < |a| ==> x[i] == a[i] && x[i] != 'E';
    assert forall i :: 0 <= i < |c| ==> x[i] == c[i] && x[i] != 'E';
    assert x[|a|] == 'E' && x[|c|] == 'E';
    assert a == x[..|a|] == c;
    assert b == x[|a| + 1..] == d;
  }

  /** A file name of the Format shape determines its two digit fields. */
  lemma FormatFields(a: string, b: string, c: string, d: string)
    requires AllDigits(a) && AllDigits(c)
    requires "South_Park_S" + a + "E" + b + ".%(ext)s" == "South_Park_S" + c + "E" + d + ".%(ext)s"
    ensures a == c && b == d
  {
    var x := a + "E" + b;
    var y := c + "E" + d;
    var n := |"South_Park_S"|;
    assert "South_Park_S" + a + "E" + b + ".%(ext)s" == "South_Park_S" + x + ".%(ext)s";
    assert "South_Park_S" + c + "E" + d + ".%(ext)s" == "South_Park_S" + y + ".%(ext)s";
    assert |x| == |y|;
    assert x == ("South_Park_S" + x + ".%(ext)s")[n..n + |x|];
    assert y == ("South_Park_S" + y + ".%(ext)s")[n..n + |y|];
    SplitAtFirstE(a, b, c, d);
  }

  /** Distinct non-negative keys give distinct file names, so two catalog
      rows never download to the same file. */
  lemma FormatInjective(v: Video, w: Video)
    requires v.season >= 0 && v.episode >= 0 && w.season >= 0 && w.episode >= 0
    requires v.Format() == w.Format()
    ensures v.Key() == w.Key()
  {
    Pad2Digits(v.season);
    Pad2Digits(v.episode);
    Pad2Digits(w.season);
    Pad2Digits(w.episode);
    FormatFields(Pad2(v.season), Pad2(v.episode), Pad2(w.season), Pad2(w.episode));
  }

  /** The ordering of `ORDER BY season DESC, episode DESC`. */
  predicate KeyLe(a: Key, b: Key) {
    a.0 < b.0 || (a.0 == b.0 && a.1 <= b.1)
  }

  /** No element occurs twice. */
  predicate Distinct<T(==)>(s: seq<T>) {
    forall i, j :: 0 <= i < j < |s| ==> s[i] != s[j]
  }

  /** Which rows a query selects: the WHERE clauses of allVideos,
      seasonVideos and episodeVideo. */
  datatype Selector = AllRows | InSeason(season: int) | OneEpisode(season: int, episode: int) {
    predicate Selects(k: Key) {
      match this
      case AllRows => true
      case InSeason(s) => k.0 == s
      case OneEpisode(s, e) => k == (s, e)
    }
  }

  class Catalog {
    var rows: map<Key, Video>

    /** The primary key columns of every row agree with its key. */
    ghost predicate Valid()
      reads this
    {
      forall k | k in rows :: rows[k].Key() == k
    }

    /** True iff some row has exactly this url. */
    ghost predicate HasUrl(u: string)
      reads this
    {
      exists k :: k in rows && rows[k].url == u
    }

    /** CREATE TABLE IF NOT EXISTS on a fresh database. */
    constructor ()
      ensures Valid() && rows == map[]
    {
      rows := map[];
    }

    /** INSERT OR REPLACE: the row at (season, episode) becomes the new
        row in full; every other key keeps its row. */
    method Insert(title: string, season: int, episode: int, url: string,
                  description: string, imageUrl: string, date: string)
      requires Valid()
      modifies this
      ensures Valid()
      ensures rows == old(rows)[(season, episode) := Video(title, season, episode, url, description, imageUrl, date)]
    {
      rows := rows[(season, episode) := Video(title, season, episode, url, description, imageUrl, date)];
    }

    /** SELECT url FROM southpark WHERE url = ?: exact string comparison. */
    method Visited(u: string) returns (visited: bool)
      ensures visited <==> HasUrl(u)
    {
      var todo := rows.Keys;
      visited := false;
      while todo != {} && !visited
        invariant todo <= rows.Keys
        invariant !visited ==> forall k :: k in rows && k !in todo ==> rows[k].url != u
        invariant visited ==> HasUrl(u)
        decreases todo
      {
        var k :| k in todo;
        visited := rows[k].url == u;
        todo := todo - {k};
      }
    }

    /** SELECT url ... ORDER BY season DESC, episode DESC LIMIT 1: the url of
        the row with the greatest key; NotFound iff the table is empty. */
    method Last() returns (r: Result<string, Error>)
      ensures r.Err? <==> rows == map[]
      ensures r.Err? ==> r.error == NotFound
      ensures r.Ok? ==> exists k :: k in rows && rows[k].url == r.value
                                   && forall j :: j in rows ==> KeyLe(j, k)
    {
      if rows == map[] {
        return Err(NotFound);
      }
      var todo := rows.Keys;
      var best :| best in todo;
      while todo != {}
        invariant todo <= rows.Keys && best in rows
        invariant forall j :: j in rows && j !in todo ==> KeyLe(j, best)
        decreases todo
      {
        var k :| k in todo;
        if KeyLe(best, k) {
          best := k;
        }
        todo := todo - {k};
      }
      r := Ok(rows[best].url);
    }

    /** The scan loop shared by the multi-row queries: appends every
        selected row exactly once, in no particular order. */
    method Collect(sel: Selector) returns (vs: seq<Video>)
      requires Valid()
      ensures Distinct(vs)
      ensures forall v :: v in vs ==> v.Key() in rows && rows[v.Key()] == v && sel.Selects(v.Key())
      ensures forall k :: k in rows && sel.Selects(k) ==> rows[k] in vs
    {
      var todo := rows.Keys;
      vs := [];
      while todo != {}
        invariant todo <= rows.Keys
        invariant Distinct(vs)
        invariant forall v :: v in vs ==>
                    v.Key() in rows && v.Key() !in todo && rows[v.Key()] == v && sel.Selects(v.Key())
        invariant forall k :: k in rows && k !in todo && sel.Selects(k) ==> rows[k] in vs
        decreases todo
      {
        var k :| k in todo;
        if sel.Selects(k) {
          vs := vs + [rows[k]];
        }
        todo := todo - {k};
      }
    }

    /** SELECT ... WHERE season = ?: exactly the rows of that season, each
        once; NotFound iff there are none. */
    method Season(season: int) returns (r: Result<seq<Video>, Error>)
      requires Valid()
      ensures r.Err? <==> forall k :: k in rows ==> k.0 != season
      ensures r.Err? ==> r.error == NotFound
      ensures r.Ok? ==> Distinct(r.value)
      ensures r.Ok? ==> forall v :: v in r.value <==> v.Key() in rows && rows[v.Key()] == v && v.season == season
    {
      var vs := Collect(InSeason(season));
      if vs == [] {
        return Err(NotFound);
      }
      assert vs[0] in vs;
      r := Ok(vs);
    }

    /** SELECT ... WHERE season = ? AND episode = ?: the row keyed
        (season, episode), or NotFound. */
    method Episode(season: int, episode: int) returns (r: Result<Video, Error>)
      requires Valid()
      ensures r.Ok? <==> (season, episode) in rows
      ensures r.Ok? ==> r.value == rows[(season, episode)]
                        && r.value.season == season && r.value.episode == episode
      ensures r.Err? ==> r.error == NotFound
    {
      if (season, episode) in rows {
        r := Ok(rows[(season, episode)]);
      } else {
        r := Err(NotFound);
      }
    }

    /** SELECT ... FROM southpark: every row once; NotFound iff the table
        is empty. */
    method All() returns (r: Result<seq<Video>, Error>)
      requires Valid()
      ensures r.Err? <==> rows == map[]
      ensures r.Err? ==> r.error == NotFound
      ensures r.Ok? ==> Distinct(r.value)
      ensures r.Ok? ==> forall v :: v in r.value <==> v.Key() in rows && rows[v.Key()] == v
    {
      var vs := Collect(AllRows);
      if vs == [] {
        assert rows.Keys == {};
        return Err(NotFound);
      }
      assert vs[0] in vs;
      r := Ok(vs);
    }
  }
}
