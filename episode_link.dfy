/**
 * The episode-link recogniser of main.go: the regular expression
 *   /[a-z]+/[0-9a-z]+/south-park-[0-9a-z-]+-[a-z]+-[0-9]+-[a-z]+-[0-9]+$
 * which is anchored at the end of the link and not at its start.
 *
 * The expression is written down as data (a sequence of literal pieces and
 * one-or-more character-class pieces) with the usual meaning of such a
 * pattern, and the recogniser is a right-to-left scanner that never
 * backtracks. The scanner is proved to agree with the meaning of the pattern
 * for every pattern in which each repeated class is preceded by a literal
 * that does not lie entirely inside that class, which this one is.
 */
module EpisodeLink {
  import opened Text

  datatype CharClass = Lower | LowerDigit | LowerDigitDash | Digits {
    predicate Has(c: char) {
      match this
      case Lower => 'a' <= c <= 'z'
      case LowerDigit => 'a' <= c <= 'z' || '0' <= c <= '9'
      case LowerDigitDash => 'a' <= c <= 'z' || '0' <= c <= '9' || c == '-'
      case Digits => '0' <= c <= '9'
    }
  }

  /** A literal text, or one or more characters of a class. */
  datatype Piece = Lit(w: string) | Plus(cls: CharClass)

  /** Every character of `t` from position `j` on belongs to `cls`. */
  predicate AllInFrom(cls: CharClass, t: string, j: nat) {
    forall i :: j <= i < |t| ==> cls.Has(t[i])
  }

  /** The pattern of main.go:112, piece by piece. */
  const EpisodePattern: seq<Piece> := [
    Lit("/"), Plus(Lower),
    Lit("/"), Plus(LowerDigit),
    Lit("/south-park-"), Plus(LowerDigitDash),
    Lit("-"), Plus(Lower),
    Lit("-"), Plus(Digits),
    Lit("-"), Plus(Lower),
    Lit("-"), Plus(Digits)]

  /** `t` is the concatenation of texts matching the pieces of `p`, in order. */
  ghost predicate FullMatch(p: seq<Piece>, t: string)
    decreases |p|
  {
    if p == [] then t == []
    else
      var init := p[..|p| - 1];
      match p[|p| - 1]
      case Lit(w) => EndsWith(t, w) && FullMatch(init, t[..|t| - |w|])
      case Plus(cls) =>
        exists j :: 0 <= j < |t| && AllInFrom(cls, t, j) && FullMatch(init, t[..j])
  }

  /** The pattern with no anchor at the start and one at the end, read from
      the right; the empty pattern matches whatever text is left. */
  ghost predicate SuffixMatch(p: seq<Piece>, t: string)
    decreases |p|
  {
    if p == [] then true
    else
      var init := p[..|p| - 1];
      match p[|p| - 1]
      case Lit(w) => EndsWith(t, w) && SuffixMatch(init, t[..|t| - |w|])
      case Plus(cls) =>
        exists j :: 0 <= j < |t| && AllInFrom(cls, t, j) && SuffixMatch(init, t[..j])
  }

  lemma {:induction false} SomeSuffixGivesSuffixMatch(p: seq<Piece>, t: string, i: nat)
    requires i <= |t| && FullMatch(p, t[i..])
    ensures SuffixMatch(p, t)
    decreases |p|
  {
    if p != [] {
      var init := p[..|p| - 1];
      var v := t[i..];
      match p[|p| - 1]
      case Lit(w) =>
        var u := t[..|t| - |w|];
        assert v[..|v| - |w|] == u[i..];
        SomeSuffixGivesSuffixMatch(init, u, i);
      case Plus(cls) =>
        var j :| 0 <= j < |v| && AllInFrom(cls, v, j) && FullMatch(init, v[..j]);
        var u := t[..i + j];
        assert v[..j] == u[i..];
        SomeSuffixGivesSuffixMatch(init, u, i);
        assert AllInFrom(cls, t, i + j) by {
          forall q | i + j <= q < |t| ensures cls.Has(t[q]) {
            assert t[q] == v[q - i];
          }
        }
    }
  }

  lemma {:induction false} SuffixMatchGivesSomeSuffix(p: seq<Piece>, t: string) returns (i: nat)
    requires SuffixMatch(p, t)
    ensures i <= |t| && FullMatch(p, t[i..])
    decreases |p|
  {
    if p == [] {
      i := |t|;
    } else {
      var init := p[..|p| - 1];
      match p[|p| - 1]
      case Lit(w) =>
        var u := t[..|t| - |w|];
        i := SuffixMatchGivesSomeSuffix(init, u);
        assert t[i..][..|t[i..]| - |w|] == u[i..];
      case Plus(cls) =>
        var j :| 0 <= j < |t| && AllInFrom(cls, t, j) && SuffixMatch(init, t[..j]);
        var u := t[..j];
        i := SuffixMatchGivesSomeSuffix(init, u);
        var v := t[i..];
        assert v[..j - i] == u[i..];
        assert AllInFrom(cls, v, j - i);
    }
  }

  /** SuffixMatch is exactly "some suffix of t matches p in full". */
  lemma SuffixMatchIsSomeSuffix(p: seq<Piece>, t: string)
    ensures SuffixMatch(p, t) <==> exists i :: 0 <= i <= |t| && FullMatch(p, t[i..])
  {
    if SuffixMatch(p, t) {
      var i := SuffixMatchGivesSomeSuffix(p, t);
    }
    if exists i :: 0 <= i <= |t| && FullMatch(p, t[i..]) {
      var i :| 0 <= i <= |t| && FullMatch(p, t[i..]);
      SomeSuffixGivesSuffixMatch(p, t, i);
    }
  }

  /** Where the run of `cls` characters that ends at position `e` of `t`
      starts. */
  function RunStart(cls: CharClass, t: string, e: nat): (s: nat)
    requires e <= |t|
    ensures s <= e && forall k :: s <= k < e ==> cls.Has(t[k])
    ensures s == 0 || !cls.Has(t[s - 1])
  {
    if e > 0 && cls.Has(t[e - 1]) then RunStart(cls, t, e - 1) else e
  }

  /** Start of the longest suffix of `w` made of characters of `cls`. */
  function TailStart(cls: CharClass, w: string): nat {
    RunStart(cls, w, |w|)
  }

  /** Every repeated class follows a literal that is not made entirely of
      characters of that class, so the scanner never needs to backtrack. */
  predicate Determinate(p: seq<Piece>) {
    forall i :: 0 < i < |p| && p[i].Plus? ==>
      p[i - 1].Lit? && TailStart(p[i].cls, p[i - 1].w) > 0
  }

  /** How many trailing characters of the literal before a class piece
      also belong to the class (0 when no literal precedes it). */
  function Back(init: seq<Piece>, cls: CharClass): nat {
    if |init| > 0 && init[|init| - 1].Lit? then
      var w := init[|init| - 1].w;
      |w| - TailStart(cls, w)
    else 0
  }

  /** Where the scanner lets a class piece start: at the start of the
      longest run, moved right past the literal's own class characters. */
  function PlusSplit(init: seq<Piece>, cls: CharClass, t: string): nat {
    RunStart(cls, t, |t|) + Back(init, cls)
  }

  /** Right-to-left scan without backtracking. */
  function Scan(p: seq<Piece>, t: string): bool
    decreases |p|
  {
    if p == [] then true
    else
      var init := p[..|p| - 1];
      match p[|p| - 1]
      case Lit(w) => EndsWith(t, w) && Scan(init, t[..|t| - |w|])
      case Plus(cls) =>
        var j := PlusSplit(init, cls, t);
        j < |t| && Scan(init, t[..j])
  }

  lemma DeterminateInit(p: seq<Piece>)
    requires Determinate(p) && p != []
    ensures Determinate(p[..|p| - 1])
  {
  }

  /** Where the run of a class ends when the text before it ends with a
      literal `w` that does not lie entirely inside the class. */
  lemma RunAfterLiteral(cls: CharClass, t: string, j: nat, w: string)
    requires j < |t| && AllInFrom(cls, t, j)
    requires EndsWith(t[..j], w)
    requires TailStart(cls, w) > 0
    ensures RunStart(cls, t, |t|) == j - |w| + TailStart(cls, w)
  {
    var sw := TailStart(cls, w);
    var base := j - |w|;
    assert forall q :: 0 <= q < |w| ==> t[base + q] == w[q] by {
      assert t[..j][base..] == w;
    }
    assert forall q :: sw <= q < |w| ==> cls.Has(w[q]) by {
      assert forall q :: sw <= q < |w| ==> w[q] == w[..|w|][q];
    }
    assert AllInFrom(cls, t, base + sw);
    assert !cls.Has(t[base + sw - 1]);
  }

  /** The scanner's split point is a valid place for the class piece. */
  lemma PlusSplitInClass(init: seq<Piece>, cls: CharClass, t: string)
    ensures AllInFrom(cls, t, PlusSplit(init, cls, t))
  {
  }

  /** The class piece cannot start before the scanner's split point, and
      when a literal precedes it, it can only start there. */
  lemma PlusSplitUnique(init: seq<Piece>, cls: CharClass, t: string, j: nat)
    requires |init| > 0 ==> init[|init| - 1].Lit? && TailStart(cls, init[|init| - 1].w) > 0
    requires j < |t| && AllInFrom(cls, t, j) && SuffixMatch(init, t[..j])
    ensures PlusSplit(init, cls, t) <= j
    ensures |init| > 0 ==> j == PlusSplit(init, cls, t)
  {
    if |init| > 0 {
      RunAfterLiteral(cls, t, j, init[|init| - 1].w);
    }
  }

  /** The scanner decides the pattern's meaning. */
  lemma {:induction false} ScanCorrect(p: seq<Piece>, t: string)
    requires Determinate(p)
    ensures Scan(p, t) <==> SuffixMatch(p, t)
    decreases |p|
  {
    if p != [] {
      var init := p[..|p| - 1];
      DeterminateInit(p);
      match p[|p| - 1]
      case Lit(w) =>
        if EndsWith(t, w) {
          ScanCorrect(init, t[..|t| - |w|]);
        }
      case Plus(cls) =>
        var j0 := PlusSplit(init, cls, t);
        if SuffixMatch(p, t) {
          var j :| 0 <= j < |t| && AllInFrom(cls, t, j) && SuffixMatch(init, t[..j]);
          if |init| > 0 {
            assert init[|init| - 1] == p[|p| - 2];
          }
          PlusSplitUnique(init, cls, t, j);
          if |init| > 0 {
            ScanCorrect(init, t[..j]);
          }
        } else if j0 < |t| {
          PlusSplitInClass(init, cls, t);
          ScanCorrect(init, t[..j0]);
        }
    }
  }

  lemma EpisodePatternDeterminate()
    ensures Determinate(EpisodePattern)
  {
    var w := "/south-park-";
    assert w[..|w|][0] == '/';
  }

  /** episodeUrlRegex.MatchString(link) */
  function IsEpisodeLink(link: string): bool {
    Scan(EpisodePattern, link)
  }

  /** The recogniser decides the pattern read with no anchor at the start. */
  lemma EpisodeLinkIsSuffixMatch(link: string)
    ensures IsEpisodeLink(link) <==> SuffixMatch(EpisodePattern, link)
  {
    EpisodePatternDeterminate();
    ScanCorrect(EpisodePattern, link);
  }

  /** An href is an episode link iff some suffix of it matches the pattern
      in full, the match ending where the href ends. */
  lemma EpisodeLinkIffSuffixMatches(link: string)
    ensures IsEpisodeLink(link) <==> exists i :: 0 <= i <= |link| && FullMatch(EpisodePattern, link[i..])
  {
    EpisodeLinkIsSuffixMatch(link);
    SuffixMatchIsSomeSuffix(EpisodePattern, link);
  }

  /** Without an anchor at the start, anything put in front of a match
      still matches. */
  lemma {:induction false} SuffixMatchPrefix(p: seq<Piece>, pre: string, t: string)
    requires SuffixMatch(p, t)
    ensures SuffixMatch(p, pre + t)
    decreases |p|
  {
    if p != [] {
      var init := p[..|p| - 1];
      var s := pre + t;
      match p[|p| - 1]
      case Lit(w) =>
        SuffixMatchPrefix(init, pre, t[..|t| - |w|]);
        assert s[..|s| - |w|] == pre + t[..|t| - |w|];
        assert s[|s| - |w|..] == t[|t| - |w|..];
      case Plus(cls) =>
        var j :| 0 <= j < |t| && AllInFrom(cls, t, j) && SuffixMatch(init, t[..j]);
        SuffixMatchPrefix(init, pre, t[..j]);
        assert s[..|pre| + j] == pre + t[..j];
        assert AllInFrom(cls, s, |pre| + j) by {
          assert forall q :: |pre| + j <= q < |s| ==> s[q] == t[q - |pre|];
        }
    }
  }

  /** Prefix independence of the recogniser. */
  lemma EpisodeLinkPrefix(pre: string, link: string)
    requires IsEpisodeLink(link)
    ensures IsEpisodeLink(pre + link)
  {
    EpisodeLinkIsSuffixMatch(link);
    SuffixMatchPrefix(EpisodePattern, pre, link);
    EpisodeLinkIsSuffixMatch(pre + link);
  }

  /** `w` is a non-empty run of characters of `cls`. */
  predicate InClass(cls: CharClass, w: string) {
    |w| > 0 && AllInFrom(cls, w, 0)
  }

  /** Appending a text equal to a literal piece extends a match. */
  lemma SuffixMatchAddLit(init: seq<Piece>, t: string, w: string)
    requires SuffixMatch(init, t)
    ensures SuffixMatch(init + [Lit(w)], t + w)
  {
    var p := init + [Lit(w)];
    assert p[..|p| - 1] == init;
    assert (t + w)[..|t + w| - |w|] == t;
    assert (t + w)[|t + w| - |w|..] == w;
  }

  /** Appending a non-empty run of a class extends a match. */
  lemma SuffixMatchAddPlus(init: seq<Piece>, cls: CharClass, t: string, r: string)
    requires SuffixMatch(init, t) && InClass(cls, r)
    ensures SuffixMatch(init + [Plus(cls)], t + r)
  {
    var p := init + [Plus(cls)];
    assert p[..|p| - 1] == init;
    assert (t + r)[..|t|] == t;
    assert AllInFrom(cls, t + r, |t|) by {
      forall q | |t| <= q < |t + r| ensures cls.Has((t + r)[q]) {
        assert (t + r)[q] == r[q - |t|];
      }
    }
  }

  /** The path of an episode page on the site: the section, the episode id,
      the title slug, and the season and episode words and numbers. */
  function EpisodePath(section: string, id: string, slug: string,
                       seasonWord: string, season: string,
                       episodeWord: string, episode: string): string
  {
    "/" + section + "/" + id + "/south-park-" + slug + "-" + seasonWord + "-" + season + "-" + episodeWord + "-" + episode
  }

  /** A run of a class followed by a literal extends a match by two pieces. */
  lemma SuffixMatchAddPlusLit(p: seq<Piece>, k: nat, cls: CharClass, w: string, t: string, r: string)
    requires k + 2 <= |p| && p[k] == Plus(cls) && p[k + 1] == Lit(w)
    requires SuffixMatch(p[..k], t) && InClass(cls, r)
    ensures SuffixMatch(p[..k + 2], t + r + w)
  {
    assert p[..k + 1] == p[..k] + [Plus(cls)];
    SuffixMatchAddPlus(p[..k], cls, t, r);
    assert p[..k + 2] == p[..k + 1] + [Lit(w)];
    SuffixMatchAddLit(p[..k + 1], t + r, w);
  }

  lemma EpisodePathHead(section: string, id: string)
    requires InClass(Lower, section) && InClass(LowerDigit, id)
    ensures SuffixMatch(EpisodePattern[..5], "/" + section + "/" + id + "/south-park-")
  {
    var p := EpisodePattern;
    assert p[..1] == p[..0] + [Lit("/")];
    SuffixMatchAddLit(p[..0], "", "/");
    assert "" + "/" == "/";
    SuffixMatchAddPlusLit(p, 1, Lower, "/", "/", section);
    SuffixMatchAddPlusLit(p, 3, LowerDigit, "/south-park-", "/" + section + "/", id);
  }

  lemma EpisodePathMiddle(head: string, slug: string, seasonWord: string)
    requires SuffixMatch(EpisodePattern[..5], head)
    requires InClass(LowerDigitDash, slug) && InClass(Lower, seasonWord)
    ensures SuffixMatch(EpisodePattern[..9], head + slug + "-" + seasonWord + "-")
  {
    var p := EpisodePattern;
    assert p[5] == Plus(LowerDigitDash) && p[6] == Lit("-");
    assert p[7] == Plus(Lower) && p[8] == Lit("-");
    SuffixMatchAddPlusLit(p, 5, LowerDigitDash, "-", head, slug);
    SuffixMatchAddPlusLit(p, 7, Lower, "-", head + slug + "-", seasonWord);
  }

  lemma EpisodePathTail(head: string, season: string, episodeWord: string, episode: string)
    requires SuffixMatch(EpisodePattern[..9], head)
    requires InClass(Digits, season) && InClass(Lower, episodeWord) && InClass(Digits, episode)
    ensures SuffixMatch(EpisodePattern, head + season + "-" + episodeWord + "-" + episode)
  {
    var p := EpisodePattern;
    SuffixMatchAddPlusLit(p, 9, Digits, "-", head, season);
    SuffixMatchAddPlusLit(p, 11, Lower, "-", head + season + "-", episodeWord);
    assert p == p[..13] + [Plus(Digits)];
    SuffixMatchAddPlus(p[..13], Digits, head + season + "-" + episodeWord + "-", episode);
  }

  /** Every path put together from parts of the right classes is an episode
      link. */
  lemma EpisodePathIsEpisodeLink(section: string, id: string, slug: string,
                                 seasonWord: string, season: string,
                                 episodeWord: string, episode: string)
    requires InClass(Lower, section) && InClass(LowerDigit, id)
    requires InClass(LowerDigitDash, slug) && InClass(Lower, seasonWord)
    requires InClass(Digits, season) && InClass(Lower, episodeWord) && InClass(Digits, episode)
    ensures IsEpisodeLink(EpisodePath(section, id, slug, seasonWord, season, episodeWord, episode))
  {
    var head := "/" + section + "/" + id + "/south-park-";
    EpisodePathHead(section, id);
    EpisodePathMiddle(head, slug, seasonWord);
    EpisodePathTail(head + slug + "-" + seasonWord + "-", season, episodeWord, episode);
    EpisodeLinkIsSuffixMatch(EpisodePath(section, id, slug, seasonWord, season, episodeWord, episode));
  }

  /** A short literal made of characters of `cls`, checked character by
      character. */
  lemma InClassByRun(cls: CharClass, w: string)
    requires |w| > 0 && RunStart(cls, w, |w|) == 0
    ensures InClass(cls, w)
  {
  }

  /** The English path of the first episode, as in the comment at
      main.go:111. */
  const FirstEpisodePath := EpisodePath("episodes", "940f8z", "cartman-gets-an-anal-probe", "season", "1", "ep", "1")

  lemma InClassAppend(cls: CharClass, a: string, b: string)
    requires InClass(cls, a) && InClass(cls, b)
    ensures InClass(cls, a + b)
  {
    forall q | 0 <= q < |a + b| ensures cls.Has((a + b)[q]) {
      if q < |a| {
        assert (a + b)[q] == a[q];
      } else {
        assert (a + b)[q] == b[q - |a|];
      }
    }
  }

  /** The English title slug, in two halves. */
  lemma FirstEpisodeSlug()
    ensures InClass(LowerDigitDash, "cartman-gets-an-anal-probe")
  {
    CartmanGets();
    AnAnalProbe();
    InClassAppend(LowerDigitDash, "cartman-gets-", "an-anal-probe");
    assert "cartman-gets-" + "an-anal-probe" == "cartman-gets-an-anal-probe";
  }

  lemma CartmanGets()
    ensures InClass(LowerDigitDash, "cartman-gets-")
  {
    assert RunStart(LowerDigitDash, "cartman-gets-", 6) == 0;
    InClassByRun(LowerDigitDash, "cartman-gets-");
  }

  lemma AnAnalProbe()
    ensures InClass(LowerDigitDash, "an-anal-probe")
  {
    assert RunStart(LowerDigitDash, "an-anal-probe", 6) == 0;
    InClassByRun(LowerDigitDash, "an-anal-probe");
  }

  /** Each part of the first episode's path is of its class. */
  lemma FirstEpisodeParts()
    ensures InClass(Lower, "episodes") && InClass(LowerDigit, "940f8z")
    ensures InClass(LowerDigitDash, "cartman-gets-an-anal-probe")
    ensures InClass(Lower, "season") && InClass(Digits, "1") && InClass(Lower, "ep")
  {
    assert RunStart(Lower, "episodes", 4) == 0;
    InClassByRun(Lower, "episodes");
    InClassByRun(LowerDigit, "940f8z");
    FirstEpisodeSlug();
    InClassByRun(Lower, "season");
    InClassByRun(Digits, "1");
    InClassByRun(Lower, "ep");
  }

  /** The first episode's path is an episode link. */
  lemma FirstEpisodePathIsEpisodeLink()
    ensures IsEpisodeLink(FirstEpisodePath)
  {
    FirstEpisodeParts();
    EpisodePathIsEpisodeLink("episodes", "940f8z", "cartman-gets-an-anal-probe", "season", "1", "ep", "1");
  }

  /** The German path of the same episode, as in the comment at
      main.go:110. */
  lemma GermanFirstEpisodePathIsEpisodeLink()
    ensures IsEpisodeLink(EpisodePath("folgen", "940f8z", "cartman-und-die-analsonde", "staffel", "1", "ep", "1"))
  {
    InClassByRun(Lower, "folgen");
    InClassByRun(LowerDigit, "940f8z");
    GermanSlug();
    assert RunStart(Lower, "staffel", 4) == 0;
    InClassByRun(Lower, "staffel");
    InClassByRun(Digits, "1");
    InClassByRun(Lower, "ep");
    EpisodePathIsEpisodeLink("folgen", "940f8z", "cartman-und-die-analsonde", "staffel", "1", "ep", "1");
  }

  /** The German title slug, in two halves. */
  lemma GermanSlug()
    ensures InClass(LowerDigitDash, "cartman-und-die-analsonde")
  {
    CartmanUnd();
    DieAnalsonde();
    InClassAppend(LowerDigitDash, "cartman-und-", "die-analsonde");
    assert "cartman-und-" + "die-analsonde" == "cartman-und-die-analsonde";
  }

  lemma CartmanUnd()
    ensures InClass(LowerDigitDash, "cartman-und-")
  {
    assert RunStart(LowerDigitDash, "cartman-und-", 6) == 0;
    InClassByRun(LowerDigitDash, "cartman-und-");
  }

  lemma DieAnalsonde()
    ensures InClass(LowerDigitDash, "die-analsonde")
  {
    assert RunStart(LowerDigitDash, "die-analsonde", 6) == 0;
    InClassByRun(LowerDigitDash, "die-analsonde");
  }

  /** A page that is not an episode is not followed. */
  lemma AboutUsIsNotEpisodeLink()
    ensures !IsEpisodeLink("/about-us")
  {
  }
}
