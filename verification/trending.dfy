/** The GitHub Trending scraper of worm-1.py: the popularity rule of a
    repository, the page address, how the star, fork and "stars today"
    counts are read from the link texts of one repository entry, and the
    orderings of the result. The page itself arrives as the entries the HTML
    parser found; fetching and parsing the HTML are not modelled. */
module Trending {
  import opened Wrappers
  import opened Text
  import opened StableSort

  datatype GitHubRepo = GitHubRepo(
    name: string,
    url: string,
    description: Option<string>,
    stars: int,
    forks: int,
    language: Option<string>,
    todayStars: Option<int>)

  const PopularStars: int := 10000
  const PopularToday: int := 500

  /** `is_popular`: more than 10000 stars, or a non-zero number of stars
      today above 500. */
  function IsPopular(repo: GitHubRepo): (r: bool)
    ensures r <==> repo.stars > PopularStars || (repo.todayStars.Some? && repo.todayStars.value > PopularToday)
  {
    if repo.stars > PopularStars then true
    else match repo.todayStars
      case Some(ts) => ts != 0 && ts > PopularToday
      case None => false
  }

  /** More stars never make a popular repository unpopular. */
  lemma PopularMonotone(repo: GitHubRepo, stars: int, today: Option<int>)
    requires IsPopular(repo)
    requires stars >= repo.stars
    requires repo.todayStars.Some? ==> today.Some? && today.value >= repo.todayStars.value
    ensures IsPopular(repo.(stars := stars, todayStars := today))
  {
  }

  // ---------------------------------------------------------------------------
  // The page address
  // ---------------------------------------------------------------------------

  const BaseUrl: string := "https://github.com/trending"
  const SinceParam: string := "?since="

  /** `_build_url`: the language, when there is one, is a path segment, and
      the period is the `since` query parameter. */
  function BuildUrl(language: string, since: string): (url: string)
    ensures IsPrefix(BaseUrl, url)
  {
    BaseUrl + (if language != [] then "/" + language else "") + SinceParam + since
  }

  /** Reads the language and the period back from an address of the form
      `BuildUrl` produces. */
  function ParseUrl(url: string): (r: Option<(string, string)>)
  {
    if !IsPrefix(BaseUrl, url) then None
    else
      var rest := url[|BaseUrl|..];
      var q := FindChar(rest, '?', 0);
      var path, query := rest[..q], rest[q..];
      if !IsPrefix(SinceParam, query) then None
      else if path == [] then Some(([], query[|SinceParam|..]))
      else if path[0] == '/' && |path| > 1 then Some((path[1..], query[|SinceParam|..]))
      else None
  }

  /** After the base address comes the language segment, then the query. */
  lemma UrlRest(language: string, since: string)
    ensures var seg := if language != [] then "/" + language else "";
      var url := BuildUrl(language, since);
      IsPrefix(BaseUrl, url) && url[|BaseUrl|..] == seg + SinceParam + since
  {
    var seg := if language != [] then "/" + language else "";
    var url := BuildUrl(language, since);
    assert url == BaseUrl + (seg + SinceParam + since);
    assert url[..|BaseUrl|] == BaseUrl;
  }

  /** The first `?` after a segment without one starts the query. */
  lemma QueryAfter(seg: string, since: string)
    requires '?' !in seg
    ensures var rest := seg + SinceParam + since;
      var q := FindChar(rest, '?', 0);
      && rest[..q] == seg && rest[q..] == SinceParam + since
  {
    var rest := seg + SinceParam + since;
    assert rest[|seg|] == '?';
    assert forall k :: 0 <= k < |seg| ==> rest[k] == seg[k];
    FindCharIs(rest, '?', 0, |seg|);
    assert rest[..|seg|] == seg;
    assert rest[|seg|..] == SinceParam + since;
  }

  /** The address determines the language and the period, as long as the
      language has no `?` in it. */
  lemma UrlRoundTrip(language: string, since: string)
    requires '?' !in language
    ensures ParseUrl(BuildUrl(language, since)) == Some((language, since))
  {
    var seg := if language != [] then "/" + language else "";
    UrlRest(language, since);
    assert '?' !in seg by {
      assert forall k :: 0 <= k < |seg| ==> seg[k] == '/' || seg[k] in language;
    }
    QueryAfter(seg, since);
    var query := SinceParam + since;
    assert query[..|SinceParam|] == SinceParam;
    assert query[|SinceParam|..] == since;
    assert language != [] ==> seg[1..] == language;
  }

  // ---------------------------------------------------------------------------
  // Counts read from the link texts of one entry
  // ---------------------------------------------------------------------------

  /** An `a` element: its `href` attribute, when present, and its text with
      surrounding whitespace stripped. */
  datatype Link = Link(href: Option<string>, text: string)

  /** What the loop over the muted links of an entry has found. */
  datatype Counts = Counts(stars: int, forks: int, todayStars: Option<int>)

  const NoCounts: Counts := Counts(0, 0, None)

  /** The error raised by `int` on a string without digits, which makes the
      scraper skip the entry. */
  const NotANumber: string := "invalid literal for int()"

  /** The number in a star link: commas are dropped, every `k` becomes "000",
      and the digits left are read as one number; none is an error. */
  function StarsFromText(text: string): (r: Result<int, string>)
    ensures r.Ok? ==> r.value >= 0
    ensures r.Err? <==> DigitsOf(ReplaceChar(RemoveChar(text, ','), 'k', "000")) == []
  {
    var digits := DigitsOf(ReplaceChar(RemoveChar(text, ','), 'k', "000"));
    if digits == [] then Err(NotANumber) else Ok(DigitsValue(digits))
  }

  /** The number in a "stars today" link: the first word, without commas,
      when it is all digits; otherwise no number. A text with no words keeps
      what was found before. */
  function TodayFromText(text: string, previous: Option<int>): (r: Option<int>)
    ensures AllSpace(text) ==> r == previous
    ensures r.Some? && !AllSpace(text) ==> r.value >= 0
    ensures !AllSpace(text) ==>
      var word := RemoveChar(FirstToken(text).value, ',');
      && (r.Some? <==> word != [] && AllDigits(word))
      && (r.Some? ==> r.value == DigitsValue(word))
  {
    match FirstToken(text)
    case None => previous
    case Some(word) =>
      var digits := RemoveChar(word, ',');
      if digits != [] && AllDigits(digits) then Some(DigitsValue(digits)) else None
  }

  /** The number in a fork link: commas dropped, an empty text is zero, and
      otherwise the digits are read as one number; none is an error. */
  function ForksFromText(text: string): (r: Result<int, string>)
    ensures RemoveChar(text, ',') == [] ==> r == Ok(0)
    ensures r.Ok? ==> r.value >= 0
    ensures r.Err? <==> RemoveChar(text, ',') != [] && DigitsOf(RemoveChar(text, ',')) == []
    ensures r.Ok? && RemoveChar(text, ',') != [] ==> r.value == DigitsValue(DigitsOf(RemoveChar(text, ',')))
  {
    var cleaned := RemoveChar(text, ',');
    if cleaned == [] then Ok(0)
    else
      var digits := DigitsOf(cleaned);
      if digits == [] then Err(NotANumber) else Ok(DigitsValue(digits))
  }

  /** One pass of the loop over the muted links: a link to the stargazers
      sets the stars, or the stars today when its text says "stars today"; a
      link to the forks sets the forks; other links change nothing. */
  function VisitLink(c: Counts, link: Link): (r: Result<Counts, string>)
    ensures r.Ok? && !Contains(link.href.GetOr(""), "stars") && !Contains(link.href.GetOr(""), "fork") ==> r.value == c
    ensures r.Ok? ==> r.value.stars == c.stars || Contains(link.href.GetOr(""), "stars")
    ensures r.Ok? ==> r.value.forks == c.forks || Contains(link.href.GetOr(""), "fork")
    ensures Contains(link.href.GetOr(""), "stars") && Contains(link.text, "stars today") ==>
      r == Ok(c.(todayStars := TodayFromText(link.text, c.todayStars)))
    ensures Contains(link.href.GetOr(""), "stars") && !Contains(link.text, "stars today") ==>
      (r.Err? <==> StarsFromText(link.text).Err?) && (r.Ok? ==> r.value == c.(stars := StarsFromText(link.text).value))
    ensures !Contains(link.href.GetOr(""), "stars") && Contains(link.href.GetOr(""), "fork") ==>
      (r.Err? <==> ForksFromText(link.text).Err?) && (r.Ok? ==> r.value == c.(forks := ForksFromText(link.text).value))
    ensures r.Err? ==> r.error == NotANumber
  {
    var href := link.href.GetOr("");
    if Contains(href, "stars") then
      if Contains(link.text, "stars today") then
        Ok(c.(todayStars := TodayFromText(link.text, c.todayStars)))
      else
        match StarsFromText(link.text)
        case Err(e) => Err(e)
        case Ok(n) => Ok(c.(stars := n))
    else if Contains(href, "fork") then
      match ForksFromText(link.text)
      case Err(e) => Err(e)
      case Ok(n) => Ok(c.(forks := n))
    else Ok(c)
  }

  /** The loop over the muted links in order, from no stars, no forks and no
      stars today; the first error stops it. */
  function ExtractCounts(links: seq<Link>): (r: Result<Counts, string>)
    ensures r.Ok? ==> r.value.stars >= 0 && r.value.forks >= 0
    ensures r.Ok? && r.value.todayStars.Some? ==> r.value.todayStars.value >= 0
    ensures r.Err? ==> r.error == NotANumber
  {
    if |links| == 0 then Ok(NoCounts)
    else
      match ExtractCounts(links[..|links| - 1])
      case Err(e) => Err(e)
      case Ok(c) => VisitLink(c, links[|links| - 1])
  }

  /** The kinds of muted link the loop tells apart, in the order of its
      tests: a stargazers link with or without "stars today" in its text, a
      fork link, and any other link. */
  datatype LinkKind = StarsLink | TodayLink | ForkLink | OtherLink

  function KindOf(link: Link): LinkKind {
    var href := link.href.GetOr("");
    if Contains(href, "stars") then
      if Contains(link.text, "stars today") then TodayLink else StarsLink
    else if Contains(href, "fork") then ForkLink
    else OtherLink
  }

  /** A link whose number, when the loop reads one from it, is a number. */
  predicate Readable(link: Link) {
    match KindOf(link)
    case StarsLink => StarsFromText(link.text).Ok?
    case ForkLink => ForksFromText(link.text).Ok?
    case _ => true
  }

  /** Link `k` is the last one of its kind. */
  predicate LastOfKind(links: seq<Link>, kind: LinkKind, k: int) {
    && 0 <= k < |links|
    && KindOf(links[k]) == kind
    && forall j :: k < j < |links| ==> KindOf(links[j]) != kind
  }

  predicate NoneOfKind(links: seq<Link>, kind: LinkKind) {
    forall j :: 0 <= j < |links| ==> KindOf(links[j]) != kind
  }

  /** The loop fails exactly when a star or fork link has no number in it. */
  lemma ExtractCountsOk(links: seq<Link>)
    ensures ExtractCounts(links).Ok? <==> forall k :: 0 <= k < |links| ==> Readable(links[k])
  {
    if forall k :: 0 <= k < |links| ==> Readable(links[k]) {
      AllReadableOk(links);
    } else {
      var k :| 0 <= k < |links| && !Readable(links[k]);
      UnreadableErr(links, k);
    }
  }

  lemma {:induction false} AllReadableOk(links: seq<Link>)
    requires forall k :: 0 <= k < |links| ==> Readable(links[k])
    ensures ExtractCounts(links).Ok?
  {
    if |links| > 0 {
      var init := links[..|links| - 1];
      assert forall k :: 0 <= k < |init| ==> init[k] == links[k];
      AllReadableOk(init);
      ExtractCountsStep(links);
    }
  }

  lemma {:induction false} UnreadableErr(links: seq<Link>, k: nat)
    requires k < |links| && !Readable(links[k])
    ensures ExtractCounts(links).Err?
  {
    var n := |links| - 1;
    ExtractCountsStep(links);
    if k < n {
      var init := links[..n];
      assert init[k] == links[k];
      UnreadableErr(init, k);
      assert !ExtractCounts(init).Ok?;
    } else {
      assert !Readable(links[n]);
    }
  }

  /** The loop over a non-empty list succeeds exactly when it succeeds on
      all links but the last, and the last link is readable. */
  lemma ExtractCountsStep(links: seq<Link>)
    requires |links| > 0
    ensures ExtractCounts(links).Ok? <==>
      ExtractCounts(links[..|links| - 1]).Ok? && Readable(links[|links| - 1])
  {
    var init, last := links[..|links| - 1], links[|links| - 1];
    if ExtractCounts(init).Ok? {
      VisitReadable(ExtractCounts(init).value, last);
      assert ExtractCounts(links) == VisitLink(ExtractCounts(init).value, last);
    }
  }

  /** One link fails exactly when it is not readable. */
  lemma VisitReadable(c: Counts, link: Link)
    ensures VisitLink(c, link).Ok? <==> Readable(link)
  {
  }

  /** The last link of a kind in a list is the last one in the list, or the
      last of that kind before it. */
  lemma LastOfKindInit(links: seq<Link>, kind: LinkKind, k: int)
    requires |links| > 0 && LastOfKind(links, kind, k)
    ensures KindOf(links[|links| - 1]) == kind <==> k == |links| - 1
    ensures k < |links| - 1 ==> LastOfKind(links[..|links| - 1], kind, k)
  {
  }

  lemma NoneOfKindInit(links: seq<Link>, kind: LinkKind)
    requires |links| > 0 && NoneOfKind(links, kind)
    ensures NoneOfKind(links[..|links| - 1], kind)
  {
    assert forall j :: 0 <= j < |links| - 1 ==> links[..|links| - 1][j] == links[j];
  }

  /** The stars are the number of the last star link, or zero when there is
      none: each star link overwrites the count. */
  lemma {:induction false} ExtractedStars(links: seq<Link>)
    requires ExtractCounts(links).Ok?
    ensures NoneOfKind(links, StarsLink) ==> ExtractCounts(links).value.stars == 0
    ensures forall k :: LastOfKind(links, StarsLink, k) ==>
      StarsFromText(links[k].text) == Ok(ExtractCounts(links).value.stars)
  {
    if |links| > 0 {
      var n := |links| - 1;
      var init, last := links[..n], links[n];
      var c := ExtractCounts(init).value;
      ExtractedStars(init);
      assert ExtractCounts(links) == VisitLink(c, last);
      if KindOf(last) == StarsLink {
        assert ExtractCounts(links).value.stars == StarsFromText(last.text).value;
      } else {
        assert ExtractCounts(links).value.stars == c.stars;
        if NoneOfKind(links, StarsLink) {
          NoneOfKindInit(links, StarsLink);
        }
      }
      forall k | LastOfKind(links, StarsLink, k)
        ensures StarsFromText(links[k].text) == Ok(ExtractCounts(links).value.stars)
      {
        LastOfKindInit(links, StarsLink, k);
      }
    }
  }

  /** The forks are the number of the last fork link, or zero when there is
      none. */
  lemma {:induction false} ExtractedForks(links: seq<Link>)
    requires ExtractCounts(links).Ok?
    ensures NoneOfKind(links, ForkLink) ==> ExtractCounts(links).value.forks == 0
    ensures forall k :: LastOfKind(links, ForkLink, k) ==>
      ForksFromText(links[k].text) == Ok(ExtractCounts(links).value.forks)
  {
    if |links| > 0 {
      var n := |links| - 1;
      var init, last := links[..n], links[n];
      var c := ExtractCounts(init).value;
      ExtractedForks(init);
      assert ExtractCounts(links) == VisitLink(c, last);
      if KindOf(last) == ForkLink {
        assert ExtractCounts(links).value.forks == ForksFromText(last.text).value;
      } else {
        assert ExtractCounts(links).value.forks == c.forks;
        if NoneOfKind(links, ForkLink) {
          NoneOfKindInit(links, ForkLink);
        }
      }
      forall k | LastOfKind(links, ForkLink, k)
        ensures ForksFromText(links[k].text) == Ok(ExtractCounts(links).value.forks)
      {
        LastOfKindInit(links, ForkLink, k);
      }
    }
  }

  /** A "stars today" text has a word, so what was found before does not
      matter. */
  lemma TodayIgnoresPrevious(text: string, previous: Option<int>)
    requires Contains(text, "stars today")
    ensures TodayFromText(text, previous) == TodayFromText(text, None)
  {
    var i :| 0 <= i <= |text| && StartsAt(text, i, "stars today");
    assert text[i] == text[i..i + 11][0] == 's';
    assert !AllSpace(text);
  }

  /** The stars today are read from the last "stars today" link alone, and
      are absent when there is none. */
  lemma {:induction false} ExtractedToday(links: seq<Link>)
    requires ExtractCounts(links).Ok?
    ensures NoneOfKind(links, TodayLink) ==> ExtractCounts(links).value.todayStars == None
    ensures forall k :: LastOfKind(links, TodayLink, k) ==>
      ExtractCounts(links).value.todayStars == TodayFromText(links[k].text, None)
  {
    if |links| > 0 {
      var n := |links| - 1;
      var init, last := links[..n], links[n];
      var c := ExtractCounts(init).value;
      ExtractedToday(init);
      assert ExtractCounts(links) == VisitLink(c, last);
      if KindOf(last) == TodayLink {
        TodayIgnoresPrevious(last.text, c.todayStars);
        assert ExtractCounts(links).value.todayStars == TodayFromText(last.text, None);
      } else {
        assert ExtractCounts(links).value.todayStars == c.todayStars;
        if NoneOfKind(links, TodayLink) {
          NoneOfKindInit(links, TodayLink);
        }
      }
      forall k | LastOfKind(links, TodayLink, k)
        ensures ExtractCounts(links).value.todayStars == TodayFromText(links[k].text, None)
      {
        LastOfKindInit(links, TodayLink, k);
      }
    }
  }

  /** Links that point neither at stargazers nor at forks leave the counts
      at zero. */
  lemma {:induction false} NoCountLinks(links: seq<Link>)
    requires forall k :: 0 <= k < |links| ==>
      !Contains(links[k].href.GetOr(""), "stars") && !Contains(links[k].href.GetOr(""), "fork")
    ensures ExtractCounts(links) == Ok(NoCounts)
  {
    if |links| > 0 {
      NoCountLinks(links[..|links| - 1]);
    }
  }

  // ---------------------------------------------------------------------------
  // Reading numbers back
  // ---------------------------------------------------------------------------

  /** A star count written out in decimal is read back. */
  lemma StarsRoundTrip(n: nat)
    ensures StarsFromText(Decimal(n)) == Ok(n)
  {
    var s := Decimal(n);
    NoSuchChar(s, ',');
    NoSuchChar(s, 'k');
    DigitsOfDigits(s);
    DecimalRoundTrip(n);
  }

  /** Thousands separators are ignored: a text of digits and commas reads
      as the number its digits form once the commas are dropped. */
  lemma StarsSeparated(text: string)
    requires forall k :: 0 <= k < |text| ==> IsDigit(text[k]) || text[k] == ','
    requires RemoveChar(text, ',') != []
    ensures AllDigits(RemoveChar(text, ','))
    ensures StarsFromText(text) == Ok(DigitsValue(RemoveChar(text, ',')))
  {
    var cleaned := RemoveChar(text, ',');
    forall k | 0 <= k < |cleaned|
      ensures IsDigit(cleaned[k])
    {
      assert cleaned[k] in text && cleaned[k] != ',';
    }
    NoSuchChar(cleaned, 'k');
    DigitsOfDigits(cleaned);
  }

  /** "1,234" is one thousand two hundred and thirty-four. */
  lemma StarsOneComma()
    ensures StarsFromText("1,234") == Ok(1234)
  {
    OneCommaDropped();
    StarsSeparated("1,234");
    OneCommaValue();
  }

  lemma OneCommaDropped()
    ensures RemoveChar("1,234", ',') == "1234"
  {
    assert "1,234" == "1" + [','] + "234" && "1234" == "1" + "234";
    SeparatorDropped("1", "234", ',');
  }

  /** Removing the one separator between two pieces joins the pieces. */
  lemma SeparatorDropped(u: string, v: string, c: char)
    requires AllDigits(u) && AllDigits(v) && !IsDigit(c)
    ensures RemoveChar(u + [c] + v, c) == u + v
  {
    assert ReplaceChar([c], c, "") == [] by {
      assert [c][1..] == [];
    }
    assert ReplaceChar(u + [c], c, "") == u by {
      ReplaceCharAppend(u, [c], c, "");
      NoSuchChar(u, c);
    }
    ReplaceCharAppend(u + [c], v, c, "");
    NoSuchChar(v, c);
  }

  lemma OneCommaValue()
    ensures AllDigits("1234") && DigitsValue("1234") == 1234
  {
    assert "1"[..0] == "" && "12"[..1] == "1" && "123"[..2] == "12" && "1234"[..3] == "123";
    assert DigitsValue("1") == 1;
    assert DigitsValue("12") == 12;
    assert DigitsValue("123") == 123;
  }

  /** "12k" is twelve thousand. */
  lemma StarsThousands(n: nat)
    ensures StarsFromText(Decimal(n) + "k") == Ok(n * 1000)
  {
    var s := Decimal(n);
    var t := s + "k";
    NoSuchChar(s, ',');
    NoSuchChar(s, 'k');
    ReplaceCharAppend(s, "k", ',', "");
    ReplaceCharAppend(s, "k", 'k', "000");
    assert RemoveChar(t, ',') == t;
    var u := s + "000";
    assert ReplaceChar(t, 'k', "000") == u;
    DigitsOfAppend(s, "000");
    DigitsOfDigits(s);
    assert DigitsOf("000") == "000";
    DecimalRoundTrip(n);
    DigitsValueZeros(s);
  }

  /** A decimal point is not understood: "a.bk" reads as the digits of `a`
      and `b` run together, times a thousand. */
  lemma StarsDecimalPoint(a: string, b: string)
    requires AllDigits(a) && AllDigits(b)
    ensures StarsFromText(a + "." + b + "k") == Ok(DigitsValue(a + b) * 1000)
  {
    var t := a + "." + b + "k";
    DecimalPointCleaned(a, b);
    DecimalPointDigits(a, b);
    assert AllDigits(a + b);
    DigitsValueZeros(a + b);
  }

  /** Removing commas leaves "a.bk" alone, and the `k` becomes three zeros. */
  lemma DecimalPointCleaned(a: string, b: string)
    requires AllDigits(a) && AllDigits(b)
    ensures RemoveChar(a + "." + b + "k", ',') == a + "." + b + "k"
    ensures ReplaceChar(a + "." + b + "k", 'k', "000") == a + "." + b + "000"
  {
    var q := a + "." + b;
    var t := q + "k";
    assert forall k :: 0 <= k < |q| ==> q[k] == '.' || IsDigit(q[k]);
    assert forall k :: 0 <= k < |t| ==> t[k] == '.' || t[k] == 'k' || IsDigit(t[k]);
    Absent(t, ',', "");
    Absent(q, 'k', "000");
    ReplaceCharAppend(q, "k", 'k', "000");
  }

  /** Keeping only the digits of "a.b000" drops the point. */
  lemma DecimalPointDigits(a: string, b: string)
    requires AllDigits(a) && AllDigits(b)
    ensures DigitsOf(a + "." + b + "000") == (a + b) + "000"
  {
    var p := a + ".";
    var q := p + b;
    DigitsOfDigits(a);
    DigitsOfAppend(a, ".");
    assert DigitsOf(p) == a;
    DigitsOfDigits(b);
    DigitsOfAppend(p, b);
    assert DigitsOf(q) == a + b;
    DigitsOfDigits("000");
    DigitsOfAppend(q, "000");
  }

  /** "1.2k" reads as 12000, not 1200. */
  lemma StarsOnePointTwoK()
    ensures StarsFromText("1.2k") == Ok(12000)
  {
    var a, b := "1", "2";
    StarsDecimalPoint(a, b);
    assert a + "." + b + "k" == "1.2k";
    var ab := a + b;
    assert ab == "12";
    assert ab[..1] == "1";
    assert DigitsValue(ab) == 12;
  }

  /** "n stars today" gives n. */
  lemma TodayRoundTrip(n: nat, previous: Option<int>)
    ensures TodayFromText(Decimal(n) + " stars today", previous) == Some(n)
  {
    var s := Decimal(n);
    var text := s + " stars today";
    assert forall k :: 0 <= k < |s| ==> text[k] == s[k] && !IsSpace(s[k]);
    SkipSpacesIs(text, 0, 0);
    TokenEndIs(text, 0, |s|);
    assert text[0..|s|] == s;
    NoSuchChar(s, ',');
    DecimalRoundTrip(n);
  }

  /** A fork count written out in decimal is read back. */
  lemma ForksRoundTrip(n: nat)
    ensures ForksFromText(Decimal(n)) == Ok(n)
  {
    var s := Decimal(n);
    NoSuchChar(s, ',');
    DigitsOfDigits(s);
    DecimalRoundTrip(n);
  }

  /** Replacing a character that does not occur changes nothing. */
  lemma {:induction false} Absent(s: string, c: char, with: string)
    requires forall k :: 0 <= k < |s| ==> s[k] != c
    ensures ReplaceChar(s, c, with) == s
  {
    if |s| > 0 {
      Absent(s[1..], c, with);
      assert s == [s[0]] + s[1..];
    }
  }

  lemma NoSuchChar(s: string, c: char)
    requires AllDigits(s) && !IsDigit(c)
    ensures ReplaceChar(s, c, "") == s && ReplaceChar(s, c, "000") == s
  {
    if |s| > 0 {
      NoSuchChar(s[1..], c);
      assert s == [s[0]] + s[1..];
    }
  }

  lemma ReplaceCharAppend(a: string, b: string, c: char, with: string)
    ensures ReplaceChar(a + b, c, with) == ReplaceChar(a, c, with) + ReplaceChar(b, c, with)
  {
    if |a| == 0 {
      assert a + b == b;
    } else {
      assert (a + b)[1..] == a[1..] + b;
      ReplaceCharAppend(a[1..], b, c, with);
    }
  }

  /** Three zeros after the digits multiply the value by a thousand. */
  lemma DigitsValueZeros(s: string)
    requires AllDigits(s)
    ensures DigitsValue(s + "000") == DigitsValue(s) * 1000
  {
    var a, b, t := s + "0", s + "00", s + "000";
    assert a[..|a| - 1] == s && a[|a| - 1] == '0';
    assert DigitsValue(a) == DigitsValue(s) * 10;
    assert b[..|b| - 1] == a && b[|b| - 1] == '0';
    assert DigitsValue(b) == DigitsValue(a) * 10;
    assert t[..|t| - 1] == b && t[|t| - 1] == '0';
  }

  // ---------------------------------------------------------------------------
  // Entries of the page
  // ---------------------------------------------------------------------------

  /** One `article.Box-row` of the page: the link inside its `h2` title, when
      both are there, the description and language texts, when present, and
      the muted links, in document order. */
  datatype RepoEntry = RepoEntry(
    titleLink: Option<Link>,
    description: Option<string>,
    language: Option<string>,
    countLinks: seq<Link>)

  const GitHubHost: string := "https://github.com"

  /** One entry, or nothing when it is skipped: no title link, a title link
      without `href`, or a count that is not a number. The name is the link
      text without spaces. */
  function ParseEntry(e: RepoEntry): (r: Option<GitHubRepo>)
    ensures r.Some? <==> e.titleLink.Some? && e.titleLink.value.href.Some? && ExtractCounts(e.countLinks).Ok?
    ensures r.Some? ==> ' ' !in r.value.name && IsPrefix(GitHubHost, r.value.url)
    ensures r.Some? ==>
      var link, c := e.titleLink.value, ExtractCounts(e.countLinks).value;
      && r.value.name == RemoveChar(link.text, ' ')
      && r.value.url == GitHubHost + link.href.value
      && r.value.description == e.description && r.value.language == e.language
      && r.value.stars == c.stars && r.value.forks == c.forks && r.value.todayStars == c.todayStars
  {
    match e.titleLink
    case None => None
    case Some(link) =>
      match link.href
      case None => None
      case Some(href) =>
        match ExtractCounts(e.countLinks)
        case Err(_) => None
        case Ok(c) =>
          var url := GitHubHost + href;
          assert url[..|GitHubHost|] == GitHubHost;
          Some(GitHubRepo(RemoveChar(link.text, ' '), url, e.description,
                          c.stars, c.forks, e.language, c.todayStars))
  }

  /** No occurrence of `p` can start where its first character is missing. */
  lemma NoOccurrence(s: string, p: string)
    requires |p| > 0
    requires forall i :: 0 <= i && i + |p| <= |s| ==> s[i] != p[0]
    ensures !Contains(s, p)
  {
    forall i | 0 <= i <= |s|
      ensures !StartsAt(s, i, p)
    {
      if i + |p| <= |s| {
        assert s[i..i + |p|][0] == s[i];
      }
    }
  }

  /** A title link, a star link reading "1,234", a fork link reading "56"
      and a "12 stars today" link give a repository with 1234 stars, 56
      forks and 12 stars today. */
  lemma ParseEntryExample()
    ensures ParseEntry(RepoEntry(Some(Link(Some("/a/b"), "a / b")), None, Some("Rust"),
                                 [Link(Some("/a/b/stars"), "1,234"),
                                  Link(Some("/a/b/forks"), "56"),
                                  Link(Some("/a/b/stars"), "12 stars today")]))
      == Some(GitHubRepo("a/b", "https://github.com/a/b", None, 1234, 56, Some("Rust"), Some(12)))
  {
    ExampleCounts();
    ExampleName();
  }

  /** The counts of the three links of `ParseEntryExample`. */
  lemma ExampleCounts()
    ensures ExtractCounts([Link(Some("/a/b/stars"), "1,234"), Link(Some("/a/b/forks"), "56"),
                           Link(Some("/a/b/stars"), "12 stars today")])
      == Ok(Counts(1234, 56, Some(12)))
  {
    ExampleKinds();
    ExampleNumbers();
    ThreeLinks(Link(Some("/a/b/stars"), "1,234"), Link(Some("/a/b/forks"), "56"),
               Link(Some("/a/b/stars"), "12 stars today"));
  }

  /** A star link, a fork link and a "stars today" link, each with a number,
      give those three numbers. */
  lemma ThreeLinks(star: Link, fork: Link, today: Link)
    requires KindOf(star) == StarsLink && KindOf(fork) == ForkLink && KindOf(today) == TodayLink
    requires StarsFromText(star.text).Ok? && ForksFromText(fork.text).Ok?
    ensures ExtractCounts([star, fork, today]) ==
      Ok(Counts(StarsFromText(star.text).value, ForksFromText(fork.text).value, TodayFromText(today.text, None)))
  {
    var links := [star, fork, today];
    assert Readable(star) && Readable(fork) && Readable(today);
    assert forall k :: 0 <= k < |links| ==> Readable(links[k]);
    ExtractCountsOk(links);
    assert LastOfKind(links, StarsLink, 0);
    assert LastOfKind(links, ForkLink, 1);
    assert LastOfKind(links, TodayLink, 2);
    ExtractedStars(links);
    ExtractedForks(links);
    ExtractedToday(links);
  }

  lemma ExampleName()
    ensures RemoveChar("a / b", ' ') == "a/b"
    ensures GitHubHost + "/a/b" == "https://github.com/a/b"
  {
    assert ReplaceChar("b", ' ', "") == "b";
    assert ReplaceChar(" b", ' ', "") == "b";
    assert ReplaceChar("/ b", ' ', "") == "/b";
    assert ReplaceChar(" / b", ' ', "") == "/b";
  }

  /** The kinds of the three links of `ParseEntryExample`. */
  lemma ExampleKinds()
    ensures KindOf(Link(Some("/a/b/stars"), "1,234")) == StarsLink
    ensures KindOf(Link(Some("/a/b/forks"), "56")) == ForkLink
    ensures KindOf(Link(Some("/a/b/stars"), "12 stars today")) == TodayLink
  {
    ExampleOccurrences();
    NoOccurrence("/a/b/forks", "stars");
    NoOccurrence("1,234", "stars today");
  }

  lemma ExampleOccurrences()
    ensures Contains("/a/b/stars", "stars")
    ensures Contains("/a/b/forks", "fork")
    ensures Contains("12 stars today", "stars today")
  {
    assert "/a/b/stars"[5..10] == "stars";
    assert StartsAt("/a/b/stars", 5, "stars");
    assert "/a/b/forks"[5..9] == "fork";
    assert StartsAt("/a/b/forks", 5, "fork");
    assert "12 stars today"[3..14] == "stars today";
    assert StartsAt("12 stars today", 3, "stars today");
  }

  /** The numbers read from the texts of `ParseEntryExample`. */
  lemma ExampleNumbers()
    ensures StarsFromText("1,234") == Ok(1234)
    ensures ForksFromText("56") == Ok(56)
    ensures TodayFromText("12 stars today", None) == Some(12)
  {
    StarsOneComma();
    ExampleForks();
    ExampleToday();
  }

  lemma ExampleForks()
    ensures ForksFromText("56") == Ok(56)
  {
    DecimalFiftySix();
    ForksRoundTrip(56);
  }

  lemma DecimalFiftySix()
    ensures Decimal(56) == "56"
  {
    assert Decimal(5) == "5";
    assert 56 / 10 == 5 && 56 % 10 == 6;
  }

  lemma ExampleToday()
    ensures TodayFromText("12 stars today", None) == Some(12)
  {
    DecimalTwelve();
    assert Decimal(12) + " stars today" == "12 stars today";
    TodayRoundTrip(12, None);
  }

  lemma DecimalTwelve()
    ensures Decimal(12) == "12"
  {
    assert Decimal(1) == "1";
    assert 12 / 10 == 1 && 12 % 10 == 2;
  }

  /** `parse_repos` over the entries found on the page: the repositories of
      the entries that are not skipped, in page order. */
  function ParseRepos(entries: seq<RepoEntry>): (r: seq<GitHubRepo>)
    ensures |r| <= |entries|
    ensures forall x :: x in r <==> exists e :: e in entries && ParseEntry(e) == Some(x)
  {
    if |entries| == 0 then []
    else
      var last := entries[|entries| - 1];
      assert entries == entries[..|entries| - 1] + [last];
      ParseRepos(entries[..|entries| - 1]) + (match ParseEntry(last) case Some(x) => [x] case None => [])
  }

  /** Entries are parsed one by one: the repositories of a concatenation are
      those of its parts, one after the other. With the one-entry case
      (`ParseReposOne`) this fixes their order and multiplicity. */
  lemma {:induction false} ParseReposAppend(a: seq<RepoEntry>, b: seq<RepoEntry>)
    decreases |b|
    ensures ParseRepos(a + b) == ParseRepos(a) + ParseRepos(b)
  {
    if |b| > 0 {
      var init, last := b[..|b| - 1], b[|b| - 1];
      assert (a + b)[..|a + b| - 1] == a + init && (a + b)[|a + b| - 1] == last;
      var tail := match ParseEntry(last) case Some(x) => [x] case None => [];
      assert ParseRepos(a + b) == ParseRepos(a + init) + tail;
      assert ParseRepos(b) == ParseRepos(init) + tail;
      ParseReposAppend(a, init);
    } else {
      assert a + b == a;
    }
  }

  /** One entry gives its repository, or nothing when it does not parse. */
  lemma ParseReposOne(e: RepoEntry)
    ensures ParseRepos([e]) == match ParseEntry(e) case Some(x) => [x] case None => []
  {
    assert [e][..0] == [];
  }

  // ---------------------------------------------------------------------------
  // `sort_repos`
  // ---------------------------------------------------------------------------

  /** The three members of `SortBy`, and any other value. */
  datatype SortBy = ByStars | ByForks | ByToday | Unrecognised

  function StarsKey(r: GitHubRepo): real { r.stars as real }
  function ForksKey(r: GitHubRepo): real { r.forks as real }
  function TodayKey(r: GitHubRepo): real { r.todayStars.GetOr(0) as real }

  /** The repositories that have a stars-today count, in order. */
  function WithToday(repos: seq<GitHubRepo>): (r: seq<GitHubRepo>)
    ensures multiset(r) <= multiset(repos)
    ensures forall x :: x in r <==> x in repos && x.todayStars.Some?
  {
    if |repos| == 0 then []
    else
      var last := repos[|repos| - 1];
      assert repos == repos[..|repos| - 1] + [last];
      WithToday(repos[..|repos| - 1]) + (if last.todayStars.Some? then [last] else [])
  }

  /** The filter keeps the repositories in order: the result for a
      concatenation is the results for its parts, one after the other. */
  lemma {:induction false} WithTodayAppend(a: seq<GitHubRepo>, b: seq<GitHubRepo>)
    decreases |b|
    ensures WithToday(a + b) == WithToday(a) + WithToday(b)
  {
    if |b| > 0 {
      var init, last := b[..|b| - 1], b[|b| - 1];
      assert (a + b)[..|a + b| - 1] == a + init && (a + b)[|a + b| - 1] == last;
      var tail := if last.todayStars.Some? then [last] else [];
      assert WithToday(a + b) == WithToday(a + init) + tail;
      assert WithToday(b) == WithToday(init) + tail;
      WithTodayAppend(a, init);
    } else {
      assert a + b == a;
    }
  }

  /** A repository with a stars-today count is kept as often as it occurs;
      any other not at all. */
  lemma {:induction false} WithTodayCount(repos: seq<GitHubRepo>, x: GitHubRepo)
    ensures multiset(WithToday(repos))[x] == if x.todayStars.Some? then multiset(repos)[x] else 0
  {
    if |repos| > 0 {
      var init, last := repos[..|repos| - 1], repos[|repos| - 1];
      assert repos == init + [last];
      WithTodayCount(init, x);
    }
  }

  /** `sort_repos`: a stable sort by stars or forks, largest first; for
      stars today, only the repositories that have the count, sorted by it;
      any other value returns the list as given. */
  function SortRepos(repos: seq<GitHubRepo>, order: SortBy): (r: seq<GitHubRepo>)
    ensures order == Unrecognised ==> r == repos
    ensures multiset(r) == multiset(if order == ByToday then WithToday(repos) else repos)
    ensures order != Unrecognised ==> SortedDesc(r, KeyOf(order))
  {
    match order
    case ByStars => SortSorted(repos, StarsKey); Sort(repos, StarsKey)
    case ByForks => SortSorted(repos, ForksKey); Sort(repos, ForksKey)
    case ByToday => SortSorted(WithToday(repos), TodayKey); Sort(WithToday(repos), TodayKey)
    case Unrecognised => repos
  }

  function KeyOf(order: SortBy): GitHubRepo -> real {
    match order
    case ByStars => StarsKey
    case ByForks => ForksKey
    case ByToday => TodayKey
    case Unrecognised => StarsKey
  }

  /** Sorting by stars, forks or stars today puts the result in
      non-increasing order of that count, rearranges the repositories it
      keeps, and keeps repositories with equal counts in their order. */
  lemma SortReposOrdered(repos: seq<GitHubRepo>, order: SortBy, v: real)
    requires order != Unrecognised
    ensures var kept := if order == ByToday then WithToday(repos) else repos;
      var r := SortRepos(repos, order);
      && SortedDesc(r, KeyOf(order))
      && multiset(r) == multiset(kept)
      && KeyFilter(r, KeyOf(order), v) == KeyFilter(kept, KeyOf(order), v)
  {
    var kept := if order == ByToday then WithToday(repos) else repos;
    assert SortRepos(repos, order) == Sort(kept, KeyOf(order));
    SortSorted(kept, KeyOf(order));
    SortStable(kept, KeyOf(order), v);
  }

  /** Sorting by stars today keeps exactly the repositories that have the
      count; the other orders keep every repository. */
  lemma SortReposMembers(repos: seq<GitHubRepo>, order: SortBy, x: GitHubRepo)
    ensures x in SortRepos(repos, order) <==>
      x in repos && (order == ByToday ==> x.todayStars.Some?)
  {
    var kept := if order == ByToday then WithToday(repos) else repos;
    if order != Unrecognised {
      assert SortRepos(repos, order) == Sort(kept, KeyOf(order));
      assert x in Sort(kept, KeyOf(order)) <==> x in multiset(Sort(kept, KeyOf(order)));
      assert x in kept <==> x in multiset(kept);
    }
  }
}
