/** The URL codec of common.py: get_url (211-225), get_local_url (228-236)
    and parse_url (267-278).  parse_url's regular expression is unanchored
    and is modelled as a segment parser tried at every start position in
    turn, the first position that matches giving the result, as re.findall's
    first match does. */
module Urls {
  import opened Base
  import opened Text
  import opened Configuration

  /** The page types the pattern of parse_url accepts, in alternation order. */
  const PAGE_TYPES: seq<string> := ["movie", "star", "genre", "series", "studio", "label", "director", "search"]

  datatype UrlTriple = UrlTriple(pageType: string, keyword: string, pageNo: int)

  /** What parse_url returns when nothing matches. */
  const NO_MATCH := UrlTriple("", "", -1)

  const LOCAL_IP := "127.0.0.1"
  const DEFAULT_PORT: nat := 5000

  // ---------------------------------------------------------------------
  // Building URLs

  /** `'/{}'.format(x)` appended only when x is non-empty. */
  function Part(x: string): string {
    if x != "" then "/" + x else ""
  }

  /** The `/page/n` segment, present only for page numbers above 1. */
  function PageSegment(pageNo: int): string {
    if pageNo > 1 then "/page/" + NatToString(pageNo) else ""
  }

  /** The part of get_url's path naming the page: for "search", `/search/kw`
      only when kw is non-empty; otherwise the type and the keyword, each
      only when non-empty. */
  function KindPath(pageType: string, keyword: string): string {
    if pageType == "search" then
      (if keyword != "" then "/" + pageType + "/" + keyword else "")
    else
      Part(pageType) + Part(keyword)
  }

  /** What get_url appends after site/country. */
  function RemotePath(pageType: string, keyword: string, pageNo: int): string {
    KindPath(pageType, keyword) + PageSegment(pageNo)
  }

  /** The URL get_url builds, piece after piece. */
  function RemoteUrl(site: string, country: string, pageType: string, keyword: string, pageNo: int): string {
    site + "/" + country + KindPath(pageType, keyword) + PageSegment(pageNo)
  }

  /** get_url: reads base.avmoo_site and base.country from the configuration
      (raising as ConfigParser.get does when either is missing) and appends
      the path piece by piece. */
  method GetUrl(config: Config, pageType: string, keyword: string, pageNo: int) returns (r: Result<string>)
    ensures Get(config, "base", "avmoo_site").Err? ==> r == Err(Get(config, "base", "avmoo_site").error)
    ensures Get(config, "base", "avmoo_site").Ok? && Get(config, "base", "country").Err? ==>
      r == Err(Get(config, "base", "country").error)
    ensures Get(config, "base", "avmoo_site").Ok? && Get(config, "base", "country").Ok? ==>
      r == Ok(RemoteUrl(Get(config, "base", "avmoo_site").value, Get(config, "base", "country").value, pageType, keyword, pageNo))
  {
    var site := Get(config, "base", "avmoo_site");
    if site.Err? {
      return Err(site.error);
    }
    var country := Get(config, "base", "country");
    if country.Err? {
      return Err(country.error);
    }
    var ret := site.value + "/" + country.value;
    ghost var root := ret;
    if pageType == "search" {
      if keyword != "" {
        ret := ret + ("/" + pageType + "/" + keyword);
      }
    } else {
      if pageType != "" {
        ret := ret + ("/" + pageType);
      }
      assert ret == root + Part(pageType);
      if keyword != "" {
        ret := ret + ("/" + keyword);
      }
      assert ret == root + Part(pageType) + Part(keyword);
      AppendAssoc(root, Part(pageType), Part(keyword));
    }
    assert ret == root + KindPath(pageType, keyword);
    if pageNo > 1 {
      ret := ret + ("/page/" + NatToString(pageNo));
    } else {
      assert ret == ret + PageSegment(pageNo);
    }
    return Ok(ret);
  }

  function LocalRoot(): string {
    "http://" + LOCAL_IP + ":" + NatToString(DEFAULT_PORT)
  }

  /** What get_local_url builds; quote stands for urllib.parse.quote. */
  function LocalUrl(quote: string -> string, pageType: string, keyword: string, pageNo: int): string {
    LocalRoot() + Part(pageType) + (if keyword != "" then "/" + quote(keyword) else "") + PageSegment(pageNo)
  }

  /** get_local_url: the same shape rooted at the local server, the keyword
      percent-encoded, and no special case for "search". */
  method GetLocalUrl(quote: string -> string, pageType: string, keyword: string, pageNo: int) returns (ret: string)
    ensures ret == LocalUrl(quote, pageType, keyword, pageNo)
  {
    ret := "http://" + LOCAL_IP + ":" + NatToString(DEFAULT_PORT);
    ghost var root := ret;
    if pageType != "" {
      ret := ret + ("/" + pageType);
    }
    assert ret == root + Part(pageType);
    ghost var typed := ret;
    if keyword != "" {
      ret := ret + ("/" + quote(keyword));
    }
    assert ret == typed + (if keyword != "" then "/" + quote(keyword) else "");
    ghost var keyed := ret;
    if pageNo > 1 {
      ret := ret + ("/page/" + NatToString(pageNo));
    }
    assert ret == keyed + PageSegment(pageNo);
  }

  /** Every page number up to 1 builds the URL of page 1. */
  lemma PageOneOmitted(site: string, country: string, quote: string -> string, pageType: string, keyword: string, pageNo: int)
    requires pageNo <= 1
    ensures RemoteUrl(site, country, pageType, keyword, pageNo) == RemoteUrl(site, country, pageType, keyword, 1)
    ensures LocalUrl(quote, pageType, keyword, pageNo) == LocalUrl(quote, pageType, keyword, 1)
  {
  }

  /** get_url's URL is site/country followed by the path. */
  lemma RemoteUrlPath(site: string, country: string, pageType: string, keyword: string, pageNo: int)
    ensures RemoteUrl(site, country, pageType, keyword, pageNo) == (site + "/" + country) + RemotePath(pageType, keyword, pageNo)
  {
    AppendAssoc(site + "/" + country, KindPath(pageType, keyword), PageSegment(pageNo));
  }

  /** The URLs get_url builds all start with site/country. */
  lemma RemoteUrlPrefix(site: string, country: string, pageType: string, keyword: string, pageNo: int)
    ensures StartsWith(RemoteUrl(site, country, pageType, keyword, pageNo), site + "/" + country)
  {
    var root := site + "/" + country;
    RemoteUrlPath(site, country, pageType, keyword, pageNo);
    assert (root + RemotePath(pageType, keyword, pageNo))[..|root|] == root;
  }

  /** A search without a keyword is the bare country page. */
  lemma SearchWithoutKeyword(site: string, country: string, pageNo: int)
    ensures RemoteUrl(site, country, "search", "", pageNo) == site + "/" + country + PageSegment(pageNo)
  {
    assert KindPath("search", "") == "";
    assert site + "/" + country + "" == site + "/" + country;
  }

  /** With a page type and a keyword, search or not, the path is
      /type/keyword followed by the page segment. */
  lemma RemoteUrlFull(site: string, country: string, pageType: string, keyword: string, pageNo: int)
    requires pageType != "" && keyword != ""
    ensures RemoteUrl(site, country, pageType, keyword, pageNo)
         == site + "/" + country + "/" + pageType + "/" + keyword + PageSegment(pageNo)
  {
    var root := site + "/" + country;
    if pageType == "search" {
      AppendAssoc(root, "/" + pageType + "/", keyword);
      AppendAssoc(root, "/" + pageType, "/");
      AppendAssoc(root, "/", pageType);
    } else {
      AppendAssoc(root, "/" + pageType, "/" + keyword);
      AppendAssoc(root + "/" + pageType, "/", keyword);
      AppendAssoc(root, "/", pageType);
    }
  }

  /** Both builders name the page type and the keyword alike, except that
      get_url drops a search without a keyword. */
  lemma KindPathParts(pageType: string, keyword: string)
    requires pageType != "search" || keyword != ""
    ensures KindPath(pageType, keyword) == Part(pageType) + Part(keyword)
  {
    if pageType == "search" {
      AppendAssoc("/" + pageType, "/", keyword);
    }
  }

  /** When quoting keeps empty and non-empty keywords apart, the local URL has
      the remote path under the local root, except for a search with an
      empty keyword (see LocalSearchWithoutKeyword). */
  lemma LocalMatchesRemotePath(quote: string -> string, pageType: string, keyword: string, pageNo: int)
    requires (quote(keyword) == "") == (keyword == "")
    requires pageType != "search" || keyword != ""
    ensures LocalUrl(quote, pageType, keyword, pageNo) == LocalRoot() + RemotePath(pageType, quote(keyword), pageNo)
  {
    var q := quote(keyword);
    var page := PageSegment(pageNo);
    var root := LocalRoot();
    assert LocalUrl(quote, pageType, keyword, pageNo) == root + Part(pageType) + Part(q) + page;
    KindPathParts(pageType, q);
    AppendAssoc(root + Part(pageType), Part(q), page);
    AppendAssoc(root, Part(pageType), Part(q) + page);
    AppendAssoc(Part(pageType), Part(q), page);
  }

  /** A search without a keyword keeps the "/search" locally that get_url
      drops. */
  lemma LocalSearchWithoutKeyword(quote: string -> string, pageNo: int)
    ensures LocalUrl(quote, "search", "", pageNo) == LocalRoot() + "/search" + RemotePath("search", "", pageNo)
  {
    assert KindPath("search", "") == "" && Part("search") == "/search";
    assert LocalRoot() + "/search" + "" == LocalRoot() + "/search";
    assert "" + PageSegment(pageNo) == PageSegment(pageNo);
  }

  // ---------------------------------------------------------------------
  // Parsing URLs

  /** What a match of parse_url's pattern can give: one of the page types,
      a non-empty keyword without '/', and a page number that is never
      negative. */
  predicate WellFormed(m: UrlTriple) {
    m.pageType in PAGE_TYPES && m.keyword != "" && '/' !in m.keyword && m.pageNo >= 0
  }

  /** Length of the longest prefix of s with no '/'. */
  function NonSlashRun(s: string): (n: nat)
    ensures n <= |s|
    ensures forall i :: 0 <= i < n ==> s[i] != '/'
    ensures n < |s| ==> s[n] == '/'
    decreases |s|
  {
    if |s| == 0 || s[0] == '/' then 0 else 1 + NonSlashRun(s[1..])
  }

  /** Length of the longest prefix of s of ASCII digits. */
  function DigitRun(s: string): (n: nat)
    ensures n <= |s|
    ensures forall i :: 0 <= i < n ==> IsDigit(s[i])
    ensures n < |s| ==> !IsDigit(s[n])
    decreases |s|
  {
    if |s| == 0 || !IsDigit(s[0]) then 0 else 1 + DigitRun(s[1..])
  }

  /** `https?://`: the text after it. */
  function Scheme(s: string): Option<string> {
    if StartsWith(s, "https://") then Some(s[8..])
    else if StartsWith(s, "http://") then Some(s[7..])
    else None
  }

  /** `[^/]+/`: a non-empty run without '/' and the text after its '/'.
      The run cannot stop early, since what follows it must be '/'. */
  function Segment(s: string): Option<(string, string)> {
    var n := NonSlashRun(s);
    if n == 0 || n == |s| then None else Some((s[..n], s[n + 1..]))
  }

  /** `(movie|star|...)/`: the first alternative that s starts with,
      followed by '/', and the text after that '/'. */
  function PageTypeAt(s: string, types: seq<string>): (r: Option<(string, string)>)
    ensures r.Some? ==> r.value.0 in types
    decreases |types|
  {
    if |types| == 0 then None
    else if StartsWith(s, types[0] + "/") then Some((types[0], s[|types[0]| + 1..]))
    else PageTypeAt(s, types[1..])
  }

  /** `(/page/(\d+))?` after the keyword: the number, or 1 when absent. */
  function PageNumber(s: string): int {
    if StartsWith(s, "/page/") && DigitRun(s[6..]) > 0 then DigitsValue(s[6..][..DigitRun(s[6..])]) else 1
  }

  /** `([^/]+)(/page/(\d+))?` after the page type. */
  function KeywordAndPage(pageType: string, s: string): (r: Option<UrlTriple>)
    ensures r.Some? ==> r.value.pageType == pageType && r.value.keyword != ""
    ensures r.Some? ==> '/' !in r.value.keyword && r.value.pageNo >= 0
  {
    var n := NonSlashRun(s);
    if n == 0 then None else Some(UrlTriple(pageType, s[..n], PageNumber(s[n..])))
  }

  /** The pattern after the country segment. */
  function AfterCountry(s: string): (r: Option<UrlTriple>)
    ensures r.Some? ==> WellFormed(r.value)
  {
    match PageTypeAt(s, PAGE_TYPES)
    case None => None
    case Some((pageType, rest)) => KeywordAndPage(pageType, rest)
  }

  /** The pattern after the host segment. */
  function AfterHost(s: string): (r: Option<UrlTriple>)
    ensures r.Some? ==> WellFormed(r.value)
  {
    match Segment(s)
    case None => None
    case Some((_, rest)) => AfterCountry(rest)
  }

  /** The pattern after the scheme. */
  function AfterScheme(s: string): (r: Option<UrlTriple>)
    ensures r.Some? ==> WellFormed(r.value)
  {
    match Segment(s)
    case None => None
    case Some((_, rest)) => AfterHost(rest)
  }

  /** The pattern of parse_url matched at the start of s. */
  function MatchAt(s: string): (r: Option<UrlTriple>)
    ensures r.Some? ==> WellFormed(r.value)
  {
    match Scheme(s)
    case None => None
    case Some(rest) => AfterScheme(rest)
  }

  /** The match at the first start position from p on that matches. */
  function FirstMatch(s: string, p: nat): (r: UrlTriple)
    requires p <= |s|
    ensures r == NO_MATCH || WellFormed(r)
    decreases |s| - p
  {
    match MatchAt(s[p..])
    case Some(m) => m
    case None => if p == |s| then NO_MATCH else FirstMatch(s, p + 1)
  }

  /** parse_url: None and "" give NO_MATCH; otherwise the first match, a
      page type of PAGE_TYPES with a non-empty slash-free keyword and a page
      number that is never negative (it is 0 for "/page/0"). */
  function ParseUrl(url: Option<string>): (r: UrlTriple)
    ensures url == None || url == Some("") ==> r == NO_MATCH
    ensures r == NO_MATCH || WellFormed(r)
  {
    match url
    case None => NO_MATCH
    case Some(s) => if s == "" then NO_MATCH else FirstMatch(s, 0)
  }

  /** parse_url finds the match at the first position where the pattern
      matches. */
  lemma {:induction false} FirstMatchIsFirst(s: string, p: nat, q: nat)
    requires p <= q <= |s|
    requires MatchAt(s[q..]).Some?
    requires forall k :: p <= k < q ==> MatchAt(s[k..]).None?
    ensures FirstMatch(s, p) == MatchAt(s[q..]).value
    decreases q - p
  {
    if p < q {
      FirstMatchIsFirst(s, p + 1, q);
    }
  }

  /** parse_url gives NO_MATCH exactly when the pattern matches nowhere. */
  lemma {:induction false} FirstMatchNone(s: string, p: nat)
    requires p <= |s|
    ensures FirstMatch(s, p) == NO_MATCH <==> forall k :: p <= k <= |s| ==> MatchAt(s[k..]).None?
    decreases |s| - p
  {
    var here := MatchAt(s[p..]);
    if here.Some? {
      assert WellFormed(here.value) && !WellFormed(NO_MATCH);
      assert FirstMatch(s, p) == here.value;
      assert !(forall k :: p <= k <= |s| ==> MatchAt(s[k..]).None?) by {
        assert MatchAt(s[p..]).Some?;
      }
    } else if p < |s| {
      FirstMatchNone(s, p + 1);
      assert FirstMatch(s, p) == FirstMatch(s, p + 1);
      assert (forall k :: p <= k <= |s| ==> MatchAt(s[k..]).None?)
         <==> (forall k :: p + 1 <= k <= |s| ==> MatchAt(s[k..]).None?);
    }
  }

  // ---------------------------------------------------------------------
  // The round trip

  lemma {:induction false} NonSlashRunOf(a: string, rest: string)
    requires '/' !in a
    requires rest == "" || rest[0] == '/'
    ensures NonSlashRun(a + rest) == |a|
    decreases |a|
  {
    if |a| > 0 {
      assert (a + rest)[1..] == a[1..] + rest;
      NonSlashRunOf(a[1..], rest);
    } else {
      assert a + rest == rest;
    }
  }

  lemma SegmentOf(a: string, rest: string)
    requires a != "" && '/' !in a
    ensures Segment(a + "/" + rest) == Some((a, rest))
  {
    NonSlashRunOf(a, "/" + rest);
    assert a + "/" + rest == a + ("/" + rest);
    assert (a + "/" + rest)[..|a|] == a;
    assert (a + "/" + rest)[|a| + 1..] == rest;
  }

  /** Two slash-free names followed by '/' are the same when one text
      starts with both. */
  lemma SlashFreePrefix(t: string, u: string, rest: string)
    requires '/' !in t && '/' !in u
    requires StartsWith(t + "/" + rest, u + "/")
    ensures t == u
  {
    var s := t + "/" + rest;
    if |u| == |t| {
      assert s[..|u| + 1][..|u|] == s[..|u|];
      assert s[..|u|] == t;
      assert (u + "/")[..|u|] == u;
    } else if |u| < |t| {
      PrefixChar(s, u + "/", |u|);
      assert false;
    } else {
      PrefixChar(s, u + "/", |t|);
      assert false;
    }
  }

  lemma {:induction false} PageTypeAtOf(t: string, rest: string, types: seq<string>)
    requires t in types && '/' !in t
    requires forall i :: 0 <= i < |types| ==> '/' !in types[i]
    ensures PageTypeAt(t + "/" + rest, types) == Some((t, rest))
    decreases |types|
  {
    var s := t + "/" + rest;
    if types[0] == t {
      assert s[..|t| + 1] == t + "/";
      assert s[|t| + 1..] == rest;
    } else {
      if StartsWith(s, types[0] + "/") {
        SlashFreePrefix(t, types[0], rest);
      }
      assert t in types[1..];
      PageTypeAtOf(t, rest, types[1..]);
    }
  }

  lemma KeywordAndPageOf(pageType: string, keyword: string, tail: string)
    requires keyword != "" && '/' !in keyword
    requires tail == "" || tail[0] == '/'
    ensures KeywordAndPage(pageType, keyword + tail) == Some(UrlTriple(pageType, keyword, PageNumber(tail)))
  {
    NonSlashRunOf(keyword, tail);
    assert (keyword + tail)[..|keyword|] == keyword;
    assert (keyword + tail)[|keyword|..] == tail;
  }

  lemma SchemeOf(scheme: string, rest: string)
    requires scheme == "http" || scheme == "https"
    requires rest != ""
    ensures Scheme(scheme + "://" + rest) == Some(rest)
  {
    var url := scheme + "://" + rest;
    if scheme == "https" {
      assert url[..8] == "https://";
      assert url[8..] == rest;
    } else {
      assert url[4] == ':';
      assert url[..7] == "http://";
      assert url[7..] == rest;
    }
  }

  lemma AfterCountryOf(pageType: string, keyword: string, tail: string)
    requires pageType in PAGE_TYPES
    requires keyword != "" && '/' !in keyword
    requires tail == "" || tail[0] == '/'
    ensures AfterCountry(pageType + "/" + (keyword + tail)) == Some(UrlTriple(pageType, keyword, PageNumber(tail)))
  {
    assert forall i :: 0 <= i < |PAGE_TYPES| ==> '/' !in PAGE_TYPES[i];
    PageTypeAtOf(pageType, keyword + tail, PAGE_TYPES);
    KeywordAndPageOf(pageType, keyword, tail);
  }

  lemma AfterHostOf(country: string, rest: string)
    requires country != "" && '/' !in country
    ensures AfterHost(country + "/" + rest) == AfterCountry(rest)
  {
    SegmentOf(country, rest);
  }

  lemma AfterSchemeOf(host: string, rest: string)
    requires host != "" && '/' !in host
    ensures AfterScheme(host + "/" + rest) == AfterHost(rest)
  {
    SegmentOf(host, rest);
  }

  /** The pattern matches at the start of every URL of the shape it
      describes: a scheme, a host, a country, a page type, a keyword and a
      tail starting with '/' or empty, from which the page is read. */
  lemma MatchAtOf(scheme: string, host: string, country: string, pageType: string, keyword: string, tail: string)
    requires scheme == "http" || scheme == "https"
    requires host != "" && '/' !in host
    requires country != "" && '/' !in country
    requires pageType in PAGE_TYPES
    requires keyword != "" && '/' !in keyword
    requires tail == "" || tail[0] == '/'
    ensures MatchAt(scheme + "://" + (host + "/" + (country + "/" + (pageType + "/" + (keyword + tail)))))
         == Some(UrlTriple(pageType, keyword, PageNumber(tail)))
  {
    var afterCountry := pageType + "/" + (keyword + tail);
    var afterHost := country + "/" + afterCountry;
    SchemeOf(scheme, host + "/" + afterHost);
    AfterSchemeOf(host, afterHost);
    AfterHostOf(country, afterCountry);
    AfterCountryOf(pageType, keyword, tail);
  }

  lemma {:induction false} DigitRunAll(d: string)
    requires AllDigits(d)
    ensures DigitRun(d) == |d|
    decreases |d|
  {
    if |d| > 0 {
      DigitRunAll(d[1..]);
    }
  }

  /** A page tail `/page/digits` gives the value of the digits, leading
      zeros and zero itself included. */
  lemma PageNumberDigits(digits: string)
    requires digits != "" && AllDigits(digits)
    ensures PageNumber("/page/" + digits) == DigitsValue(digits)
  {
    var s := "/page/" + digits;
    assert s[..6] == "/page/";
    assert s[6..] == digits;
    DigitRunAll(digits);
    assert digits[..|digits|] == digits;
  }

  /** The page segment get_url writes reads back as the page number. */
  lemma PageNumberOf(pageNo: int)
    requires pageNo >= 1
    ensures PageNumber(PageSegment(pageNo)) == pageNo
  {
    if pageNo > 1 {
      PageNumberDigits(NatToString(pageNo));
      DigitsRoundTrip(pageNo);
    }
  }

  /** The whole-text match is also parse_url's result. */
  lemma ParseUrlAtStart(s: string)
    requires MatchAt(s).Some?
    ensures ParseUrl(Some(s)) == MatchAt(s).value
  {
    assert s[0..] == s;
  }

  /** The URL get_url builds, grouped from the right as the parser reads it. */
  lemma RemoteUrlNested(scheme: string, host: string, country: string, pageType: string, keyword: string, tail: string)
    ensures scheme + "://" + host + "/" + country + "/" + pageType + "/" + keyword + tail
         == scheme + "://" + (host + "/" + (country + "/" + (pageType + "/" + (keyword + tail))))
  {
    var p1 := scheme + "://" + host + "/" + country + "/" + pageType + "/";
    AppendAssoc(p1, keyword, tail);
    var r1 := keyword + tail;
    var p2 := scheme + "://" + host + "/" + country + "/";
    AppendAssoc(p2 + pageType, "/", r1);
    AppendAssoc(p2, pageType, "/" + r1);
    AppendAssoc(pageType, "/", r1);
    var r2 := pageType + "/" + r1;
    var p3 := scheme + "://" + host + "/";
    AppendAssoc(p3 + country, "/", r2);
    AppendAssoc(p3, country, "/" + r2);
    AppendAssoc(country, "/", r2);
    var r3 := country + "/" + r2;
    var p4 := scheme + "://";
    AppendAssoc(p4 + host, "/", r3);
    AppendAssoc(p4, host, "/" + r3);
    AppendAssoc(host, "/", r3);
  }

  /** parse_url inverts get_url: for a site http(s)://host with a non-empty
      slash-free host, a non-empty slash-free country, one of the eight page
      types, a non-empty slash-free keyword and a page number of at least 1,
      parsing the built URL gives back the type, keyword and page. */
  lemma ParseGetUrlRoundTrip(scheme: string, host: string, country: string, pageType: string, keyword: string, pageNo: int)
    requires scheme == "http" || scheme == "https"
    requires host != "" && '/' !in host
    requires country != "" && '/' !in country
    requires pageType in PAGE_TYPES
    requires keyword != "" && '/' !in keyword
    requires pageNo >= 1
    ensures ParseUrl(Some(RemoteUrl(scheme + "://" + host, country, pageType, keyword, pageNo))) == UrlTriple(pageType, keyword, pageNo)
  {
    var tail := PageSegment(pageNo);
    RemoteUrlFull(scheme + "://" + host, country, pageType, keyword, pageNo);
    RemoteUrlNested(scheme, host, country, pageType, keyword, tail);
    MatchAtOf(scheme, host, country, pageType, keyword, tail);
    PageNumberOf(pageNo);
    ParseUrlAtStart(scheme + "://" + (host + "/" + (country + "/" + (pageType + "/" + (keyword + tail)))));
  }

  /** A movie URL without a page segment is page 1. */
  lemma ParseUrlExample()
    ensures ParseUrl(Some("https://x.test/en/movie/ABC-123")) == UrlTriple("movie", "ABC-123", 1)
  {
    var u := "https://x.test/en/movie/ABC-123";
    assert u == "https" + "://" + ("x.test" + "/" + ("en" + "/" + ("movie" + "/" + ("ABC-123" + ""))));
    MatchAtOf("https", "x.test", "en", "movie", "ABC-123", "");
    ParseUrlAtStart(u);
  }

  /** A URL ending in `/page/digits` parses to the value of the digits,
      leading zeros included; `/page/0` gives page 0, which get_url never
      writes. */
  lemma ParsePageDigits(scheme: string, host: string, country: string, pageType: string, keyword: string, digits: string)
    requires scheme == "http" || scheme == "https"
    requires host != "" && '/' !in host
    requires country != "" && '/' !in country
    requires pageType in PAGE_TYPES
    requires keyword != "" && '/' !in keyword
    requires digits != "" && AllDigits(digits)
    ensures ParseUrl(Some(scheme + "://" + (host + "/" + (country + "/" + (pageType + "/" + (keyword + ("/page/" + digits)))))))
         == UrlTriple(pageType, keyword, DigitsValue(digits))
  {
    MatchAtOf(scheme, host, country, pageType, keyword, "/page/" + digits);
    PageNumberDigits(digits);
    ParseUrlAtStart(scheme + "://" + (host + "/" + (country + "/" + (pageType + "/" + (keyword + ("/page/" + digits))))));
  }

  lemma ParsePageZero(scheme: string, host: string, country: string, pageType: string, keyword: string)
    requires scheme == "http" || scheme == "https"
    requires host != "" && '/' !in host
    requires country != "" && '/' !in country
    requires pageType in PAGE_TYPES
    requires keyword != "" && '/' !in keyword
    ensures ParseUrl(Some(scheme + "://" + (host + "/" + (country + "/" + (pageType + "/" + (keyword + "/page/0"))))))
         == UrlTriple(pageType, keyword, 0)
  {
    ParsePageDigits(scheme, host, country, pageType, keyword, "0");
    assert "/page/" + "0" == "/page/0";
    assert DigitsValue("0") == 0;
  }
}
