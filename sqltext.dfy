/** The SQL text common.py builds: search_where (239-247), insert_sql_build
    (153-157), the existence queries of get_exist_linkid (285-299) and
    list_in_str (204-208).  Only the text is modelled; what SQLite makes of
    it is not. */
module SqlText {
  import opened Text
  import opened Escape

  // ---------------------------------------------------------------------
  // search_where

  const TITLE_LIKE := "(av_list.title LIKE '%"

  /** The clause after its first copy of the keyword e. */
  function WhereRest(e: string): string {
    "%' OR av_list.director = '" + e
    + "' OR av_list.studio = '" + e
    + "' OR av_list.label = '" + e
    + "' OR av_list.series LIKE '%" + e
    + "%' OR av_list.genre LIKE '%|" + e
    + "|%' OR av_list.stars LIKE '%" + e
    + "%')"
  }

  /** The clause search_where builds around the escaped keyword e. */
  function WhereClause(e: string): string {
    TITLE_LIKE + e + WhereRest(e)
  }

  /** search_where: seven tests of the escaped keyword, joined by OR. */
  function SearchWhere(key: string): string {
    WhereClause(EscapeChars(key))
  }

  lemma SliceMiddle(a: string, b: string, c: string)
    ensures (a + b + c)[|a|..|a| + |b|] == b
  {
  }

  /** search_where is one-to-one: each clause stands for exactly one
      keyword, since the escape can be undone and appears at a fixed place. */
  lemma SearchWhereInjective(a: string, b: string)
    ensures SearchWhere(a) == SearchWhere(b) <==> a == b
  {
    if SearchWhere(a) == SearchWhere(b) {
      var ea, eb := EscapeChars(a), EscapeChars(b);
      assert |WhereClause(ea)| == |TITLE_LIKE| + |WhereRest("")| + 7 * |ea|;
      assert |WhereClause(eb)| == |TITLE_LIKE| + |WhereRest("")| + 7 * |eb|;
      SliceMiddle(TITLE_LIKE, ea, WhereRest(ea));
      SliceMiddle(TITLE_LIKE, eb, WhereRest(eb));
      assert ea == eb;
      UnescapeEscape(a);
      UnescapeEscape(b);
    }
  }

  /** The keyword enters the clause only in its escaped form, in which every
      quote is doubled. */
  lemma SearchWhereEscapes(key: string)
    ensures StartsWith(SearchWhere(key), TITLE_LIKE + EscapeChars(key))
    ensures QuotesPaired(EscapeChars(key))
  {
    var e := EscapeChars(key);
    assert (TITLE_LIKE + e + WhereRest(e))[..|TITLE_LIKE + e|] == TITLE_LIKE + e;
    EscapedQuotesPaired(key);
  }

  // ---------------------------------------------------------------------
  // insert_sql_build

  /** s * n in Python. */
  function Repeat(s: string, n: nat): string
    decreases n
  {
    if n == 0 then "" else s + Repeat(s, n - 1)
  }

  /** s[:-1] in Python; the empty text stays empty. */
  function DropLast(s: string): string {
    if |s| == 0 then "" else s[..|s| - 1]
  }

  /** ("?," * n)[:-1]. */
  function Placeholders(n: nat): string {
    DropLast(Repeat("?,", n))
  }

  /** n copies of "?". */
  function Questions(n: nat): (r: seq<string>)
    ensures |r| == n && forall i :: 0 <= i < n ==> r[i] == "?"
    decreases n
  {
    if n == 0 then [] else ["?"] + Questions(n - 1)
  }

  /** insert_sql_build: `REPLACE INTO table (c1,...,cn) VALUES (?,...,?)`,
      the columns in the order of the row's keys. */
  function InsertSqlBuild(table: string, columns: seq<string>): string {
    "REPLACE INTO " + table + " (" + Join(",", columns) + ") VALUES (" + Placeholders(|columns|) + ")"
  }

  /** The placeholders are n question marks separated by commas, and none
      at all for n = 0. */
  lemma {:induction false} PlaceholdersJoin(n: nat)
    ensures Placeholders(n) == Join(",", Questions(n))
    decreases n
  {
    if n > 1 {
      PlaceholdersJoin(n - 1);
      var r := Repeat("?,", n - 1);
      assert |r| >= 2;
      assert Repeat("?,", n) == "?," + r;
      assert DropLast("?," + r) == "?," + DropLast(r);
      assert Questions(n)[1..] == Questions(n - 1);
    } else if n == 1 {
      assert Repeat("?,", 1) == "?,";
    }
  }

  /** The statement has as many placeholders as columns: splitting the two
      lists at their commas gives back the columns and one "?" per column.
      Column names without commas are assumed, as the table's are. */
  lemma InsertSqlArity(columns: seq<string>)
    requires |columns| >= 1
    requires forall i :: 0 <= i < |columns| ==> ',' !in columns[i]
    ensures Split(Join(",", columns), ',') == columns
    ensures Split(Placeholders(|columns|), ',') == Questions(|columns|)
  {
    SplitJoin(columns, ',');
    PlaceholdersJoin(|columns|);
    SplitJoin(Questions(|columns|), ',');
  }

  /** A row with no keys builds `VALUES ()`. */
  lemma InsertSqlEmpty(table: string)
    ensures InsertSqlBuild(table, []) == "REPLACE INTO " + table + " () VALUES ()"
  {
    assert Placeholders(0) == "";
  }

  // ---------------------------------------------------------------------
  // The existence queries of get_exist_linkid

  const LINKID_FROM_LIST := "SELECT linkid FROM av_list WHERE "

  /** `{type}_url='{kw}'` for director, studio, label and series. */
  function UrlQuery(pageType: string, keyword: string): string {
    LINKID_FROM_LIST + pageType + "_url='" + keyword + "'"
  }

  /** What storege_init loads for a table. */
  function TableQuery(table: string): string {
    "SELECT * FROM " + table
  }

  /** The genre row of a linkid, read straight from the database. */
  function GenreLookupQuery(keyword: string): string {
    "SELECT * FROM av_genre WHERE linkid='" + keyword + "'"
  }

  /** Films tagged with the genre name. */
  function GenreQuery(name: string): string {
    LINKID_FROM_LIST + "genre LIKE '%|" + name + "|%'"
  }

  function StarQuery(keyword: string): string {
    LINKID_FROM_LIST + "stars_url LIKE '%" + keyword + "%'"
  }

  function GroupQuery(keyword: string): string {
    LINKID_FROM_LIST + "av_id LIKE '" + keyword + "-%'"
  }

  /** One search_where clause per token. */
  function SearchClauses(tokens: seq<string>): (r: seq<string>)
    ensures |r| == |tokens|
    ensures forall i :: 0 <= i < |tokens| ==> r[i] == SearchWhere(tokens[i])
    decreases |tokens|
  {
    if |tokens| == 0 then [] else [SearchWhere(tokens[0])] + SearchClauses(tokens[1..])
  }

  /** The search query: the clauses of the space-separated tokens joined by
      AND. */
  function SearchQuery(keyword: string): string {
    LINKID_FROM_LIST + Join(" AND ", SearchClauses(Split(keyword, ' ')))
  }

  /** The search branch of get_exist_linkid: one clause per token of
      keyword.split(' '), each escaped by sql_escape, joined by AND. */
  method SearchSql(keyword: string) returns (sql: string)
    ensures sql == SearchQuery(keyword)
  {
    var tokens := Split(keyword, ' ');
    var where: seq<string> := [];
    for i := 0 to |tokens|
      invariant |where| == i
      invariant forall j :: 0 <= j < i ==> where[j] == SearchWhere(tokens[j])
    {
      var escaped := SqlEscape(tokens[i]);
      where := where + [WhereClause(escaped)];
    }
    assert where == SearchClauses(tokens);
    sql := LINKID_FROM_LIST + Join(" AND ", where);
  }

  /** Number of occurrences of c in s. */
  function Count(s: string, c: char): nat
    decreases |s|
  {
    if |s| == 0 then 0 else (if s[0] == c then 1 else 0) + Count(s[1..], c)
  }

  lemma {:induction false} SplitCount(s: string, sep: char)
    ensures |Split(s, sep)| == Count(s, sep) + 1
    decreases |s|
  {
    if |s| > 0 {
      SplitCount(s[1..], sep);
    }
  }

  /** The search query has one clause per space-separated token, so one more
      than the keyword has spaces; two spaces in a row give an empty token,
      whose clause tests the empty keyword; and which token each clause
      stands for can be read back from it. */
  lemma SearchQueryTokens(keyword: string)
    ensures |SearchClauses(Split(keyword, ' '))| == Count(keyword, ' ') + 1
    ensures forall i :: 0 <= i < |Split(keyword, ' ')| ==>
      SearchClauses(Split(keyword, ' '))[i] == SearchWhere(Split(keyword, ' ')[i])
    ensures Join(" ", Split(keyword, ' ')) == keyword
  {
    SplitCount(keyword, ' ');
    JoinSplit(keyword, ' ');
  }

  // ---------------------------------------------------------------------
  // list_in_str

  /** list_in_str: whether some item of the list occurs in the text; the
      empty item occurs in every text. */
  method ListInStr(targets: seq<string>, target: string) returns (found: bool)
    ensures found <==> exists i :: 0 <= i < |targets| && Contains(target, targets[i])
  {
    for i := 0 to |targets|
      invariant forall j :: 0 <= j < i ==> !Contains(target, targets[j])
    {
      if Contains(target, targets[i]) {
        return true;
      }
    }
    return false;
  }

  lemma EmptyItemContained(target: string)
    ensures Contains(target, "")
  {
    assert target[..0] == "";
  }
}
