# A verified model of common.py, the helper module of avmoo-spider

common.py is the shared helper layer of a site scraper. It builds the site's
URLs and parses them back. It escapes keywords and builds the SQL text of the
existence queries and inserts. It shapes cursor rows into dicts. It keeps two
populate-once caches: the `DATA_STORAGE` table snapshot and the `SQL_CACHE`
query cache, which `website.use_cache` turns on. It also reconciles the user's
`config.ini` with `config.ini.default`.

The model has one Dafny module per concern:

- `Base`: the shared value types. These are `Option`, `Result` and `Error`,
  which stand for `KeyError`, `NoSectionError`, `NoOptionError` and
  getboolean's `ValueError`; the SQLite `Value`; a `Row` as a dict; and the
  raw `Cursor`.
- `Text`: `str()` and `int()` of decimals, `split`, `join`, and the
  substring test `sub in s`.
- `Escape`: `sql_escape` over `ESCAPT_LIST`. It is proved equal to a
  per-character escape, it is proved to have an inverse, and it never leaves a
  lone quote.
- `SqlText`: `search_where`, `insert_sql_build`, the statements of
  `get_exist_linkid`, and `list_in_str`.
- `CacheKey`: `get_table_name` and `gen_cache_key`. `re.findall` is written
  as a scan. The order `list(set(...))` gives and `binascii.crc32` are
  parameters.
- `Configuration`: ConfigParser's `get`, `set` and `getboolean` over nested
  maps, plus `config_path`, `config_save` and `config_check`.
- `Urls`: `get_url`, `get_local_url` and `parse_url`. The regular expression
  of `parse_url` is written as a segment parser, tried at each start position
  in turn.
- `Rows`: `fetchall`'s row shaping, the comprehensions of `storage` and
  `storage_col`, and the linkid dict.
- `Store`: class `Context`, which holds the module state. Its fields are
  `CONFIG` (`config`), `DATA_STORAGE` (`snapshot`) and `SQL_CACHE` (`cache`),
  plus a ghost log of the statements run. Its methods are `fetchall`,
  `storege_init`, `storage`, `storage_col`, `query_sql`, `get_exist_linkid`
  and `config_init`.

The database is a fixed function from statement text to what the cursor
yields. Whether `config.ini` exists is a boolean input. The files' contents
are maps handed in by the caller.

The model follows what the code does, including where that differs from what
the module's design suggests:

- `storage` keeps a row when ANY column of `cond` matches (common.py:106),
  not when all of them do. An empty `cond` keeps nothing either way.
- The table names in a cache key are not sorted; they come in whatever order
  `list(set(...))` gives (common.py:308). The pattern also matches column
  names such as `av_id` (`CacheKey.GroupQueryTables`).
- The genre lookup of `get_exist_linkid` runs its statement through
  `fetchall` (common.py:288), not through the snapshot.
- Only the `search` branch escapes the keyword (common.py:240). The other
  branches put it into the statement as it is.
- The dict `fetchall` builds is a map, so the column order of the cursor
  metadata is not kept.

## Model

| member | source | states |
|---|---|---|
| Escape.SqlEscape | common.py:261-264 | the loop over the replacement table gives exactly the per-character escape of the keyword |
| Escape.EscapeListIsPerChar | common.py:50-60 | applying the nine replacements in table order, each to the whole text, equals escaping each character on its own |
| Escape.RuleForEscapeList | common.py:50-60 | the first table rule for a character is its escape: `/` to `//`, `'` to `''`, each of `[]%&_()` prefixed with `/`, anything else kept |
| Escape.ApplyRulesPerChar | common.py:262-263 | any replacement table in which no pattern repeats and no pattern occurs in an earlier replacement acts character by character |
| Escape.EscapeListNoReescape | common.py:50-60 | the table has that property: `/` comes first, so a later rule never rewrites an inserted slash |
| Escape.SlashLastWouldReescape | common.py:50-60 | with `/` moved to the end of the table, `[` would become `//[` instead of `/[`, so the order matters |
| Escape.EscapeExample | common.py:261-264 | `a/b'c%d` escapes to `a//b''c/%d` |
| Escape.EscapeInverse | common.py:261-264 | Unescape(t) == Some(s) iff the escape of s is t, so two keywords never escape alike |
| Escape.EscapedQuotesPaired | common.py:261-264 | every quote in an escaped keyword is directly followed by its pair |
| SqlText.SearchWhere | common.py:239-247 | search_where: the escaped keyword inside seven tests (title, director, studio, label, series, genre, stars) joined by OR; SearchWhereInjective and SearchWhereEscapes state what it guarantees |
| SqlText.SearchWhereInjective | common.py:239-247 | two keywords give the same search_where clause iff they are equal |
| SqlText.SearchWhereEscapes | common.py:239-247 | the clause starts with the title test on the escaped keyword, and that keyword has no lone quote |
| SqlText.InsertSqlBuild | common.py:153-157 | insert_sql_build: `REPLACE INTO table (cols) VALUES (?s)`, the columns in key order joined by commas; InsertSqlArity and InsertSqlEmpty state its shape |
| SqlText.PlaceholdersJoin | common.py:155 | `("?," * n)[:-1]` is n question marks joined by commas, and empty for n = 0 |
| SqlText.InsertSqlArity | common.py:153-157 | splitting the column list and the placeholder list at commas gives back the columns and one `?` per column |
| SqlText.InsertSqlEmpty | common.py:153-157 | a row without keys builds `REPLACE INTO t () VALUES ()` |
| SqlText.SearchSql | common.py:295-299 | the loop builds the query from one escaped search_where clause per space-separated token, joined by AND |
| SqlText.SearchQueryTokens | common.py:297-299 | the query has one clause more than the keyword has spaces, clause i belongs to token i, and joining the tokens by spaces gives back the keyword |
| SqlText.ListInStr | common.py:204-208 | the result is true iff some item of the list occurs in the text |
| SqlText.EmptyItemContained | common.py:206 | the empty item occurs in every text |
| Text.DigitsRoundTrip | common.py:277 | `int()` of the decimal form of n gives n back |
| Text.NatToStringInjective | common.py:313 | different numbers have different decimal forms |
| Text.JoinSplit | common.py:297 | joining the pieces of `split(sep)` with sep gives back the text |
| Text.SplitJoin | common.py:155 | splitting a join of pieces without the separator gives back the pieces |
| Text.ContainsAt | common.py:206 | a text occurring at some index is contained |
| Text.ContainsWitness | common.py:206 | a contained text occurs at some index |
| Text.ContainsIff | common.py:206 | `sub in s` holds iff sub occurs in s at some index |
| CacheKey.GetTableName | common.py:307-308 | get_table_name: the order's listing of the set of names the scan finds; TableNamesFound states that it lists exactly those names, each once |
| CacheKey.GenCacheKey | common.py:312-313 | gen_cache_key: the names joined by a vertical bar, a colon, then the masked checksum in decimal; CacheKeyCollision states when two keys are equal |
| CacheKey.FindTables | common.py:308 | every name the scan finds matches `av_[a-z]+` |
| CacheKey.FindTablesName | common.py:308 | a name followed by a character that is not a lower-case letter is found whole, and the scan goes on after it |
| CacheKey.GroupQueryTables | common.py:294 | for the group query the scan finds `av_list` and then the column name `av_id`, before anything the keyword holds |
| CacheKey.TableNamesFound | common.py:307-308 | when the order lists the set, get_table_name gives each name found exactly once and nothing else |
| CacheKey.Mask | common.py:313 | `& 0xffffffff` lies in [0, 2^32) |
| CacheKey.CacheKeyCollision | common.py:312-313 | two statements share a cache key iff their table-name lists are equal and their checksums agree modulo 2^32 |
| Configuration.GetBoolean | common.py:320 | getboolean succeeds only for an option that exists |
| Configuration.GetBooleanWords | common.py:320 | getboolean is true iff the lower-cased value is one of `1 yes true on`, and false iff it is one of `0 no false off` |
| Configuration.GetBooleanIgnoresCase | common.py:320 | a value and its lower-cased form are both booleans or both not, with the same truth value |
| Configuration.GetBooleanExample | common.py:320 | `True` reads as true |
| Configuration.ConfigPath | common.py:115-119 | the path is config.ini iff config.ini exists |
| Configuration.ConfigSave | common.py:145-150 | what is written is the config without base.country_name, with every other option and every section kept |
| Configuration.FillPairs | common.py:137-141 | the loop of config_check computes the reconciliation Fill of the required pairs, stopping at the first one that cannot be filled |
| Configuration.FillFails | common.py:137-141 | reconciliation fails iff some required pair is in neither file |
| Configuration.FillFailsFirst | common.py:137-141 | a failure carries the default file's get error for the first pair that is in neither file |
| Configuration.FillHasPairs | common.py:137-141 | after reconciliation every required pair is present |
| Configuration.FillKeepsExisting | common.py:140 | reconciliation never changes or removes an option the user had |
| Configuration.FillFromDefaults | common.py:141 | a missing required option gets the default file's value |
| Configuration.FillAddsOnlyPairs | common.py:137-141 | reconciliation adds no option except required ones |
| Configuration.FillSections | common.py:138-139 | the sections afterwards are the user's plus those of the required pairs |
| Configuration.DerivedNotRequired | common.py:18-37 | base.country_name is not a required option |
| Configuration.SaveAfterFill | common.py:129-150 | saving a successful reconciliation satisfies every clause of Reconciled |
| Configuration.ConfigCheck | common.py:129-142 | without config.ini nothing happens. Otherwise it fails iff some required pair is in neither file, raising for the first such pair, or it writes a config where every required pair is present, the user's values are kept, missing ones come from the defaults, nothing else is added, and base.country_name is not written |
| Urls.RemoteUrl | common.py:211-225 | the URL get_url returns when site and country are set; RemoteUrlPath, RemoteUrlPrefix, RemoteUrlFull and ParseGetUrlRoundTrip state its shape |
| Urls.LocalUrl | common.py:228-236 | the URL get_local_url returns, for a quote function given as a parameter; LocalMatchesRemotePath and LocalSearchWithoutKeyword relate it to get_url |
| Urls.GetUrl | common.py:211-225 | NoSection/NoOption errors for a missing site or country, otherwise the URL built piece by piece: site/country, the kind path, then `/page/n` |
| Urls.GetLocalUrl | common.py:228-236 | the local URL: type when non-empty, quoted keyword when non-empty, `/page/n` for n > 1 |
| Urls.PageOneOmitted | common.py:223-236 | every page number up to 1 builds the URL of page 1, remote and, for any quote function, local |
| Urls.RemoteUrlPath | common.py:213-225 | the URL is site/country followed by the kind path and the page segment |
| Urls.RemoteUrlPrefix | common.py:213-214 | every URL get_url builds starts with site/country |
| Urls.SearchWithoutKeyword | common.py:215-217 | a search without a keyword is the bare country page |
| Urls.RemoteUrlFull | common.py:215-222 | with a type and a keyword, search or not, the path is `/type/keyword` and then the page segment |
| Urls.KindPathParts | common.py:215-222 | except for a search without a keyword, the type and the keyword are each appended only when non-empty |
| Urls.LocalMatchesRemotePath | common.py:228-236 | under the local root the local URL has the remote path of the quoted keyword, except for a search without a keyword |
| Urls.LocalSearchWithoutKeyword | common.py:230-231 | locally a search without a keyword keeps `/search`, which get_url drops |
| Urls.MatchAt | common.py:270-271 | a match gives one of the eight page types, a non-empty keyword without `/`, and a page that is never negative |
| Urls.ParseUrl | common.py:267-278 | None and "" give ("", "", -1), and any other result is a well-formed match |
| Urls.FirstMatchIsFirst | common.py:270-278 | the result is the match at the first position where the pattern matches |
| Urls.FirstMatchNone | common.py:270-274 | ("", "", -1) comes back iff the pattern matches at no position |
| Urls.ParseUrlAtStart | common.py:270-278 | a match at the start of the text is the result |
| Urls.ParseGetUrlRoundTrip | common.py:211-278 | parse_url(get_url(t, k, n)) == (t, k, n) for an http(s) site with a slash-free host, a slash-free country, one of the eight types, a non-empty slash-free keyword and n >= 1 |
| Urls.ParseUrlExample | common.py:267-278 | `https://x.test/en/movie/ABC-123` parses to ("movie", "ABC-123", 1) |
| Urls.ParsePageDigits | common.py:275-277 | `/page/digits` parses to the value of the digits, leading zeros included |
| Urls.ParsePageZero | common.py:275-277 | `/page/0` parses to page 0, which get_url never writes |
| Rows.RowOf | common.py:189-191 | the dict of one tuple, its columns set in description order; RowOfKeys and RowOfLastWins state its keys and values |
| Rows.RowsOf | common.py:188-192 | one dict per tuple, in cursor order; RowsOfLength states it |
| Rows.RowDict | common.py:189-191 | the inner loop builds the row of the tuple, column by column |
| Rows.FetchRows | common.py:180-193 | the loops give one row per tuple, in cursor order, and no rows give [] |
| Rows.RowOfKeys | common.py:189-191 | a row's keys are exactly the described column names |
| Rows.RowOfLastWins | common.py:190-191 | a column holds the value of its last occurrence in the description |
| Rows.RowsOfLength | common.py:188-192 | there is one row per tuple, and row k is the dict of tuple k |
| Rows.Select | common.py:106 | storage's comprehension over the snapshot: KeyError when a row lacks a column of cond, else the matching rows; SelectSpec states it |
| Rows.SelectCol | common.py:112 | storage_col's comprehension: the col values of the matching rows, or KeyError; SelectColSpec states it |
| Rows.Project | common.py:112 | the projection has one value per row, the row's col value |
| Rows.FilterIsSubsequence | common.py:106 | the kept rows are a subsequence of the snapshot, in snapshot order |
| Rows.FilterMembers | common.py:106 | a row is kept iff it is in the snapshot and some column of cond holds one of that column's values |
| Rows.FilterCounts | common.py:106 | a matching row is kept as often as it occurs in the snapshot, and any other row not at all |
| Rows.FilterEmptyCond | common.py:106 | an empty cond keeps nothing |
| Rows.SelectSpec | common.py:103-106 | KeyError iff some snapshot row lacks a column of cond; otherwise the kept rows are an ordered subsequence of the snapshot holding every copy of each matching row and nothing else, and an empty cond gives [] |
| Rows.SelectColSpec | common.py:109-112 | storage_col succeeds iff storage does and every kept row has col, and it then gives their col values in the same order |
| Rows.LinkidMap | common.py:302 | `{x["linkid"]: True for x in ret}`, or KeyError when a row has no linkid; LinkidMapSpec states it |
| Rows.LinkidDictSpec | common.py:302 | the dict's keys are exactly the returned linkids, each mapped to True |
| Rows.LinkidMapSpec | common.py:302 | KeyError iff a returned row has no linkid; otherwise each returned linkid, and nothing else, maps to True |
| Store.ReadInto | common.py:125 | reading a file adds its sections to those already there |
| Store.ReadIntoSpec | common.py:125 | after the read an option is set iff it was set or the file sets it, with the file's value winning |
| Store.Context.constructor | common.py:65-72 | the snapshot starts with just the three pre-seeded tables, all empty; the cache starts empty; nothing has run |
| Store.Context.KeyCollision | common.py:307-313 | in a context whose order lists each set as list(set(...)) does, two statements share a cache key iff their table-name lists are equal and their checksums agree modulo 2^32 |
| Store.Context.FetchAll | common.py:180-193 | the rows are the shaped cursor of the statement, and the statement is logged |
| Store.Context.StoregeInit | common.py:98-101 | a table in the snapshot is left alone and nothing runs; otherwise only that entry is added, holding `SELECT * FROM table`'s rows |
| Store.Context.Storage | common.py:103-106 | the rows storage returns come from the snapshot after the load, always none for a pre-seeded table, otherwise the loaded rows the cond selects |
| Store.Context.StorageCol | common.py:109-112 | the same load, then storage_col of the snapshot rows, and always none for a pre-seeded table |
| Store.Context.ThroughCache | common.py:320-330 | a hit returns the stored rows, runs nothing and leaves the cache as it was; a miss runs the statement and stores its rows under the key iff they are non-empty; no entry is ever overwritten or removed |
| Store.Context.QuerySql | common.py:316-333 | getboolean's error is raised before anything runs. When caching is on and if_cache is set, the ThroughCache behaviour applies. Otherwise the statement runs and the cache is untouched. Every cache entry is the non-empty result of a statement with that key |
| Store.Context.ExistSql | common.py:281-299 | the statement get_exist_linkid runs for a page type, "" for none; ExistSqlCases states it case by case |
| Store.Context.ExistLinkid | common.py:281-303 | what get_exist_linkid returns; ExistLinkidSpec states it |
| Store.Context.ExistStatement | common.py:281-299 | the statement for the page type; the genre lookup runs first, for a genre only |
| Store.Context.GetExistLinkid | common.py:281-303 | the linkid map of the existence query, with exactly the genre lookup and the query logged as having run |
| Store.ExistSqlCases | common.py:285-299 | a `{type}_url=` test for director, studio, label and series; a LIKE on stars_url for star and on av_id for group; one clause per token for search; for a genre with no row and for any other type, no query and {} |
| Store.ExistLinkidSpec | common.py:300-303 | after a query the keys are exactly its returned linkids, each True; with no query the result is {} |
| Store.Context.ConfigInit | common.py:122-126 | the chosen file is read into CONFIG. Then base.country_name is set to the name of base.country, or the get error or KeyError is raised for a country missing or not in COUNTRY_MAP |

## Left out

- get_new_avmoo_site, init and open_browser_tab are not modelled. They do
  HTTP, XPath scraping, an sqlite connection, `build_sqlite_db` from another
  module, and a browser thread.
- Real SQL execution (execute, insert) is not modelled, nor is SQLite's
  meaning of a statement, LIKE matching included. The database is a fixed
  function from statement text to cursor contents. With no writes, the
  staleness of cached rows cannot be observed.
- File I/O is not modelled: `os.path.exists`, ConfigParser reading and
  writing, and `config.write`. Existence is a boolean and contents are maps.
- ConfigParser's option-name case folding, the DEFAULT section and value
  interpolation are not modelled.
- `binascii.crc32` (the CRC-32 of section 8 of RFC 1952) is a parameter.
  So are `urllib.parse.quote` (section 2.1 of RFC 3986) and the iteration
  order of a Python set. The model proves nothing about them, except the
  32-bit mask.
- `\d` in parse_url's pattern stands for ASCII digits only. Python also
  matches other Unicode decimal digits.
- Store.Context.QuerySql: the copy `[:]` on return is not modelled. Rows are
  values, so the aliasing between the returned list and the stored one is not
  visible.
- Store.Context.Storage and Store.Context.StorageCol: the source returns the
  snapshot's own dict objects (common.py:106, 112), so a caller that changes
  one changes the snapshot. Rows are values here, so that sharing is not
  visible.
- Base.Value has only TEXT, INTEGER and NULL. REAL and BLOB columns are not
  modelled, so Rows.ValueToText does not cover `'{}'.format` of a float or
  bytes genre name (common.py:290).
- The database is total: every statement text yields a cursor. In the source
  a statement SQLite rejects makes fetchall raise, for example a `'` in the
  unescaped keyword of common.py:286, 288, 292 or 294. The model has no such
  error.
- CacheKey.GetTableName takes the order of `list(set(...))` as a function of
  the set alone, so equal sets always list alike. In CPython the order also
  depends on how the set was built, so two statements with the same table
  names could list them differently and get different keys.
- Store.Context.ThroughCache: its recheck of `use_cache` after the statement
  runs always succeeds in the model, because the configuration cannot change
  in between.
- Rows.RowsOf: a tuple whose width differs from the description would give an
  empty row. A cursor never yields one (see `Base.Cursor`), so fetchall never
  sees one.
- Urls.LocalMatchesRemotePath excludes a search with an empty keyword.
  `Urls.LocalSearchWithoutKeyword` states that case separately. The lemma
  also assumes that quoting keeps an empty keyword empty and a non-empty one
  non-empty.
- SqlText.InsertSqlArity assumes that column names hold no comma, as the
  table's do.
- insert's `tuple(x.values())` is not modelled. Only the statement text of
  insert_sql_build is.
- QUEUE and all print logging are left out.
