/** The module state of common.py and the operations that read and change
    it: CONFIG, the DATA_STORAGE snapshot (65-69, 98-112), the SQL_CACHE
    result cache (72, 312-333), fetchall (180-193), get_exist_linkid
    (281-303) and config_init (122-126).  The database is a fixed function
    from statement text to what the cursor yields; the statements run are
    recorded in a ghost log. */
module Store {
  import opened Base
  import opened Text
  import opened SqlText
  import opened Rows
  import opened CacheKey
  import opened Configuration

  /** The tables DATA_STORAGE holds from the start, each with no rows. */
  const PRESEEDED: set<string> := {"av_genre", "av_stars", "av_extend"}

  const INITIAL_STORAGE: map<string, seq<Row>> := map t | t in PRESEEDED :: []

  /** The page types whose existence query tests a `{type}_url` column. */
  const URL_TYPES: seq<string> := ["director", "studio", "label", "series"]

  /** ConfigParser.read of a file into c: each section of the file is added or
      extended, its options overriding those already set. */
  function ReadInto(c: Config, file: Config): (r: Config)
    ensures r.Keys == c.Keys + file.Keys
  {
    map s | s in c.Keys + file.Keys ::
      (if s in c then c[s] else map[]) + (if s in file then file[s] else map[])
  }

  /** After the read, an option has the file's value when the file sets it,
      and keeps its value otherwise. */
  lemma ReadIntoSpec(c: Config, file: Config, s: string, o: string)
    ensures Has(ReadInto(c, file), s, o) <==> Has(c, s, o) || Has(file, s, o)
    ensures Has(file, s, o) ==> ReadInto(c, file)[s][o] == file[s][o]
    ensures Has(c, s, o) && !Has(file, s, o) ==> ReadInto(c, file)[s][o] == c[s][o]
  {
  }

  /** fetchall for each statement of db. */
  function RowsFn(db: string -> Cursor): (f: string -> seq<Row>)
    ensures forall sql :: f(sql) == CursorRows(db(sql))
  {
    (sql: string) => CursorRows(db(sql))
  }

  /** gen_cache_key for this order and crc32. */
  function KeyFn(order: set<string> -> seq<string>, crc32: string -> int): (f: string -> string)
    ensures forall sql :: f(sql) == GenCacheKey(sql, order, crc32)
  {
    (sql: string) => GenCacheKey(sql, order, crc32)
  }

  class Context {
    /** The database: what the cursor holds after each statement. */
    const db: string -> Cursor
    /** The order list(set(...)) puts a set of table names in. */
    const order: set<string> -> seq<string>
    /** binascii.crc32 of the statement's bytes. */
    const crc32: string -> int

    var config: Config
    var snapshot: map<string, seq<Row>>
    var cache: map<string, seq<Row>>
    /** Every statement run, in order. */
    ghost var executed: seq<string>
    /** For each cache key, the statement whose rows are stored under it. */
    ghost var cachedFrom: map<string, string>

    /** What fetchall returns for each statement, and gen_cache_key; both
        are fixed at construction from db, order and crc32 (see Linked). */
    const rowsOf: string -> seq<Row>
    const keyOf: string -> string

    /** What fetchall returns for a statement. */
    function Fetched(sql: string): seq<Row> {
      rowsOf(sql)
    }

    function Key(sql: string): string {
      keyOf(sql)
    }

    /** rowsOf shapes the cursor db gives, and keyOf is gen_cache_key with
        this order and crc32. */
    ghost predicate Linked() {
      && (forall sql {:trigger CursorRows(db(sql))} :: rowsOf(sql) == CursorRows(db(sql)))
      && (forall sql {:trigger GenCacheKey(sql, order, crc32)} :: keyOf(sql) == GenCacheKey(sql, order, crc32))
    }

    /** The snapshot holds the pre-seeded tables with no rows and every other
        table as the database gives it. */
    ghost predicate SnapshotValid()
      reads this`snapshot
    {
      && (forall t :: t in PRESEEDED ==> t in snapshot && snapshot[t] == [])
      && (forall t :: t in snapshot && t !in PRESEEDED ==> snapshot[t] == Fetched(TableQuery(t)))
    }

    /** Every cache entry is the non-empty result of a statement that ran
        and has that key. */
    ghost predicate CacheValid()
      reads this`cache, this`cachedFrom, this`executed
    {
      && cache.Keys == cachedFrom.Keys
      && (forall k :: k in cache ==>
            && cache[k] != []
            && Key(cachedFrom[k]) == k
            && cache[k] == Fetched(cachedFrom[k])
            && cachedFrom[k] in executed)
    }

    ghost predicate Valid()
      reads this
    {
      Linked() && SnapshotValid() && CacheValid()
    }

    constructor (db: string -> Cursor, order: set<string> -> seq<string>, crc32: string -> int, config: Config)
      requires ListsSets(order)
      ensures Valid() && ListsSets(this.order)
      ensures this.db == db && this.order == order && this.crc32 == crc32 && this.config == config
      ensures snapshot == INITIAL_STORAGE && cache == map[] && executed == []
    {
      this.db := db;
      this.order := order;
      this.crc32 := crc32;
      this.config := config;
      rowsOf := RowsFn(db);
      keyOf := KeyFn(order, crc32);
      snapshot := INITIAL_STORAGE;
      cache := map[];
      executed := [];
      cachedFrom := map[];
      new;
      assert SnapshotValid();
      assert CacheValid();
    }

    /** In a context built with an order that lists each set as
        list(set(...)) does, two statements share a cache key exactly when
        get_table_name lists the same names in the same order for both and
        their CRC-32 values agree modulo 2^32. */
    lemma KeyCollision(a: string, b: string)
      requires Valid() && ListsSets(order)
      ensures Key(a) == Key(b) <==>
        GetTableName(a, order) == GetTableName(b, order) && Mask(crc32(a)) == Mask(crc32(b))
    {
      TableNamesFound(a, order);
      TableNamesFound(b, order);
      CacheKeyCollision(a, b, order, crc32);
    }

    /** fetchall: runs the statement and shapes its rows. */
    method FetchAll(sql: string) returns (rows: seq<Row>)
      requires Valid()
      modifies this`executed
      ensures Valid()
      ensures rows == Fetched(sql)
      ensures executed == old(executed) + [sql]
    {
      executed := executed + [sql];
      rows := FetchRows(db(sql));
    }

    /** storege_init: loads a table the snapshot does not hold yet. */
    method StoregeInit(table: string)
      requires Valid()
      modifies this`snapshot, this`executed
      ensures Valid()
      ensures table in old(snapshot) ==> snapshot == old(snapshot) && executed == old(executed)
      ensures table !in old(snapshot) ==>
        snapshot == old(snapshot)[table := Fetched(TableQuery(table))]
        && executed == old(executed) + [TableQuery(table)]
    {
      if table !in snapshot {
        var rows := FetchAll(TableQuery(table));
        snapshot := snapshot[table := rows];
      }
    }

    /** storage: the snapshot rows of the table matching any entry of cond;
        always no rows for a pre-seeded table. */
    method Storage(table: string, cond: Cond) returns (r: Result<seq<Row>>)
      requires Valid()
      modifies this`snapshot, this`executed
      ensures Valid()
      ensures table in snapshot && r == Select(snapshot[table], cond)
      ensures table in old(snapshot) ==> snapshot == old(snapshot) && executed == old(executed)
      ensures table !in old(snapshot) ==>
        snapshot == old(snapshot)[table := Fetched(TableQuery(table))]
        && executed == old(executed) + [TableQuery(table)]
      ensures table in PRESEEDED ==> r == Ok([])
      ensures table !in PRESEEDED ==> r == Select(Fetched(TableQuery(table)), cond)
    {
      StoregeInit(table);
      r := Select(snapshot[table], cond);
    }

    /** storage_col: the col values of the rows storage keeps. */
    method StorageCol(table: string, cond: Cond, col: string) returns (r: Result<seq<Value>>)
      requires Valid()
      modifies this`snapshot, this`executed
      ensures Valid()
      ensures table in snapshot && r == SelectCol(snapshot[table], cond, col)
      ensures table in old(snapshot) ==> snapshot == old(snapshot) && executed == old(executed)
      ensures table !in old(snapshot) ==>
        snapshot == old(snapshot)[table := Fetched(TableQuery(table))]
        && executed == old(executed) + [TableQuery(table)]
      ensures table in PRESEEDED ==> r == Ok([])
    {
      StoregeInit(table);
      r := SelectCol(snapshot[table], cond, col);
    }

    /** The cached branch of query_sql, taken when website.use_cache is on
        and if_cache is set: a hit returns the stored rows and runs nothing;
        a miss runs the statement and stores a non-empty result under its
        key. */
    method ThroughCache(sql: string) returns (ret: seq<Row>)
      requires Valid()
      requires GetBoolean(config, "website", "use_cache") == Ok(true)
      modifies this`cache, this`cachedFrom, this`executed
      ensures Valid()
      ensures forall k :: k in old(cache) ==> k in cache && cache[k] == old(cache)[k]
      ensures if Key(sql) in old(cache) then
          ret == old(cache)[Key(sql)] && ret == Fetched(old(cachedFrom)[Key(sql)])
          && cache == old(cache) && executed == old(executed)
        else
          ret == Fetched(sql) && executed == old(executed) + [sql]
          && cache == (if Fetched(sql) != [] then old(cache)[Key(sql) := Fetched(sql)] else old(cache))
    {
      var cacheKey := Key(sql);
      if cacheKey in cache {
        return cache[cacheKey];
      }
      ret := FetchAll(sql);
      if GetBoolean(config, "website", "use_cache") == Ok(true) && ret != [] {
        cache := cache[cacheKey := ret];
        cachedFrom := cachedFrom[cacheKey := sql];
      }
    }

    /** query_sql: with website.use_cache on and if_cache set, the rows come
        through the cache; otherwise the statement runs and the cache is not
        touched.  A use_cache value that is not a boolean raises before
        anything runs, whatever if_cache is. */
    method QuerySql(sql: string, ifCache: bool) returns (r: Result<seq<Row>>)
      requires Valid()
      modifies this`cache, this`cachedFrom, this`executed
      ensures Valid()
      ensures forall k :: k in old(cache) ==> k in cache && cache[k] == old(cache)[k]
      ensures var useCache := GetBoolean(config, "website", "use_cache");
        if useCache.Err? then
          r == Err(useCache.error) && cache == old(cache) && executed == old(executed)
        else if useCache.value && ifCache && Key(sql) in old(cache) then
          r == Ok(old(cache)[Key(sql)]) && r.value == Fetched(old(cachedFrom)[Key(sql)])
          && cache == old(cache) && executed == old(executed)
        else if useCache.value && ifCache then
          r == Ok(Fetched(sql)) && executed == old(executed) + [sql]
          && cache == (if Fetched(sql) != [] then old(cache)[Key(sql) := Fetched(sql)] else old(cache))
        else
          r == Ok(Fetched(sql)) && executed == old(executed) + [sql] && cache == old(cache)
    {
      var useCache := GetBoolean(config, "website", "use_cache");
      if useCache.Err? {
        return Err(useCache.error);
      }
      var ret;
      if useCache.value && ifCache {
        ret := ThroughCache(sql);
      } else {
        ret := FetchAll(sql);
      }
      return Ok(ret);
    }

    /** The statement get_exist_linkid runs for a page type: "" when there
        is none to run; for a genre, the one the genre row's name gives, if
        the linkid has a row. */
    function ExistSql(pageType: string, keyword: string): Result<string> {
      if pageType in URL_TYPES then Ok(UrlQuery(pageType, keyword))
      else if pageType == "genre" then
        var genre := Fetched(GenreLookupQuery(keyword));
        if genre == [] then Ok("")
        else if "name" in genre[0] then Ok(GenreQuery(ValueToText(genre[0]["name"])))
        else Err(MissingKey)
      else if pageType == "star" then Ok(StarQuery(keyword))
      else if pageType == "group" then Ok(GroupQuery(keyword))
      else if pageType == "search" then Ok(SearchQuery(keyword))
      else Ok("")
    }

    /** The statements get_exist_linkid runs, in order. */
    function ExistRuns(pageType: string, keyword: string): seq<string> {
      (if pageType == "genre" then [GenreLookupQuery(keyword)] else [])
      + (if ExistSql(pageType, keyword).Ok? && ExistSql(pageType, keyword).value != "" then [ExistSql(pageType, keyword).value] else [])
    }

    /** What get_exist_linkid returns. */
    function ExistLinkid(pageType: string, keyword: string): Result<map<Value, bool>> {
      match ExistSql(pageType, keyword)
      case Err(e) => Err(e)
      case Ok(sql) => if sql == "" then Ok(map[]) else LinkidMap(Fetched(sql))
    }

    /** The first half of get_exist_linkid: the statement for the page type,
        reading the genre row first for a genre.  The page types are
        distinct, so at most one of the source's tests applies. */
    method ExistStatement(pageType: string, keyword: string) returns (r: Result<string>)
      requires Valid()
      modifies this`executed
      ensures Valid()
      ensures r == ExistSql(pageType, keyword)
      ensures executed == old(executed) + (if pageType == "genre" then [GenreLookupQuery(keyword)] else [])
    {
      if pageType in URL_TYPES {
        r := Ok(UrlQuery(pageType, keyword));
      } else if pageType == "genre" {
        var genre := FetchAll(GenreLookupQuery(keyword));
        if genre == [] {
          r := Ok("");
        } else if "name" !in genre[0] {
          r := Err(MissingKey);
        } else {
          r := Ok(GenreQuery(ValueToText(genre[0]["name"])));
        }
      } else if pageType == "star" {
        r := Ok(StarQuery(keyword));
      } else if pageType == "group" {
        r := Ok(GroupQuery(keyword));
      } else if pageType == "search" {
        var sql := SearchSql(keyword);
        r := Ok(sql);
      } else {
        r := Ok("");
      }
    }

    /** get_exist_linkid: the linkids the existence query returns, each mapped
        to True. */
    method GetExistLinkid(pageType: string, keyword: string) returns (r: Result<map<Value, bool>>)
      requires Valid()
      modifies this`executed
      ensures Valid()
      ensures r == ExistLinkid(pageType, keyword)
      ensures executed == old(executed) + ExistRuns(pageType, keyword)
    {
      var sql := ExistStatement(pageType, keyword);
      ghost var lookups := if pageType == "genre" then [GenreLookupQuery(keyword)] else [];
      assert executed == old(executed) + lookups;
      if sql.Err? {
        assert ExistRuns(pageType, keyword) == lookups + [];
        return Err(sql.error);
      }
      if sql.value != "" {
        var ret := FetchAll(sql.value);
        assert ExistRuns(pageType, keyword) == lookups + [sql.value];
        AppendAssoc(old(executed), lookups, [sql.value]);
        return LinkidMap(ret);
      }
      assert ExistRuns(pageType, keyword) == lookups + [];
      return Ok(map[]);
    }

    /** config_init: reads the file config_path picks into CONFIG, then sets
        base.country_name to the name COUNTRY_MAP gives base.country; an
        unknown country raises KeyError after the read. */
    method ConfigInit(userExists: bool, userFile: Config, defaultFile: Config) returns (r: Result<()>)
      modifies this`config
      ensures var read := ReadInto(old(config), if ConfigPath(userExists) == CONFIG_FILE then userFile else defaultFile);
        && (Get(read, "base", "country").Err? ==> r == Err(Get(read, "base", "country").error) && config == read)
        && (Get(read, "base", "country").Ok? && Get(read, "base", "country").value !in COUNTRY_MAP ==>
              r == Err(MissingKey) && config == read)
        && (Get(read, "base", "country").Ok? && Get(read, "base", "country").value in COUNTRY_MAP ==>
              r == Ok(()) && config == Set(read, "base", "country_name", COUNTRY_MAP[Get(read, "base", "country").value]))
    {
      var path := ConfigPath(userExists);
      config := ReadInto(config, if path == CONFIG_FILE then userFile else defaultFile);
      var country := Get(config, "base", "country");
      if country.Err? {
        return Err(country.error);
      }
      if country.value !in COUNTRY_MAP {
        return Err(MissingKey);
      }
      config := Set(config, "base", "country_name", COUNTRY_MAP[country.value]);
      return Ok(());
    }
  }

  // ---------------------------------------------------------------------
  // What get_exist_linkid runs

  /** The existence query of each page type: the `{type}_url` test for
      director, studio, label and series; a LIKE on stars_url for star and
      on av_id for group; one escaped clause per token for search; the
      genre's name once the linkid has a genre row; and none for any other
      type or an unknown genre. */
  lemma ExistSqlCases(ctx: Context, pageType: string, keyword: string)
    ensures pageType in URL_TYPES ==> ctx.ExistSql(pageType, keyword) == Ok(LINKID_FROM_LIST + pageType + "_url='" + keyword + "'")
    ensures pageType == "star" ==> ctx.ExistSql(pageType, keyword) == Ok(LINKID_FROM_LIST + "stars_url LIKE '%" + keyword + "%'")
    ensures pageType == "group" ==> ctx.ExistSql(pageType, keyword) == Ok(LINKID_FROM_LIST + "av_id LIKE '" + keyword + "-%'")
    ensures pageType == "search" ==>
      ctx.ExistSql(pageType, keyword) == Ok(LINKID_FROM_LIST + Join(" AND ", SearchClauses(Split(keyword, ' '))))
      && |SearchClauses(Split(keyword, ' '))| == Count(keyword, ' ') + 1
    ensures pageType == "genre" && ctx.Fetched(GenreLookupQuery(keyword)) == [] ==>
      ctx.ExistSql(pageType, keyword) == Ok("") && ctx.ExistLinkid(pageType, keyword) == Ok(map[])
    ensures pageType !in URL_TYPES + ["genre", "star", "group", "search"] ==>
      ctx.ExistRuns(pageType, keyword) == [] && ctx.ExistLinkid(pageType, keyword) == Ok(map[])
  {
    if pageType == "search" {
      SearchQueryTokens(keyword);
    }
  }

  /** Whenever get_exist_linkid returns a dict, its keys are the linkids of
      the rows the existence query returned, each mapped to True; no linkid
      is returned when no query runs. */
  lemma ExistLinkidSpec(ctx: Context, pageType: string, keyword: string)
    ensures ctx.ExistLinkid(pageType, keyword).Ok? && ctx.ExistSql(pageType, keyword).value != "" ==>
      var rows := ctx.Fetched(ctx.ExistSql(pageType, keyword).value);
      && AllHaveColumn(rows, "linkid")
      && ctx.ExistLinkid(pageType, keyword).value.Keys == (set k | 0 <= k < |rows| :: rows[k]["linkid"])
      && forall v :: v in ctx.ExistLinkid(pageType, keyword).value ==> ctx.ExistLinkid(pageType, keyword).value[v]
    ensures ctx.ExistSql(pageType, keyword) == Ok("") ==> ctx.ExistLinkid(pageType, keyword) == Ok(map[])
  {
    if ctx.ExistSql(pageType, keyword).Ok? && ctx.ExistSql(pageType, keyword).value != "" {
      LinkidMapSpec(ctx.Fetched(ctx.ExistSql(pageType, keyword).value));
    }
  }
}
