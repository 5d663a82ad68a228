/** Cache keys of query_sql: get_table_name (307-308) and gen_cache_key
    (312-313).  re.findall("(av_[a-z]+)") is modelled as a left-to-right
    scan taking the longest match at the first position that has one and
    going on after it.  The order list(set(...)) gives and the CRC-32 of the
    statement's bytes are parameters. */
module CacheKey {
  import opened Text
  import opened SqlText

  predicate IsLower(c: char) { 'a' <= c <= 'z' }

  /** Length of the longest prefix of s of lower-case ASCII letters. */
  function LowerRun(s: string): (n: nat)
    ensures n <= |s|
    ensures forall i :: 0 <= i < n ==> IsLower(s[i])
    ensures n < |s| ==> !IsLower(s[n])
    decreases |s|
  {
    if |s| == 0 || !IsLower(s[0]) then 0 else 1 + LowerRun(s[1..])
  }

  /** What the pattern `av_[a-z]+` matches. */
  predicate IsTableName(name: string) {
    |name| >= 4 && name[..3] == "av_" && forall i :: 3 <= i < |name| ==> IsLower(name[i])
  }

  /** The length of the match at the start of s, 0 when there is none. */
  function MatchLength(s: string): (n: nat)
    ensures n == 0 || (4 <= n <= |s| && IsTableName(s[..n]))
    ensures 0 < n < |s| ==> !IsLower(s[n])
  {
    if StartsWith(s, "av_") && LowerRun(s[3..]) > 0 then 3 + LowerRun(s[3..]) else 0
  }

  /** re.findall("(av_[a-z]+)", s). */
  function FindTables(s: string): (names: seq<string>)
    ensures forall i :: 0 <= i < |names| ==> IsTableName(names[i])
    decreases |s|
  {
    if |s| == 0 then []
    else
      var n := MatchLength(s);
      if n > 0 then [s[..n]] + FindTables(s[n..]) else FindTables(s[1..])
  }

  function SetOf(names: seq<string>): set<string> {
    set i | 0 <= i < |names| :: names[i]
  }

  /** order stands for list(set(...)): the names found, each once, in an
      order the model does not fix. */
  function GetTableName(sql: string, order: set<string> -> seq<string>): seq<string> {
    order(SetOf(FindTables(sql)))
  }

  /** The part of the key that comes of the checksum: `& 0xffffffff`. */
  function Mask(crc: int): (m: nat)
    ensures m < 0x1_0000_0000
  {
    crc % 0x1_0000_0000
  }

  /** gen_cache_key: the table names joined by "|", a colon, and the
      unsigned CRC-32 of the statement in decimal. */
  function GenCacheKey(sql: string, order: set<string> -> seq<string>, crc32: string -> int): string {
    Join("|", GetTableName(sql, order)) + ":" + NatToString(Mask(crc32(sql)))
  }

  /** xs lists the elements of s, each once. */
  predicate Enumerates(xs: seq<string>, s: set<string>) {
    && (forall i :: 0 <= i < |xs| ==> xs[i] in s)
    && (forall x :: x in s ==> x in xs)
    && (forall i, j :: 0 <= i < j < |xs| ==> xs[i] != xs[j])
  }

  /** order behaves as list(set(...)) does: every set comes out listing
      its elements, each once. */
  ghost predicate ListsSets(order: set<string> -> seq<string>) {
    forall s :: Enumerates(order(s), s)
  }

  // ---------------------------------------------------------------------
  // Which names the scan finds

  lemma {:induction false} FindTablesSkip(a: string, b: string)
    requires 'a' !in a
    ensures FindTables(a + b) == FindTables(b)
    decreases |a|
  {
    if |a| > 0 {
      var s := a + b;
      assert s[0] == a[0];
      PrefixChar(s, "av_", 0);
      assert s[1..] == a[1..] + b;
      FindTablesSkip(a[1..], b);
    } else {
      assert a + b == b;
    }
  }

  lemma {:induction false} LowerRunOf(x: string, y: string)
    requires forall i :: 0 <= i < |x| ==> IsLower(x[i])
    requires y == "" || !IsLower(y[0])
    ensures LowerRun(x + y) == |x|
    decreases |x|
  {
    if |x| > 0 {
      assert (x + y)[1..] == x[1..] + y;
      LowerRunOf(x[1..], y);
    } else {
      assert x + y == y;
    }
  }

  /** A name the pattern matches, followed by a character that is not a
      lower-case letter, is found whole. */
  lemma FindTablesName(name: string, b: string)
    requires IsTableName(name)
    requires b == "" || !IsLower(b[0])
    ensures FindTables(name + b) == [name] + FindTables(b)
  {
    var s := name + b;
    assert s[..3] == name[..3];
    assert s[3..] == name[3..] + b;
    LowerRunOf(name[3..], b);
    assert MatchLength(s) == |name|;
    assert s[..|name|] == name;
    assert s[|name|..] == b;
  }

  /** Text without an 'a', then a name, then a character that is not a
      lower-case letter: the name is the first one found. */
  lemma FindTablesAfterSkip(skip: string, name: string, rest: string)
    requires 'a' !in skip && IsTableName(name)
    requires rest == "" || !IsLower(rest[0])
    ensures FindTables(skip + (name + rest)) == [name] + FindTables(rest)
  {
    FindTablesSkip(skip, name + rest);
    FindTablesName(name, rest);
  }

  lemma GroupQueryAfterList(tail: string)
    ensures FindTables(" WHERE " + ("av_id" + (" LIKE '" + tail))) == ["av_id"] + FindTables(tail)
  {
    assert "av_id"[..3] == "av_";
    FindTablesAfterSkip(" WHERE ", "av_id", " LIKE '" + tail);
    FindTablesSkip(" LIKE '", tail);
  }

  lemma GroupQueryList(x: string)
    ensures FindTables("SELECT linkid FROM " + ("av_list" + (" WHERE " + x))) == ["av_list"] + FindTables(" WHERE " + x)
  {
    assert "av_list"[..3] == "av_";
    assert (" WHERE " + x)[0] == ' ';
    FindTablesAfterSkip("SELECT linkid FROM ", "av_list", " WHERE " + x);
  }

  /** A column name such as av_id is found like a table name: the group
      query of get_exist_linkid yields av_list and av_id before whatever the
      keyword holds. */
  lemma GroupQueryTables(keyword: string)
    ensures FindTables(GroupQuery(keyword)) == ["av_list", "av_id"] + FindTables(keyword + "-%'")
  {
    var tail := keyword + "-%'";
    var x := "av_id" + (" LIKE '" + tail);
    GroupQuerySplit(keyword);
    GroupQueryList(x);
    GroupQueryAfterList(tail);
    var f := FindTables(tail);
    assert ["av_list"] + (["av_id"] + f) == ["av_list", "av_id"] + f;
  }

  lemma GroupQuerySplit(keyword: string)
    ensures GroupQuery(keyword)
         == "SELECT linkid FROM " + ("av_list" + (" WHERE " + ("av_id" + (" LIKE '" + (keyword + "-%'")))))
  {
    var tail := keyword + "-%'";
    assert LINKID_FROM_LIST == "SELECT linkid FROM " + ("av_list" + " WHERE ");
    assert "av_id LIKE '" == "av_id" + " LIKE '";
    calc {
      GroupQuery(keyword);
      LINKID_FROM_LIST + "av_id LIKE '" + keyword + "-%'";
      { AppendAssoc(LINKID_FROM_LIST + "av_id LIKE '", keyword, "-%'"); }
      LINKID_FROM_LIST + "av_id LIKE '" + tail;
      { AppendAssoc(LINKID_FROM_LIST, "av_id LIKE '", tail); }
      LINKID_FROM_LIST + ("av_id" + " LIKE '" + tail);
      { AppendAssoc("av_id", " LIKE '", tail); }
      LINKID_FROM_LIST + ("av_id" + (" LIKE '" + tail));
      { AppendAssoc("SELECT linkid FROM ", "av_list" + " WHERE ", "av_id" + (" LIKE '" + tail));
        AppendAssoc("av_list", " WHERE ", "av_id" + (" LIKE '" + tail)); }
      "SELECT linkid FROM " + ("av_list" + (" WHERE " + ("av_id" + (" LIKE '" + tail))));
    }
  }

  /** With an order that lists the found names each once, get_table_name
      gives every name the scan found, each once, and nothing else. */
  lemma TableNamesFound(sql: string, order: set<string> -> seq<string>)
    requires Enumerates(order(SetOf(FindTables(sql))), SetOf(FindTables(sql)))
    ensures SetOf(GetTableName(sql, order)) == SetOf(FindTables(sql))
    ensures forall i :: 0 <= i < |GetTableName(sql, order)| ==> IsTableName(GetTableName(sql, order)[i])
  {
    var found := FindTables(sql);
    var names := GetTableName(sql, order);
    forall i | 0 <= i < |names| ensures IsTableName(names[i]) {
      var j :| 0 <= j < |found| && found[j] == names[i];
    }
  }

  // ---------------------------------------------------------------------
  // Two statements share a key exactly when ...

  lemma CharsAround(a: string, c: char, x: string, k: nat)
    ensures k < |a| ==> (a + [c] + x)[k] == a[k]
    ensures (a + [c] + x)[|a|] == c
  {
  }

  /** A text without c followed by c is fixed by where c first occurs. */
  lemma CutAtFirst(a: string, x: string, b: string, y: string, c: char)
    requires c !in a && c !in b
    requires a + [c] + x == b + [c] + y
    ensures a == b && x == y
  {
    CharsAround(a, c, x, |b|);
    CharsAround(b, c, y, |a|);
    assert |a| == |b|;
    var s := a + [c] + x;
    assert s[..|a|] == a && (b + [c] + y)[..|b|] == b;
    assert s[|a| + 1..] == x && (b + [c] + y)[|b| + 1..] == y;
  }

  lemma {:induction false} JoinFree(sep: string, parts: seq<string>, c: char)
    requires c !in sep
    requires forall i :: 0 <= i < |parts| ==> c !in parts[i]
    ensures c !in Join(sep, parts)
    decreases |parts|
  {
    if |parts| > 1 {
      JoinFree(sep, parts[1..], c);
    }
  }

  lemma JoinNonEmpty(sep: string, parts: seq<string>)
    requires |parts| >= 1 && parts[0] != ""
    ensures Join(sep, parts) != ""
  {
  }

  /** Table-name lists are told apart by their joins. */
  lemma JoinNamesInjective(xs: seq<string>, ys: seq<string>)
    requires forall i :: 0 <= i < |xs| ==> IsTableName(xs[i])
    requires forall i :: 0 <= i < |ys| ==> IsTableName(ys[i])
    requires Join("|", xs) == Join("|", ys)
    ensures xs == ys
  {
    forall i | 0 <= i < |xs| ensures '|' !in xs[i] { NameFree(xs[i], '|'); }
    forall i | 0 <= i < |ys| ensures '|' !in ys[i] { NameFree(ys[i], '|'); }
    if |xs| == 0 && |ys| > 0 {
      JoinNonEmpty("|", ys);
    } else if |ys| == 0 && |xs| > 0 {
      JoinNonEmpty("|", xs);
    } else if |xs| > 0 {
      SplitJoin(xs, '|');
      SplitJoin(ys, '|');
    }
  }

  lemma NameFree(name: string, c: char)
    requires IsTableName(name)
    requires c == '|' || c == ':'
    ensures c !in name
  {
    forall i | 0 <= i < |name| ensures name[i] != c {
      if i < 3 {
        assert name[i] == name[..3][i];
      }
    }
  }

  /** Two statements share a cache key exactly when get_table_name lists
      the same names in the same order for both and their CRC-32 values
      agree modulo 2^32; so statements on the same tables whose checksums
      collide share cached rows. */
  lemma CacheKeyCollision(a: string, b: string, order: set<string> -> seq<string>, crc32: string -> int)
    requires forall i :: 0 <= i < |GetTableName(a, order)| ==> IsTableName(GetTableName(a, order)[i])
    requires forall i :: 0 <= i < |GetTableName(b, order)| ==> IsTableName(GetTableName(b, order)[i])
    ensures GenCacheKey(a, order, crc32) == GenCacheKey(b, order, crc32) <==>
      GetTableName(a, order) == GetTableName(b, order) && Mask(crc32(a)) == Mask(crc32(b))
  {
    var na, nb := GetTableName(a, order), GetTableName(b, order);
    var ja, jb := Join("|", na), Join("|", nb);
    var da, db := NatToString(Mask(crc32(a))), NatToString(Mask(crc32(b)));
    if GenCacheKey(a, order, crc32) == GenCacheKey(b, order, crc32) {
      forall i | 0 <= i < |na| ensures ':' !in na[i] { NameFree(na[i], ':'); }
      forall i | 0 <= i < |nb| ensures ':' !in nb[i] { NameFree(nb[i], ':'); }
      JoinFree("|", na, ':');
      JoinFree("|", nb, ':');
      CutAtFirst(ja, da, jb, db, ':');
      JoinNamesInjective(na, nb);
      NatToStringInjective(Mask(crc32(a)), Mask(crc32(b)));
    }
  }
}
