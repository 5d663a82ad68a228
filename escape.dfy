/** sql_escape (common.py:261-264) over the replacement table ESCAPT_LIST
    (common.py:50-60): the loop applies each (pattern, replacement) pair to
    the whole keyword in table order.  The lemmas show that, because `/` is
    handled first and no later pattern occurs in an earlier replacement, the
    loop is the same as escaping every character on its own, and that this
    per-character escape has an inverse. */
module Escape {
  import opened Base

  /** ESCAPT_LIST: every pattern is a single character. */
  const ESCAPE_LIST: seq<(char, string)> := [
    ('/', "//"), ('\'', "''"), ('[', "/["), (']', "/]"), ('%', "/%"),
    ('&', "/&"), ('_', "/_"), ('(', "/("), (')', "/)")
  ]

  /** The characters that gain a `/` prefix: those of "[]%&_()". */
  predicate Prefixed(c: char) {
    c == '[' || c == ']' || c == '%' || c == '&' || c == '_' || c == '(' || c == ')'
  }

  /** s.replace(x, y) for a one-character pattern x. */
  function Replace(s: string, x: char, y: string): string
    decreases |s|
  {
    if |s| == 0 then "" else (if s[0] == x then y else [s[0]]) + Replace(s[1..], x, y)
  }

  /** The replacements of rules applied to the whole of s, one after the other. */
  function ApplyRules(rules: seq<(char, string)>, s: string): string
    decreases |rules|
  {
    if |rules| == 0 then s else ApplyRules(rules[1..], Replace(s, rules[0].0, rules[0].1))
  }

  /** The escape of one character: `/` and `'` are doubled, the characters of
      Prefixed gain a `/` in front, every other character is kept. */
  function EscapeChar(c: char): string {
    if c == '/' then "//"
    else if c == '\'' then "''"
    else if Prefixed(c) then ['/', c]
    else [c]
  }

  /** Every character of s escaped on its own. */
  function EscapeChars(s: string): string
    decreases |s|
  {
    if |s| == 0 then "" else EscapeChar(s[0]) + EscapeChars(s[1..])
  }

  /** sql_escape: the loop over ESCAPT_LIST, proved equal to the
      per-character escape. */
  method SqlEscape(keyword: string) returns (escaped: string)
    ensures escaped == EscapeChars(keyword)
  {
    escaped := keyword;
    assert ESCAPE_LIST[0..] == ESCAPE_LIST;
    for i := 0 to |ESCAPE_LIST|
      invariant ApplyRules(ESCAPE_LIST[i..], escaped) == ApplyRules(ESCAPE_LIST, keyword)
    {
      assert ESCAPE_LIST[i..][1..] == ESCAPE_LIST[i + 1..];
      escaped := Replace(escaped, ESCAPE_LIST[i].0, ESCAPE_LIST[i].1);
    }
    EscapeListIsPerChar(keyword);
  }

  // ---------------------------------------------------------------------
  // Why the ordered replacements act character by character

  /** No pattern repeats, and no pattern occurs in the replacement of an
      earlier rule, so a later rule never rewrites what an earlier one
      inserted. */
  ghost predicate NoReescape(rules: seq<(char, string)>) {
    forall i, j :: 0 <= i < j < |rules| ==> rules[j].0 != rules[i].0 && rules[j].0 !in rules[i].1
  }

  /** The replacement of the first rule whose pattern is c, or c itself. */
  function RuleFor(rules: seq<(char, string)>, c: char): string
    decreases |rules|
  {
    if |rules| == 0 then [c] else if rules[0].0 == c then rules[0].1 else RuleFor(rules[1..], c)
  }

  function PerChar(rules: seq<(char, string)>, s: string): string
    decreases |s|
  {
    if |s| == 0 then "" else RuleFor(rules, s[0]) + PerChar(rules, s[1..])
  }

  lemma {:induction false} ReplaceConcat(a: string, b: string, x: char, y: string)
    ensures Replace(a + b, x, y) == Replace(a, x, y) + Replace(b, x, y)
    decreases |a|
  {
    if |a| > 0 {
      assert (a + b)[1..] == a[1..] + b;
      ReplaceConcat(a[1..], b, x, y);
    } else {
      assert a + b == b;
    }
  }

  lemma {:induction false} ReplaceAbsent(s: string, x: char, y: string)
    requires x !in s
    ensures Replace(s, x, y) == s
    decreases |s|
  {
    if |s| > 0 {
      assert x !in s[1..] by {
        forall k | 0 <= k < |s[1..]| ensures s[1..][k] != x { assert s[1..][k] == s[k + 1]; }
      }
      ReplaceAbsent(s[1..], x, y);
      assert [s[0]] + s[1..] == s;
    }
  }

  lemma {:induction false} ApplyRulesConcat(rules: seq<(char, string)>, a: string, b: string)
    ensures ApplyRules(rules, a + b) == ApplyRules(rules, a) + ApplyRules(rules, b)
    decreases |rules|
  {
    if |rules| > 0 {
      ReplaceConcat(a, b, rules[0].0, rules[0].1);
      ApplyRulesConcat(rules[1..], Replace(a, rules[0].0, rules[0].1), Replace(b, rules[0].0, rules[0].1));
    }
  }

  lemma {:induction false} ApplyRulesAbsent(rules: seq<(char, string)>, s: string)
    requires forall i :: 0 <= i < |rules| ==> rules[i].0 !in s
    ensures ApplyRules(rules, s) == s
    decreases |rules|
  {
    if |rules| > 0 {
      ReplaceAbsent(s, rules[0].0, rules[0].1);
      assert forall i :: 0 <= i < |rules[1..]| ==> rules[1..][i].0 == rules[i + 1].0;
      ApplyRulesAbsent(rules[1..], s);
    }
  }

  lemma {:induction false} ApplyRulesChar(rules: seq<(char, string)>, c: char)
    requires NoReescape(rules)
    ensures ApplyRules(rules, [c]) == RuleFor(rules, c)
    decreases |rules|
  {
    if |rules| > 0 {
      var rest := rules[1..];
      assert forall i :: 0 <= i < |rest| ==> rest[i] == rules[i + 1];
      assert Replace([c], rules[0].0, rules[0].1) == (if c == rules[0].0 then rules[0].1 else [c]) by {
        assert [c][1..] == [];
      }
      if c == rules[0].0 {
        forall i | 0 <= i < |rest| ensures rest[i].0 !in rules[0].1 {
          assert rest[i] == rules[i + 1];
        }
        ApplyRulesAbsent(rest, rules[0].1);
      } else {
        assert NoReescape(rest) by {
          forall i, j | 0 <= i < j < |rest|
            ensures rest[j].0 != rest[i].0 && rest[j].0 !in rest[i].1
          {
            assert rest[i] == rules[i + 1] && rest[j] == rules[j + 1];
          }
        }
        ApplyRulesChar(rest, c);
      }
    }
  }

  lemma {:induction false} ApplyRulesPerChar(rules: seq<(char, string)>, s: string)
    requires NoReescape(rules)
    ensures ApplyRules(rules, s) == PerChar(rules, s)
    decreases |s|
  {
    if |s| > 0 {
      assert s == [s[0]] + s[1..];
      ApplyRulesConcat(rules, [s[0]], s[1..]);
      ApplyRulesChar(rules, s[0]);
      ApplyRulesPerChar(rules, s[1..]);
    } else {
      ApplyRulesAbsent(rules, s);
    }
  }

  lemma EscapeListNoReescape()
    ensures NoReescape(ESCAPE_LIST)
  {
    forall i, j | 0 <= i < j < |ESCAPE_LIST|
      ensures ESCAPE_LIST[j].0 != ESCAPE_LIST[i].0 && ESCAPE_LIST[j].0 !in ESCAPE_LIST[i].1
    {
      var e := ESCAPE_LIST[i].1;
      assert e == [ESCAPE_LIST[i].0, ESCAPE_LIST[i].0] || e == ['/', ESCAPE_LIST[i].0];
    }
  }

  lemma RuleForStep(rules: seq<(char, string)>, k: nat, c: char)
    requires k < |rules|
    ensures RuleFor(rules[k..], c) == if rules[k].0 == c then rules[k].1 else RuleFor(rules[k + 1..], c)
  {
    assert rules[k..][1..] == rules[k + 1..];
  }

  lemma RuleForEscapeList(c: char)
    ensures RuleFor(ESCAPE_LIST, c) == EscapeChar(c)
  {
    var l := ESCAPE_LIST;
    assert l[0..] == l;
    RuleForStep(l, 0, c);
    RuleForStep(l, 1, c);
    RuleForStep(l, 2, c);
    RuleForStep(l, 3, c);
    RuleForStep(l, 4, c);
    RuleForStep(l, 5, c);
    RuleForStep(l, 6, c);
    RuleForStep(l, 7, c);
    RuleForStep(l, 8, c);
    assert l[9..] == [];
  }

  /** The ordered replacements of sql_escape equal the per-character escape. */
  lemma {:induction false} EscapeListIsPerChar(s: string)
    ensures ApplyRules(ESCAPE_LIST, s) == EscapeChars(s)
    decreases |s|
  {
    EscapeListNoReescape();
    ApplyRulesPerChar(ESCAPE_LIST, s);
    PerCharIsEscapeChars(s);
  }

  lemma {:induction false} PerCharIsEscapeChars(s: string)
    ensures PerChar(ESCAPE_LIST, s) == EscapeChars(s)
    decreases |s|
  {
    if |s| > 0 {
      RuleForEscapeList(s[0]);
      PerCharIsEscapeChars(s[1..]);
    }
  }

  lemma {:induction false} EscapeCharsAppend(a: string, b: string)
    ensures EscapeChars(a + b) == EscapeChars(a) + EscapeChars(b)
    decreases |a|
  {
    if |a| > 0 {
      assert (a + b)[1..] == a[1..] + b;
      EscapeCharsAppend(a[1..], b);
    } else {
      assert a + b == b;
    }
  }

  lemma EscapeSlashExample()
    ensures EscapeChars("a/b") == "a//b"
  {
    assert "a/b"[1..] == "/b" && "/b"[1..] == "b";
  }

  lemma EscapeQuotePercentExample()
    ensures EscapeChars("'c%d") == "''c/%d"
  {
    assert "%d"[1..] == "d";
    assert EscapeChars("%d") == "/%d";
    assert "c%d"[1..] == "%d";
    assert EscapeChars("c%d") == "c/%d";
    assert "'c%d"[1..] == "c%d";
  }

  /** A slash is doubled, a quote doubled, a percent sign prefixed, other
      characters kept. */
  lemma EscapeExample()
    ensures EscapeChars("a/b'c%d") == "a//b''c/%d"
  {
    assert "a/b'c%d" == "a/b" + "'c%d";
    EscapeCharsAppend("a/b", "'c%d");
    EscapeSlashExample();
    EscapeQuotePercentExample();
    assert "a//b" + "''c/%d" == "a//b''c/%d";
  }

  /** Order matters: with `/` handled last, the slash inserted before `[`
      would itself be doubled. */
  lemma SlashLastWouldReescape()
    ensures ApplyRules(ESCAPE_LIST[1..] + ESCAPE_LIST[..1], "[") == "//["
    ensures EscapeChars("[") == "/["
  {
    var mid := ESCAPE_LIST[3..];
    assert ESCAPE_LIST[1..] + ESCAPE_LIST[..1] == [ESCAPE_LIST[1], ESCAPE_LIST[2]] + mid + [ESCAPE_LIST[0]];
    ApplyRulesAppend([ESCAPE_LIST[1], ESCAPE_LIST[2]], mid + [ESCAPE_LIST[0]], "[");
    ApplyRulesAppend(mid, [ESCAPE_LIST[0]], "/[");
    assert Replace("[", '\'', "''") == "[";
    assert Replace("[", '[', "/[") == "/[";
    var q, b, sl := ESCAPE_LIST[1], ESCAPE_LIST[2], ESCAPE_LIST[0];
    assert [q, b][1..] == [b] && [b][1..] == [] && [sl][1..] == [];
    assert ApplyRules([q, b], "[") == ApplyRules([b], "[") == "/[";
    ApplyRulesAbsent(mid, "/[");
    assert Replace("/[", '/', "//") == "//[";
    assert ApplyRules([sl], "/[") == "//[";
    calc {
      ApplyRules(ESCAPE_LIST[1..] + ESCAPE_LIST[..1], "[");
      { assert ESCAPE_LIST[1..] + ESCAPE_LIST[..1] == [q, b] + (mid + [sl]); }
      ApplyRules(mid + [sl], ApplyRules([q, b], "["));
      ApplyRules([sl], ApplyRules(mid, "/["));
    }
  }

  lemma {:induction false} ApplyRulesAppend(first: seq<(char, string)>, second: seq<(char, string)>, s: string)
    ensures ApplyRules(first + second, s) == ApplyRules(second, ApplyRules(first, s))
    decreases |first|
  {
    if |first| > 0 {
      assert (first + second)[1..] == first[1..] + second;
      ApplyRulesAppend(first[1..], second, Replace(s, first[0].0, first[0].1));
    } else {
      assert first + second == second;
    }
  }

  // ---------------------------------------------------------------------
  // The inverse of the escape

  /** Reads an escaped text back: `//`, `''` and `/c` for a Prefixed c
      stand for one character; a lone `/`, a lone `'` or a bare Prefixed
      character cannot come out of the escape. */
  function Unescape(t: string): Option<string>
    decreases |t|
  {
    if |t| == 0 then Some("")
    else if |t| >= 2 && ((t[0] == '/' && (t[1] == '/' || Prefixed(t[1]))) || (t[0] == '\'' && t[1] == '\'')) then
      match Unescape(t[2..])
      case Some(r) => Some([t[1]] + r)
      case None => None
    else if t[0] == '/' || t[0] == '\'' || Prefixed(t[0]) then None
    else
      match Unescape(t[1..])
      case Some(r) => Some([t[0]] + r)
      case None => None
  }

  lemma {:induction false} UnescapeEscape(s: string)
    ensures Unescape(EscapeChars(s)) == Some(s)
    decreases |s|
  {
    if |s| > 0 {
      var e := EscapeChar(s[0]);
      var t := EscapeChars(s);
      assert t == e + EscapeChars(s[1..]);
      UnescapeEscape(s[1..]);
      if |e| == 2 {
        assert t[2..] == EscapeChars(s[1..]);
      } else {
        assert t[1..] == EscapeChars(s[1..]);
      }
      assert [s[0]] + s[1..] == s;
    }
  }

  lemma {:induction false} EscapeUnescape(t: string, s: string)
    requires Unescape(t) == Some(s)
    ensures EscapeChars(s) == t
    decreases |t|
  {
    if |t| > 0 {
      if |t| >= 2 && ((t[0] == '/' && (t[1] == '/' || Prefixed(t[1]))) || (t[0] == '\'' && t[1] == '\'')) {
        var r := Unescape(t[2..]).value;
        EscapeUnescape(t[2..], r);
        assert s == [t[1]] + r && s[1..] == r;
        assert EscapeChar(t[1]) == t[..2];
        assert t == t[..2] + t[2..];
      } else {
        var r := Unescape(t[1..]).value;
        EscapeUnescape(t[1..], r);
        assert s == [t[0]] + r && s[1..] == r;
        assert t == [t[0]] + t[1..];
      }
    }
  }

  /** Unescape is exactly the inverse of the escape, in both directions;
      so two different keywords never escape to the same text. */
  lemma EscapeInverse(s: string, t: string)
    ensures Unescape(t) == Some(s) <==> EscapeChars(s) == t
  {
    if Unescape(t) == Some(s) { EscapeUnescape(t, s); }
    if EscapeChars(s) == t { UnescapeEscape(s); }
  }

  // ---------------------------------------------------------------------
  // Quotes come in pairs

  /** Every single quote of t is immediately followed by a second one that
      it pairs with. */
  predicate QuotesPaired(t: string)
    decreases |t|
  {
    if |t| == 0 then true
    else if t[0] == '\'' then |t| >= 2 && t[1] == '\'' && QuotesPaired(t[2..])
    else QuotesPaired(t[1..])
  }

  lemma {:induction false} QuotesPairedConcat(a: string, b: string)
    requires QuotesPaired(a) && QuotesPaired(b)
    ensures QuotesPaired(a + b)
    decreases |a|
  {
    if |a| > 0 {
      if a[0] == '\'' {
        assert (a + b)[2..] == a[2..] + b;
        QuotesPairedConcat(a[2..], b);
      } else {
        assert (a + b)[1..] == a[1..] + b;
        QuotesPairedConcat(a[1..], b);
      }
    } else {
      assert a + b == b;
    }
  }

  /** An escaped keyword holds no lone quote, so between the quotes of an SQL
      literal it cannot end the literal early. */
  lemma {:induction false} EscapedQuotesPaired(s: string)
    ensures QuotesPaired(EscapeChars(s))
    decreases |s|
  {
    if |s| > 0 {
      var e := EscapeChar(s[0]);
      assert QuotesPaired(e) by {
        if |e| == 2 { assert e[2..] == []; }
        else { assert e[1..] == []; }
      }
      EscapedQuotesPaired(s[1..]);
      QuotesPairedConcat(e, EscapeChars(s[1..]));
    }
  }
}
