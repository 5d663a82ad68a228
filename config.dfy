/** The configuration store of common.py: the required option list
    (common.py:18-37), config_path (115-119), config_check (129-142) and
    config_save (145-150), plus ConfigParser's get and getboolean.
    A configuration is a map from section to a map from option to value;
    whether config.ini exists is a boolean input, and the files' contents are
    maps handed in by the caller. */
module Configuration {
  import opened Base
  import opened Text

  type Config = map<string, map<string, string>>

  const CONFIG_FILE := "config.ini"
  const CONFIG_FILE_DEFAULT := "config.ini.default"

  /** CONFIG_NAME_LIST, each "section.option" name already split at its one
      dot: the options every saved config.ini must hold, in list order. */
  const REQUIRED: seq<(string, string)> := [
    ("base", "avmoo_site"), ("base", "db_file"), ("base", "country"),
    ("spider", "sleep"), ("spider", "insert_threshold"), ("spider", "continued_skip_limit"),
    ("requests", "timeout"), ("requests", "user_agent"),
    ("website", "cdn"), ("website", "page_limit"), ("website", "actresses_page_limit"),
    ("website", "group_page_limit"), ("website", "group_page_order_by"),
    ("website", "use_cache"), ("website", "auto_open_site_on_run")
  ]

  /** COUNTRY_MAP: country code to display name. */
  const COUNTRY_MAP: map<string, string> := map[
    "en" := "English",
    "ja" := "\U{65E5}\U{672C}\U{8BED}",
    "tw" := "\U{6B63}\U{9AD4}\U{4E2D}\U{6587}",
    "cn" := "\U{7B80}\U{4F53}\U{4E2D}\U{6587}"
  ]

  predicate Has(c: Config, section: string, option: string) {
    section in c && option in c[section]
  }

  /** ConfigParser.get: NoSectionError before NoOptionError. */
  function Get(c: Config, section: string, option: string): Result<string> {
    if section !in c then Err(NoSection(section))
    else if option !in c[section] then Err(NoOption(section, option))
    else Ok(c[section][option])
  }

  /** ConfigParser.set on an existing section: the option gets the value. */
  function Set(c: Config, section: string, option: string, value: string): Config
    requires section in c
  {
    c[section := c[section][option := value]]
  }

  // ---------------------------------------------------------------------
  // getboolean

  const TRUE_WORDS: seq<string> := ["1", "yes", "true", "on"]
  const FALSE_WORDS: seq<string> := ["0", "no", "false", "off"]

  function AsciiLower(s: string): (r: string)
    ensures |r| == |s|
    ensures forall i :: 0 <= i < |s| ==> r[i] == if 'A' <= s[i] <= 'Z' then (s[i] as int + 32) as char else s[i]
    decreases |s|
  {
    if |s| == 0 then ""
    else [if 'A' <= s[0] <= 'Z' then (s[0] as int + 32) as char else s[0]] + AsciiLower(s[1..])
  }

  /** ConfigParser.getboolean: the lower-cased value must be one of the
      eight boolean words, otherwise ValueError. */
  function GetBoolean(c: Config, section: string, option: string): (r: Result<bool>)
    ensures r.Ok? ==> Has(c, section, option)
  {
    match Get(c, section, option)
    case Err(e) => Err(e)
    case Ok(v) =>
      var w := AsciiLower(v);
      if w in TRUE_WORDS then Ok(true)
      else if w in FALSE_WORDS then Ok(false)
      else Err(NotBoolean(v))
  }

  /** getboolean is true exactly for the true words and false exactly for
      the false words, compared without regard to case. */
  lemma GetBooleanWords(c: Config, section: string, option: string)
    ensures GetBoolean(c, section, option) == Ok(true) <==>
      Has(c, section, option) && AsciiLower(c[section][option]) in TRUE_WORDS
    ensures GetBoolean(c, section, option) == Ok(false) <==>
      Has(c, section, option) && AsciiLower(c[section][option]) in FALSE_WORDS
  {
    assert forall w :: w in TRUE_WORDS ==> w !in FALSE_WORDS;
  }

  lemma AsciiLowerIdempotent(s: string)
    ensures AsciiLower(AsciiLower(s)) == AsciiLower(s)
  {
  }

  /** getboolean ignores the case of the value: a value and its lower-case
      form are both booleans or both not, and the same boolean. */
  lemma GetBooleanIgnoresCase(c: Config, section: string, option: string, v: string)
    requires section in c
    ensures GetBoolean(Set(c, section, option, v), section, option).Ok?
        <==> GetBoolean(Set(c, section, option, AsciiLower(v)), section, option).Ok?
    ensures GetBoolean(Set(c, section, option, v), section, option).Ok? ==>
        GetBoolean(Set(c, section, option, v), section, option)
        == GetBoolean(Set(c, section, option, AsciiLower(v)), section, option)
  {
    AsciiLowerIdempotent(v);
  }

  /** "True" reads as true. */
  lemma GetBooleanExample(c: Config, section: string)
    requires section in c
    ensures GetBoolean(Set(c, section, "use_cache", "True"), section, "use_cache") == Ok(true)
  {
    assert AsciiLower("True") == "true";
  }

  // ---------------------------------------------------------------------
  // config_path, config_save, config_check

  /** config_path: the user file when it exists, else the default file. */
  function ConfigPath(userExists: bool): (path: string)
    ensures path == CONFIG_FILE <==> userExists
  {
    if userExists then CONFIG_FILE else CONFIG_FILE_DEFAULT
  }

  /** What config_save leaves of config: all of it but base.country_name. */
  ghost predicate SavedFrom(config: Config, written: Config) {
    && !Has(written, "base", "country_name")
    && written.Keys == config.Keys
    && (forall s, o :: !(s == "base" && o == "country_name") ==> (Has(written, s, o) <==> Has(config, s, o)))
    && (forall s, o :: Has(written, s, o) ==> Has(config, s, o) && written[s][o] == config[s][o])
  }

  /** config_save: drops base.country_name, then the result is written. */
  method ConfigSave(config: Config) returns (written: Config)
    ensures SavedFrom(config, written)
  {
    written := config;
    if Has(config, "base", "country_name") {
      written := written["base" := written["base"] - {"country_name"}];
    }
  }

  /** A required pair config_check cannot fill: absent from the user file
      and from the default file. */
  predicate Unfillable(user: Config, defaults: Config, p: (string, string)) {
    !Has(user, p.0, p.1) && !Has(defaults, p.0, p.1)
  }

  /** The loop of config_check over pairs: add the section if absent, then
      copy the option from the default file if absent, failing with the
      default file's get error. */
  function Fill(config: Config, defaults: Config, pairs: seq<(string, string)>): Result<Config>
    decreases |pairs|
  {
    if |pairs| == 0 then Ok(config)
    else
      var (section, option) := pairs[0];
      var withSection := if section in config then config else config[section := map[]];
      if option in withSection[section] then Fill(withSection, defaults, pairs[1..])
      else
        match Get(defaults, section, option)
        case Err(e) => Err(e)
        case Ok(v) => Fill(Set(withSection, section, option, v), defaults, pairs[1..])
  }

  /** One step of Fill: the config after the first pair. */
  function FillStep(config: Config, defaults: Config, p: (string, string)): Config
    requires !Unfillable(config, defaults, p)
  {
    var withSection := if p.0 in config then config else config[p.0 := map[]];
    if p.1 in withSection[p.0] then withSection else Set(withSection, p.0, p.1, defaults[p.0][p.1])
  }

  lemma FillUnfold(config: Config, defaults: Config, pairs: seq<(string, string)>)
    requires |pairs| > 0
    ensures Unfillable(config, defaults, pairs[0]) ==>
      Fill(config, defaults, pairs) == Err(Get(defaults, pairs[0].0, pairs[0].1).error)
    ensures !Unfillable(config, defaults, pairs[0]) ==>
      Fill(config, defaults, pairs) == Fill(FillStep(config, defaults, pairs[0]), defaults, pairs[1..])
  {
  }

  /** Fill fails exactly when some pair is in neither file. */
  lemma {:induction false} FillFails(config: Config, defaults: Config, pairs: seq<(string, string)>)
    ensures Fill(config, defaults, pairs).Err? <==>
      exists i :: 0 <= i < |pairs| && Unfillable(config, defaults, pairs[i])
    decreases |pairs|
  {
    if |pairs| > 0 {
      FillUnfold(config, defaults, pairs);
      if !Unfillable(config, defaults, pairs[0]) {
        var next := FillStep(config, defaults, pairs[0]);
        FillFails(next, defaults, pairs[1..]);
        FillStepKeepsUnfillable(config, defaults, pairs);
        if exists i :: 0 <= i < |pairs| && Unfillable(config, defaults, pairs[i]) {
          var i :| 0 <= i < |pairs| && Unfillable(config, defaults, pairs[i]);
          assert pairs[1..][i - 1] == pairs[i];
        }
      }
    }
  }

  /** A step of Fill leaves the later pairs as fillable as they were. */
  lemma FillStepKeepsUnfillable(config: Config, defaults: Config, pairs: seq<(string, string)>)
    requires |pairs| > 0 && !Unfillable(config, defaults, pairs[0])
    ensures forall i :: 1 <= i < |pairs| ==>
      (Unfillable(FillStep(config, defaults, pairs[0]), defaults, pairs[i]) <==> Unfillable(config, defaults, pairs[i]))
  {
  }

  /** When Fill fails, it fails with the default file's error for the first
      pair in neither file. */
  lemma {:induction false} FillFailsFirst(config: Config, defaults: Config, pairs: seq<(string, string)>)
    ensures Fill(config, defaults, pairs).Err? ==>
      exists i :: 0 <= i < |pairs| && Unfillable(config, defaults, pairs[i])
        && (forall j :: 0 <= j < i ==> !Unfillable(config, defaults, pairs[j]))
        && Get(defaults, pairs[i].0, pairs[i].1) == Err(Fill(config, defaults, pairs).error)
    decreases |pairs|
  {
    if |pairs| > 0 {
      FillUnfold(config, defaults, pairs);
      if !Unfillable(config, defaults, pairs[0]) && Fill(config, defaults, pairs).Err? {
        var next := FillStep(config, defaults, pairs[0]);
        FillFailsFirst(next, defaults, pairs[1..]);
        FillStepKeepsUnfillable(config, defaults, pairs);
        var k :| 0 <= k < |pairs[1..]| && Unfillable(next, defaults, pairs[1..][k])
          && (forall j :: 0 <= j < k ==> !Unfillable(next, defaults, pairs[1..][j]))
          && Get(defaults, pairs[1..][k].0, pairs[1..][k].1) == Err(Fill(next, defaults, pairs[1..]).error);
        assert Unfillable(config, defaults, pairs[k + 1]);
        forall j | 0 <= j < k + 1 ensures !Unfillable(config, defaults, pairs[j]) {
          if j > 0 { assert pairs[j] == pairs[1..][j - 1]; }
        }
      }
    }
  }

  /** The sections named by pairs. */
  function Sections(pairs: seq<(string, string)>): set<string>
    decreases |pairs|
  {
    if |pairs| == 0 then {} else {pairs[0].0} + Sections(pairs[1..])
  }

  /** After a successful Fill every pair is present. */
  lemma {:induction false} FillHasPairs(config: Config, defaults: Config, pairs: seq<(string, string)>, filled: Config)
    requires Fill(config, defaults, pairs) == Ok(filled)
    ensures forall i :: 0 <= i < |pairs| ==> Has(filled, pairs[i].0, pairs[i].1)
    decreases |pairs|
  {
    if |pairs| > 0 {
      FillUnfold(config, defaults, pairs);
      var next := FillStep(config, defaults, pairs[0]);
      FillHasPairs(next, defaults, pairs[1..], filled);
      FillKeepsExisting(next, defaults, pairs[1..], filled);
      forall i | 0 <= i < |pairs| ensures Has(filled, pairs[i].0, pairs[i].1) {
        if i > 0 { assert pairs[i] == pairs[1..][i - 1]; }
      }
    }
  }

  /** Fill never changes or removes an option that is already there. */
  lemma {:induction false} FillKeepsExisting(config: Config, defaults: Config, pairs: seq<(string, string)>, filled: Config)
    requires Fill(config, defaults, pairs) == Ok(filled)
    ensures forall s, o :: Has(config, s, o) ==> Has(filled, s, o) && filled[s][o] == config[s][o]
    decreases |pairs|
  {
    if |pairs| > 0 {
      FillUnfold(config, defaults, pairs);
      FillKeepsExisting(FillStep(config, defaults, pairs[0]), defaults, pairs[1..], filled);
    }
  }

  /** An option a pair names that was missing gets the default file's value. */
  lemma {:induction false} FillFromDefaults(config: Config, defaults: Config, pairs: seq<(string, string)>, filled: Config)
    requires Fill(config, defaults, pairs) == Ok(filled)
    ensures forall i :: 0 <= i < |pairs| && !Has(config, pairs[i].0, pairs[i].1) ==>
      Has(defaults, pairs[i].0, pairs[i].1) && Has(filled, pairs[i].0, pairs[i].1)
      && filled[pairs[i].0][pairs[i].1] == defaults[pairs[i].0][pairs[i].1]
    decreases |pairs|
  {
    if |pairs| > 0 {
      FillUnfold(config, defaults, pairs);
      var next := FillStep(config, defaults, pairs[0]);
      FillFromDefaults(next, defaults, pairs[1..], filled);
      FillKeepsExisting(next, defaults, pairs[1..], filled);
      forall i | 0 <= i < |pairs| && !Has(config, pairs[i].0, pairs[i].1)
        ensures Has(defaults, pairs[i].0, pairs[i].1) && Has(filled, pairs[i].0, pairs[i].1)
          && filled[pairs[i].0][pairs[i].1] == defaults[pairs[i].0][pairs[i].1]
      {
        if i > 0 && !Has(next, pairs[i].0, pairs[i].1) {
          assert pairs[i] == pairs[1..][i - 1];
        }
      }
    }
  }

  /** Fill adds only options that the pairs name. */
  lemma {:induction false} FillAddsOnlyPairs(config: Config, defaults: Config, pairs: seq<(string, string)>, filled: Config)
    requires Fill(config, defaults, pairs) == Ok(filled)
    ensures forall s, o :: Has(filled, s, o) ==> Has(config, s, o) || (s, o) in pairs
    decreases |pairs|
  {
    if |pairs| > 0 {
      FillUnfold(config, defaults, pairs);
      var next := FillStep(config, defaults, pairs[0]);
      FillAddsOnlyPairs(next, defaults, pairs[1..], filled);
      forall s, o | Has(filled, s, o) ensures Has(config, s, o) || (s, o) in pairs {
        if !Has(next, s, o) {
          assert (s, o) in pairs[1..];
        }
      }
    }
  }

  /** Fill adds exactly the sections the pairs name. */
  lemma {:induction false} FillSections(config: Config, defaults: Config, pairs: seq<(string, string)>, filled: Config)
    requires Fill(config, defaults, pairs) == Ok(filled)
    ensures filled.Keys == config.Keys + Sections(pairs)
    decreases |pairs|
  {
    if |pairs| > 0 {
      FillUnfold(config, defaults, pairs);
      FillSections(FillStep(config, defaults, pairs[0]), defaults, pairs[1..], filled);
    }
  }

  /** What config_check promises of the file it writes, for the pairs it
      requires. */
  ghost predicate Reconciled(user: Config, defaults: Config, pairs: seq<(string, string)>, written: Config) {
    // every required pair is present
    && (forall i :: 0 <= i < |pairs| ==> Has(written, pairs[i].0, pairs[i].1))
    // the user's values are kept
    && (forall s, o :: Has(user, s, o) && !(s == "base" && o == "country_name") ==>
          Has(written, s, o) && written[s][o] == user[s][o])
    // missing required values come from the default file
    && (forall i :: 0 <= i < |pairs| && !Has(user, pairs[i].0, pairs[i].1) ==>
          Has(defaults, pairs[i].0, pairs[i].1) && Has(written, pairs[i].0, pairs[i].1)
          && written[pairs[i].0][pairs[i].1] == defaults[pairs[i].0][pairs[i].1])
    // nothing else is added
    && (forall s, o :: Has(written, s, o) ==> Has(user, s, o) || (s, o) in pairs)
    // the derived option is never written
    && !Has(written, "base", "country_name")
    && written.Keys == user.Keys + Sections(pairs)
  }

  lemma DerivedNotRequired()
    ensures ("base", "country_name") !in REQUIRED
  {
  }

  /** Saving a successful Fill of pairs that do not include the derived
      option reconciles the files. */
  lemma SaveAfterFill(user: Config, defaults: Config, pairs: seq<(string, string)>, filled: Config, written: Config)
    requires Fill(user, defaults, pairs) == Ok(filled)
    requires ("base", "country_name") !in pairs
    requires SavedFrom(filled, written)
    ensures Reconciled(user, defaults, pairs, written)
  {
    FillHasPairs(user, defaults, pairs, filled);
    FillKeepsExisting(user, defaults, pairs, filled);
    FillFromDefaults(user, defaults, pairs, filled);
    FillAddsOnlyPairs(user, defaults, pairs, filled);
    FillSections(user, defaults, pairs, filled);
  }

  /** The loop of config_check over the pairs, on the user file's config. */
  method FillPairs(config: Config, defaults: Config, pairs: seq<(string, string)>) returns (r: Result<Config>)
    ensures r == Fill(config, defaults, pairs)
  {
    var current := config;
    assert pairs[0..] == pairs;
    for i := 0 to |pairs|
      invariant Fill(current, defaults, pairs[i..]) == Fill(config, defaults, pairs)
    {
      assert pairs[i..][1..] == pairs[i + 1..];
      var (section, option) := pairs[i];
      if section !in current {
        current := current[section := map[]];
      }
      if option !in current[section] {
        var value := Get(defaults, section, option);
        if value.Err? {
          return Err(value.error);
        }
        current := Set(current, section, option, value.value);
      }
    }
    return Ok(current);
  }

  /** config_check: with no config.ini nothing happens (Ok(None)); else each
      required pair missing from the user file is copied from the default
      file, and the reconciled config is saved (Ok(Some(written))).  A
      required pair missing from both files raises the default file's
      NoSectionError or NoOptionError for the first such pair, and nothing
      is written. */
  method ConfigCheck(userExists: bool, user: Config, defaults: Config) returns (r: Result<Option<Config>>)
    ensures !userExists ==> r == Ok(None)
    ensures userExists ==> (r.Err? <==> exists i :: 0 <= i < |REQUIRED| && Unfillable(user, defaults, REQUIRED[i]))
    ensures r.Err? ==>
      exists i :: 0 <= i < |REQUIRED| && Unfillable(user, defaults, REQUIRED[i])
        && (forall j :: 0 <= j < i ==> !Unfillable(user, defaults, REQUIRED[j]))
        && Get(defaults, REQUIRED[i].0, REQUIRED[i].1) == Err(r.error)
    ensures userExists && r.Ok? ==> r.value.Some? && Reconciled(user, defaults, REQUIRED, r.value.value)
  {
    if !userExists {
      return Ok(None);
    }
    FillFails(user, defaults, REQUIRED);
    FillFailsFirst(user, defaults, REQUIRED);
    var filled := FillPairs(user, defaults, REQUIRED);
    if filled.Err? {
      return Err(filled.error);
    }
    var written := ConfigSave(filled.value);
    DerivedNotRequired();
    SaveAfterFill(user, defaults, REQUIRED, filled.value, written);
    return Ok(Some(written));
  }
}
