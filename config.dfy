/// The configuration resolver: the parsed configuration as a value, the
/// lookups over it with their fallback chains (per-column key first, then the
/// legacy key for a column named `model`, then a fixed default), and the
/// manager object whose only state change is replacing the whole
/// configuration.
module Manager {
  import opened Values
  import Glob

  /** Rank given to every value no ordering table lists: such values sort last. */
  const DefaultRank: int := 999999

  /** A static column spliced into the rendered table at a 0-based position. */
  datatype ExtraColumn = ExtraColumn(position: int, displayName: string, value: string)

  /** Suffix rules in configuration order: a row label ending in the first
      component gets the second (a LaTeX prefix such as a dagger). */
  type Suffixes = seq<(string, string)>

  /** `row_sorting`: the sort columns in order and, per column, a value-to-rank table. */
  datatype RowSorting = RowSorting(columns: seq<string>, sortOrders: map<string, map<string, int>>)

  /** `row_filtering`: per column, the wildcard patterns that hide a row and
      those that only keep it out of the minimum computation. */
  datatype RowFiltering = RowFiltering(
    excludeValues: map<string, set<string>>,
    excludeFromCalculations: map<string, set<string>>)

  /** The parsed configuration file. A key missing from the file is held as
      the value its accessor would default to (an empty map, list or set;
      `true` for the global underline switch). */
  datatype Config = Config(
    displayNames: map<string, string>,
    latexModelNames: map<string, string>,
    modelOrder: map<string, int>,
    ignoredModels: set<string>,
    ignoredInCalculation: set<string>,
    extraColumns: seq<ExtraColumn>,
    modelPatterns: Suffixes,
    columnFormats: map<string, string>,
    underlineMinValues: bool,
    columnUnderline: map<string, bool>,
    rowSorting: RowSorting,
    valueReplacements: map<string, map<string, string>>,
    rowFiltering: RowFiltering,
    patternFormatting: map<string, Suffixes>)

  /** The configuration a missing file yields. */
  function EmptyConfig(): Config {
    Config(map[], map[], map[], {}, {}, [], [], map[], true, map[],
           RowSorting([], map[]), map[], RowFiltering(map[], map[]), map[])
  }

  /** `d.get(key, default)`. */
  function Lookup<V>(m: map<string, V>, key: string, default: V): V {
    if key in m then m[key] else default
  }

  /** `get_model_order`: the legacy rank of a model name. */
  function ModelOrder(cfg: Config, name: Cell): int {
    Lookup(cfg.modelOrder, Show(name), DefaultRank)
  }

  const Prefixes: seq<string> := ["data_", "model_", "result_"]

  /** The prefix-stripping loop of `get_pretty_column_name`: each prefix in
      turn is removed when the current name starts with it (no early exit). */
  function StripPrefixes(name: string, prefixes: seq<string>): string
    decreases |prefixes|
  {
    if |prefixes| == 0 then name
    else
      var next := if StartsWith(name, prefixes[0]) then name[|prefixes[0]|..] else name;
      StripPrefixes(next, prefixes[1..])
  }

  /** Underscore-separated words, each capitalized, joined by single spaces. */
  function Prettify(name: string): string {
    Join(MapCapitalize(Split(name, '_')), " ")
  }

  function MapCapitalize(words: seq<string>): (r: seq<string>)
    ensures |r| == |words| && forall k :: 0 <= k < |words| ==> r[k] == Capitalize(words[k])
  {
    if |words| == 0 then [] else [Capitalize(words[0])] + MapCapitalize(words[1..])
  }

  /** `get_pretty_column_name`: an explicit display name, else the stripped and prettified column name. */
  function PrettyColumnName(cfg: Config, col: string): string {
    if col in cfg.displayNames then cfg.displayNames[col]
    else Prettify(StripPrefixes(col, Prefixes))
  }

  /** Character by character, what prettifying produces: `_` becomes a space,
      the first character and every character after a `_` are upper-cased,
      all others lower-cased. */
  function PrettyChars(b: string): (r: string)
    ensures |r| == |b|
  {
    seq(|b|, k requires 0 <= k < |b| =>
      if b[k] == '_' then ' ' else if k == 0 || b[k - 1] == '_' then Upper(b[k]) else Lower(b[k]))
  }

  /** The first piece of a split is the longest separator-free prefix. */
  lemma {:induction false} SplitHead(s: string, sep: char)
    ensures var w := Split(s, sep)[0];
            |w| <= |s| && w == s[..|w|] && (|w| == |s| || s[|w|] == sep)
  {
    if |s| > 0 {
      SplitHead(s[1..], sep);
    }
  }

  lemma JoinCons(x: string, ys: seq<string>, sep: string)
    ensures Join([x] + ys, sep) == x + (if |ys| == 0 then "" else sep + Join(ys, sep))
  {
    assert ([x] + ys)[1..] == ys;
  }

  /** A leading `_` becomes a leading space and leaves the rest as it was. */
  lemma PrettifySepHead(s: string)
    requires |s| > 0 && s[0] == '_'
    ensures Prettify(s) == " " + Prettify(s[1..])
  {
    var rest := Split(s[1..], '_');
    assert Split(s, '_') == [""] + rest;
    assert MapCapitalize([""] + rest) == [""] + MapCapitalize(rest);
    JoinCons("", MapCapitalize(rest), " ");
  }

  /** A leading word character joins the first word: the first word is
      capitalized as a whole and what follows it is the same as for `s[1..]`. */
  lemma PrettifyWordHead(s: string) returns (tail: string)
    requires |s| > 0 && s[0] != '_'
    ensures var r0 := Split(s[1..], '_')[0];
            Prettify(s) == Capitalize([s[0]] + r0) + tail &&
            Prettify(s[1..]) == Capitalize(r0) + tail
  {
    var rest := Split(s[1..], '_');
    var r0 := rest[0];
    var c := s[0];
    assert Split(s, '_') == [[c] + r0] + rest[1..];
    var tailWords := MapCapitalize(rest[1..]);
    assert MapCapitalize([[c] + r0] + rest[1..]) == [Capitalize([c] + r0)] + tailWords;
    assert rest == [r0] + rest[1..];
    assert MapCapitalize(rest) == [Capitalize(r0)] + tailWords;
    JoinCons([c] + r0, tailWords, " ");
    JoinCons(r0, tailWords, " ");
    tail := if |tailWords| == 0 then "" else " " + Join(tailWords, " ");
  }

  /** Prettifying agrees with the character-by-character description. */
  lemma {:induction false} PrettifyIsPrettyChars(s: string)
    ensures Prettify(s) == PrettyChars(s)
    decreases |s|
  {
    if |s| > 0 {
      var t := s[1..];
      PrettifyIsPrettyChars(t);
      if s[0] == '_' {
        PrettifySepHead(s);
      } else {
        var r0 := Split(t, '_')[0];
        SplitHead(t, '_');
        var tail := PrettifyWordHead(s);
        WordHeadChars(s, r0, tail, Prettify(s), Prettify(t));
      }
    }
  }

  /** The character-wise step for a leading word character: `a` is the
      pretty form of `s`, `b` that of `s[1..]`, and both continue with the
      same `tail` after the first word. */
  lemma WordHeadChars(s: string, r0: string, tail: string, a: string, b: string)
    requires |s| > 0 && s[0] != '_'
    requires |r0| <= |s| - 1 && r0 == s[1..][..|r0|] && '_' !in r0
    requires |r0| == |s| - 1 || s[1 + |r0|] == '_'
    requires b == PrettyChars(s[1..]) && b == Capitalize(r0) + tail
    requires a == Capitalize([s[0]] + r0) + tail
    ensures a == PrettyChars(s)
  {
    var c := Capitalize([s[0]] + r0);
    var q := PrettyChars(s);
    HeadWordChars(s, r0);
    TailChars(s, r0, b);
    assert |a| == |q|;
    forall k | 0 <= k < |s|
      ensures a[k] == q[k]
    {
      if k >= |c| {
        assert a[k] == tail[k - |c|] == b[k - 1];
      }
    }
  }

  /** The first word, capitalized, agrees with the pretty form of the whole string. */
  lemma HeadWordChars(s: string, r0: string)
    requires |s| > 0 && s[0] != '_'
    requires |r0| <= |s| - 1 && r0 == s[1..][..|r0|] && '_' !in r0
    ensures forall k :: 0 <= k < 1 + |r0| ==> Capitalize([s[0]] + r0)[k] == PrettyChars(s)[k]
  {
    var w := [s[0]] + r0;
    var c := Capitalize(w);
    forall k | 1 <= k < 1 + |r0|
      ensures c[k] == PrettyChars(s)[k]
    {
      assert w[k] == r0[k - 1] == s[k];
      assert r0[k - 1] != '_';
      assert s[k - 1] != '_' by {
        if k >= 2 {
          assert s[k - 1] == r0[k - 2];
        }
      }
      assert c[k] == Lower(s[k]);
    }
  }

  /** After the first word, the pretty form of `s` is that of `s[1..]`, one place on. */
  lemma TailChars(s: string, r0: string, b: string)
    requires |s| > 0 && |r0| <= |s| - 1
    requires |r0| == |s| - 1 || s[1 + |r0|] == '_'
    requires b == PrettyChars(s[1..])
    ensures forall k :: 1 + |r0| <= k < |s| ==> b[k - 1] == PrettyChars(s)[k]
  {
    var t := s[1..];
    forall k | 1 + |r0| <= k < |s|
      ensures b[k - 1] == PrettyChars(s)[k]
    {
      assert s[k] == t[k - 1];
      if k - 1 == 0 {
        assert t[0] == '_';
      } else {
        assert s[k - 1] == t[k - 2];
      }
    }
  }

  /** Without an explicit display name, the pretty name spells the column
      name, with its recognised prefixes removed, character by character as
      `PrettyChars` says; in particular it contains no `_`. */
  lemma PrettyNameShape(cfg: Config, col: string)
    requires col !in cfg.displayNames
    ensures PrettyColumnName(cfg, col) == PrettyChars(StripPrefixes(col, Prefixes))
    ensures '_' !in PrettyColumnName(cfg, col)
  {
    PrettifyIsPrettyChars(StripPrefixes(col, Prefixes));
  }

  /** A name that needs no stripping, has no `_` and is already capitalized
      is its own pretty name (`Score` stays `Score`). */
  lemma PrettyNameFixedPoint(cfg: Config, col: string)
    requires col !in cfg.displayNames
    requires '_' !in col && |col| > 0 && Upper(col[0]) == col[0]
    requires forall k :: 1 <= k < |col| ==> Lower(col[k]) == col[k]
    requires forall k :: 0 <= k < |Prefixes| ==> !StartsWith(col, Prefixes[k])
    ensures PrettyColumnName(cfg, col) == col
  {
    assert StripPrefixes(col, Prefixes[2..]) == col;
    assert StripPrefixes(col, Prefixes[1..]) == col;
    assert StripPrefixes(col, Prefixes) == col;
    PrettyNameShape(cfg, col);
  }

  /** `get_column_format`. */
  function ColumnFormat(cfg: Config, col: string): Option<string> {
    if col in cfg.columnFormats then Some(cfg.columnFormats[col]) else None
  }

  /** `get_column_underline`. */
  function ColumnUnderline(cfg: Config, col: string): bool {
    Lookup(cfg.columnUnderline, col, cfg.underlineMinValues)
  }

  /** `get_sort_order`. */
  function SortOrder(cfg: Config, col: string, v: Cell): int {
    if col in cfg.rowSorting.sortOrders then Lookup(cfg.rowSorting.sortOrders[col], Show(v), DefaultRank)
    else if col == "model" then ModelOrder(cfg, v)
    else DefaultRank
  }

  /** The strings `get_value_replacement` tries, in order. */
  function Candidates(v: Cell): seq<string> {
    match AltForm(v)
    case Some(alt) => [Show(v), alt]
    case None => [Show(v)]
  }

  /** The replacement of the first candidate the table lists. */
  function FirstHit(table: map<string, string>, candidates: seq<string>): (r: Option<string>)
    ensures r.Some? <==> exists k :: 0 <= k < |candidates| && candidates[k] in table
    ensures r.Some? ==> exists k :: 0 <= k < |candidates| && candidates[k] in table
                           && r.value == table[candidates[k]]
                           && forall m :: 0 <= m < k ==> candidates[m] !in table
  {
    if |candidates| == 0 then None
    else if candidates[0] in table then Some(table[candidates[0]])
    else
      var rest := FirstHit(table, candidates[1..]);
      assert forall k :: 1 <= k < |candidates| ==> candidates[k] == candidates[1..][k - 1];
      rest
  }

  /** `get_value_replacement`. */
  function ValueReplacement(cfg: Config, col: string, v: Cell): string {
    if col in cfg.valueReplacements then
      match FirstHit(cfg.valueReplacements[col], Candidates(v))
      case Some(r) => r
      case None => Show(v)
    else if col == "model" then Lookup(cfg.latexModelNames, Show(v), Show(v))
    else Show(v)
  }

  /** `get_column_patterns`. */
  function ColumnPatterns(cfg: Config, col: string): Suffixes {
    if col in cfg.patternFormatting then cfg.patternFormatting[col]
    else if col == "model" then cfg.modelPatterns
    else []
  }

  /** `_matches_pattern` / `matches_ignored_pattern`: some pattern of the set matches the string. */
  predicate AnyMatch(value: string, patterns: set<string>) {
    exists p :: p in patterns && Glob.Match(value, p)
  }

  /** `should_exclude_value`. */
  predicate ShouldExcludeValue(cfg: Config, col: string, v: Cell) {
    if col in cfg.rowFiltering.excludeValues then AnyMatch(Show(v), cfg.rowFiltering.excludeValues[col])
    else if col == "model" then Show(v) in cfg.ignoredModels
    else false
  }

  /** `should_exclude_from_calculations`. */
  predicate ShouldExcludeFromCalculations(cfg: Config, col: string, v: Cell) {
    if col in cfg.rowFiltering.excludeFromCalculations then
      AnyMatch(Show(v), cfg.rowFiltering.excludeFromCalculations[col])
    else if col == "model" then Show(v) in cfg.ignoredInCalculation
    else false
  }

  /** The same settings with every legacy `model` key moved to its per-column
      equivalent (where that column has no entry of its own) and the legacy
      keys emptied; exact legacy name lists become escaped wildcard patterns. */
  function Generalize(cfg: Config): Config {
    var so := cfg.rowSorting.sortOrders;
    var vr := cfg.valueReplacements;
    var pf := cfg.patternFormatting;
    var ev := cfg.rowFiltering.excludeValues;
    var ec := cfg.rowFiltering.excludeFromCalculations;
    cfg.(
      rowSorting := cfg.rowSorting.(sortOrders := if "model" in so then so else so["model" := cfg.modelOrder]),
      valueReplacements := if "model" in vr then vr else vr["model" := cfg.latexModelNames],
      patternFormatting := if "model" in pf then pf else pf["model" := cfg.modelPatterns],
      rowFiltering := RowFiltering(
        if "model" in ev then ev else ev["model" := EscapeAll(cfg.ignoredModels)],
        if "model" in ec then ec else ec["model" := EscapeAll(cfg.ignoredInCalculation)]),
      latexModelNames := map[], modelOrder := map[], ignoredModels := {},
      ignoredInCalculation := {}, modelPatterns := [])
  }

  function EscapeAll(names: set<string>): set<string> {
    set m | m in names :: Glob.Escape(m)
  }

  /** Matching against escaped names is exact membership. */
  lemma EscapeAllIsMembership(s: string, names: set<string>)
    ensures AnyMatch(s, EscapeAll(names)) <==> s in names
  {
    if s in names {
      Glob.EscapeMatchesExactly(s, s);
      assert Glob.Escape(s) in EscapeAll(names);
    }
    if AnyMatch(s, EscapeAll(names)) {
      var p :| p in EscapeAll(names) && Glob.Match(s, p);
      var m :| m in names && p == Glob.Escape(m);
      Glob.EscapeMatchesExactly(s, m);
    }
  }

  /** Legacy `model` settings and the same settings written under the
      per-column keys resolve identically, for every column and value: ranks,
      suffix rules and both exclusions. */
  lemma GeneralizeAgrees(cfg: Config, col: string, v: Cell)
    ensures SortOrder(Generalize(cfg), col, v) == SortOrder(cfg, col, v)
    ensures ColumnPatterns(Generalize(cfg), col) == ColumnPatterns(cfg, col)
    ensures ShouldExcludeValue(Generalize(cfg), col, v) == ShouldExcludeValue(cfg, col, v)
    ensures ShouldExcludeFromCalculations(Generalize(cfg), col, v) == ShouldExcludeFromCalculations(cfg, col, v)
  {
    var g := Generalize(cfg);
    if col == "model" {
      if col !in cfg.rowFiltering.excludeValues {
        assert g.rowFiltering.excludeValues[col] == EscapeAll(cfg.ignoredModels);
        EscapeAllIsMembership(Show(v), cfg.ignoredModels);
      }
      if col !in cfg.rowFiltering.excludeFromCalculations {
        assert g.rowFiltering.excludeFromCalculations[col] == EscapeAll(cfg.ignoredInCalculation);
        EscapeAllIsMembership(Show(v), cfg.ignoredInCalculation);
      }
    }
  }

  /** The same holds for value replacement unless the number's second
      spelling is a legacy key that its first spelling is not: the per-column
      lookup tries that spelling, the legacy one does not. */
  lemma GeneralizeAgreesOnReplacement(cfg: Config, col: string, v: Cell)
    requires AltForm(v).None? || Show(v) in cfg.latexModelNames || AltForm(v).value !in cfg.latexModelNames
    ensures ValueReplacement(Generalize(cfg), col, v) == ValueReplacement(cfg, col, v)
  {
    var g := Generalize(cfg);
    if col == "model" && col !in cfg.valueReplacements {
      assert g.valueReplacements[col] == cfg.latexModelNames;
      ValueReplacementResolution(g, col, v);
    }
  }

  /** The exception above is real: an int model value whose float spelling is
      a legacy display-name key is replaced only under the per-column key. */
  lemma GeneralizeReplacementDiffers()
    ensures var cfg := EmptyConfig().(latexModelNames := map["3.0" := "Three"]);
            ValueReplacement(cfg, "model", IntV(3)) == "3"
            && ValueReplacement(Generalize(cfg), "model", IntV(3)) == "Three"
  {
    var cfg := EmptyConfig().(latexModelNames := map["3.0" := "Three"]);
    assert Show(IntV(3)) == "3";
    assert "3" + ".0" == "3.0";
    assert AltForm(IntV(3)) == Some("3.0");
    assert Candidates(IntV(3)) == ["3", "3.0"];
    assert FirstHit(map["3.0" := "Three"], ["3", "3.0"]) == Some("Three");
  }

  /** Legacy `ignored_models` is exact membership, while a pattern under
      `exclude_values` is a wildcard: `a*` hides `ab` only in the latter. */
  lemma LegacyExclusionIsExact()
    ensures !ShouldExcludeValue(EmptyConfig().(ignoredModels := {"a*"}), "model", TextV("ab"))
    ensures ShouldExcludeValue(
              EmptyConfig().(rowFiltering := RowFiltering(map["model" := {"a*"}], map[])), "model", TextV("ab"))
  {
    assert Glob.Match("ab", "a*") by {
      Glob.PrefixStar("ab", "a");
      assert "a" + "*" == "a*";
    }
  }

  /** The value replacement returns the entry for `str(v)` when the column
      lists it, otherwise the entry for the second spelling, otherwise
      `str(v)`; the legacy table only for an unlisted `model` column. */
  lemma ValueReplacementResolution(cfg: Config, col: string, v: Cell)
    ensures var r := ValueReplacement(cfg, col, v);
      if col in cfg.valueReplacements then
        var t := cfg.valueReplacements[col];
        if Show(v) in t then r == t[Show(v)]
        else if AltForm(v).Some? && AltForm(v).value in t then r == t[AltForm(v).value]
        else r == Show(v)
      else if col == "model" && Show(v) in cfg.latexModelNames then r == cfg.latexModelNames[Show(v)]
      else r == Show(v)
  {
    if col in cfg.valueReplacements {
      var t := cfg.valueReplacements[col];
      var cs := Candidates(v);
      if Show(v) !in t && AltForm(v).Some? && AltForm(v).value in t {
        assert cs == [Show(v), AltForm(v).value];
        var h := FirstHit(t, cs);
        assert cs[1] in t;
        var k :| 0 <= k < |cs| && cs[k] in t && h.value == t[cs[k]] && forall m :: 0 <= m < k ==> cs[m] !in t;
        assert k == 1;
      }
    }
  }

  /** A float holding a whole number finds the replacement keyed by its int
      spelling unless its own spelling is listed, and an int always does:
      2022.0 and 2022 both reach a `"2022"` entry. */
  lemma ReplacementAcrossNumberSpellings(cfg: Config, col: string, n: int)
    requires col in cfg.valueReplacements
    requires Show(IntV(n)) in cfg.valueReplacements[col]
    ensures Show(FloatV(n as real)) !in cfg.valueReplacements[col]
            ==> ValueReplacement(cfg, col, FloatV(n as real)) == cfg.valueReplacements[col][Show(IntV(n))]
    ensures ValueReplacement(cfg, col, IntV(n)) == cfg.valueReplacements[col][Show(IntV(n))]
  {
    var t := cfg.valueReplacements[col];
    assert (n as real).Floor == n;
    var f := FloatV(n as real);
    ValueReplacementResolution(cfg, col, f);
    ValueReplacementResolution(cfg, col, IntV(n));
  }

  /** The legacy configuration of the backward-compatibility scenario: a
      `model` rank, a display name and an ignored model resolve through the
      legacy keys. */
  lemma LegacyConfigurationExamples()
    ensures var cfg := EmptyConfig().(
              modelOrder := map["test-model-1" := 1, "test-model-2" := 2],
              latexModelNames := map["test-model-1" := "Test Model 1"],
              ignoredModels := {"debug-model"});
            SortOrder(cfg, "model", TextV("test-model-1")) == 1
            && SortOrder(cfg, "model", TextV("other")) == DefaultRank
            && SortOrder(cfg, "year", TextV("test-model-1")) == DefaultRank
            && ValueReplacement(cfg, "model", TextV("test-model-1")) == "Test Model 1"
            && ShouldExcludeValue(cfg, "model", TextV("debug-model"))
            && !ShouldExcludeValue(cfg, "model", TextV("debug-model-2"))
  {
  }

  /** Prefixes are stripped one after the other, so `data_model_name` loses
      both `data_` and `model_`; an explicit display name wins over all of it. */
  lemma PrettyNameStripsEveryPrefix()
    ensures PrettyColumnName(EmptyConfig(), "data_model_name") == "Name"
    ensures PrettyColumnName(EmptyConfig().(displayNames := map["data_model_name" := "Model"]), "data_model_name") == "Model"
  {
    StripDataModelName();
    PrettyNameShape(EmptyConfig(), "data_model_name");
    PrettyCharsName();
  }

  lemma PrettyCharsName()
    ensures PrettyChars("name") == "Name"
  {
    assert PrettyChars("name")[0] == Upper('n');
  }

  lemma StripDataModelName()
    ensures StripPrefixes("data_model_name", Prefixes) == "name"
  {
    var n := "data_model_name";
    assert StartsWith(n, "data_") && n[5..] == "model_name";
    assert StartsWith("model_name", "model_") && "model_name"[6..] == "name";
    assert "name"[..4][0] == 'n';
    assert StripPrefixes("name", Prefixes[2..]) == "name";
    assert StripPrefixes("model_name", Prefixes[1..]) == "name";
  }

  /** Underscores separate words, each of which is capitalized. */
  lemma PrettyNameWords()
    ensures PrettyColumnName(EmptyConfig(), "result_top_k") == "Top K"
  {
    StripResultTopK();
    PrettyNameShape(EmptyConfig(), "result_top_k");
    PrettyCharsTopK();
  }

  lemma PrettyCharsTopK()
    ensures PrettyChars("top_k") == "Top K"
  {
    assert PrettyChars("top_k")[4] == Upper('k');
  }

  lemma StripResultTopK()
    ensures StripPrefixes("result_top_k", Prefixes) == "top_k"
  {
    var n := "result_top_k";
    assert n[..5][0] == 'r' && n[..6][0] == 'r';
    assert StartsWith(n, "result_") && n[7..] == "top_k";
    assert Prefixes[1..][1..] == Prefixes[2..] == ["result_"];
    assert StripPrefixes("top_k", Prefixes[2..][1..]) == "top_k";
    assert StripPrefixes(n, Prefixes[2..]) == "top_k";
    assert StripPrefixes(n, Prefixes[1..]) == "top_k";
  }

  /** What `_load_config` yields: the parsed file, or the empty configuration when the file is missing. */
  function Loaded(parsed: Option<Config>): Config {
    match parsed
    case Some(c) => c
    case None => EmptyConfig()
  }

  /** The path the manager reads when it is created without one. */
  const DefaultConfigPath: string := "table_config.yaml"

  /** The configuration manager object. Reading and parsing the file are
      outside the model: the caller passes what parsing it produced. */
  class ConfigManager {
    var configPath: string
    var config: Config

    constructor (path: string, parsed: Option<Config>)
      ensures configPath == path && config == Loaded(parsed)
    {
      configPath := path;
      config := Loaded(parsed);
    }

    /** `load_config_file`: the path and the whole configuration are replaced together. */
    method LoadConfigFile(newPath: string, parsed: Option<Config>)
      modifies this
      ensures configPath == newPath
      ensures config == Loaded(parsed)
      ensures parsed.None? ==> forall col, v ::
                SortOrder(config, col, v) == DefaultRank && ValueReplacement(config, col, v) == Show(v)
                && !ShouldExcludeValue(config, col, v) && !ShouldExcludeFromCalculations(config, col, v)
      ensures parsed.None? ==> forall col ::
                ColumnUnderline(config, col) && ColumnFormat(config, col).None? && ColumnPatterns(config, col) == []
    {
      configPath := newPath;
      config := Loaded(parsed);
    }
  }
}
