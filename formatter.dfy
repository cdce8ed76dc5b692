/// The LaTeX table generator: the minima of the numeric columns over the
/// rows that take part in the calculation, the table preamble with one
/// column letter per real and extra column, the bold header line, one line
/// per data row with the extra columns spliced in, and the footer.
module Formatter {
  import opened Values
  import Manager
  import Processing
  import Layout

  const NoColumnsMessage: string := "Please select at least one column"
  const TableFooter: string := "\\hline\n\\end{tabular}\n\\end{table}"

  /** 1e-10: a value this close to its column minimum is underlined. */
  const Tolerance: real := 0.0000000001

  /** Python's format-spec mini-language, which the model leaves abstract:
      `fixed(v, d)` is `f"{v:.{d}f}"`, and `custom(v, spec)` is
      `f"{v:{spec}}"`, or None where Python raises ValueError or TypeError. */
  datatype NumberFormats = NumberFormats(fixed: (Cell, nat) -> string, custom: (Cell, string) -> Option<string>)

  // ---------------------------------------------------------------------
  // Column minima

  function Col(t: Processing.Table, c: string): (k: nat)
    requires c in t.columns
    ensures k < |t.columns| && t.columns[k] == c
  {
    Processing.IndexOf(t.columns, c).value
  }

  /** A row takes part in the minimum computation unless its `model` is an
      ignored name or matches an ignored-in-calculation pattern; without a
      `model` column every row does. */
  predicate Eligible(cfg: Manager.Config, t: Processing.Table, row: Processing.Row) {
    match Processing.IndexOf(t.columns, "model")
    case None => true
    case Some(m) =>
      m < |row.cells|
      && !Processing.IsIn(row.cells[m], cfg.ignoredModels)
      && !Processing.MatchesIgnoredPattern(row.cells[m], cfg.ignoredInCalculation)
  }

  /** The column has an integer or float dtype: every cell is a number. */
  predicate NumericColumn(t: Processing.Table, c: nat) {
    forall i :: 0 <= i < |t.rows| ==> c < |t.rows[i].cells| && IsNumeric(t.rows[i].cells[c])
  }

  /** The smallest of the first `k` values whose flag is set; None when no flag is set. */
  function MinOf(vals: seq<real>, keep: seq<bool>, k: nat): (m: Option<real>)
    requires k <= |vals| == |keep|
    ensures m.None? <==> forall i :: 0 <= i < k ==> !keep[i]
    ensures m.Some? ==> exists i :: 0 <= i < k && keep[i] && vals[i] == m.value
    ensures m.Some? ==> forall i :: 0 <= i < k && keep[i] ==> m.value <= vals[i]
  {
    if k == 0 then None
    else
      var prev := MinOf(vals, keep, k - 1);
      if !keep[k - 1] then prev
      else if prev.None? || vals[k - 1] < prev.value then Some(vals[k - 1])
      else prev
  }

  /** Which rows take part in the minimum computation. */
  function Participants(cfg: Manager.Config, t: Processing.Table): (r: seq<bool>)
    ensures |r| == |t.rows| && forall i :: 0 <= i < |t.rows| ==> r[i] == Eligible(cfg, t, t.rows[i])
  {
    seq(|t.rows|, i requires 0 <= i < |t.rows| => Eligible(cfg, t, t.rows[i]))
  }

  /** The values of a numeric column, row by row. */
  function ColumnValues(t: Processing.Table, c: nat): (r: seq<real>)
    requires NumericColumn(t, c)
    ensures |r| == |t.rows| && forall i :: 0 <= i < |t.rows| ==> r[i] == NumValue(t.rows[i].cells[c])
  {
    seq(|t.rows|, i requires 0 <= i < |t.rows| => NumValue(t.rows[i].cells[c]))
  }

  /** `Series.min()` of a numeric column over the rows that take part. */
  function ColumnMin(cfg: Manager.Config, t: Processing.Table, c: nat): Option<real>
    requires NumericColumn(t, c)
  {
    MinOf(ColumnValues(t, c), Participants(cfg, t), |t.rows|)
  }

  /** The minima `_calculate_min_values` records for the columns `names`. */
  function MinsOver(cfg: Manager.Config, t: Processing.Table, names: seq<string>): map<string, real>
    requires forall j :: 0 <= j < |names| ==> names[j] in t.columns
  {
    if |names| == 0 then map[]
    else
      var prev := MinsOver(cfg, t, names[..|names| - 1]);
      var c := names[|names| - 1];
      var k := Col(t, c);
      if NumericColumn(t, k) && ColumnMin(cfg, t, k).Some?
      then prev[c := ColumnMin(cfg, t, k).value]
      else prev
  }

  /** Every column of the selection but the first. */
  function Rest(cols: seq<string>): seq<string> {
    if |cols| == 0 then [] else cols[1..]
  }

  /** A column is recorded exactly when it is one of `names`, numeric, and
      has a minimum; the recorded value is that minimum. */
  lemma {:induction false} MinsOverRecords(cfg: Manager.Config, t: Processing.Table, names: seq<string>)
    requires forall j :: 0 <= j < |names| ==> names[j] in t.columns
    ensures var m := MinsOver(cfg, t, names);
            forall c :: c in m <==>
              (c in names && NumericColumn(t, Col(t, c)) && ColumnMin(cfg, t, Col(t, c)).Some?)
    ensures var m := MinsOver(cfg, t, names);
            forall c :: c in m ==> NumericColumn(t, Col(t, c)) && m[c] == ColumnMin(cfg, t, Col(t, c)).value
  {
    if |names| > 0 {
      var init := names[..|names| - 1];
      MinsOverRecords(cfg, t, init);
      assert forall c :: c in names <==> c in init || c == names[|names| - 1];
    }
  }

  /** A column gets a minimum exactly when it is numeric, one of `names`,
      and some row takes part; the minimum is the value of such a row and
      no such row has a smaller value. Rows left out of the calculation never
      influence it. */
  lemma MinValuesMeaning(cfg: Manager.Config, t: Processing.Table, names: seq<string>, c: string)
    requires forall j :: 0 <= j < |names| ==> names[j] in t.columns
    requires c in t.columns
    ensures c in MinsOver(cfg, t, names) <==>
              (c in names && NumericColumn(t, Col(t, c))
               && exists i :: 0 <= i < |t.rows| && Eligible(cfg, t, t.rows[i]))
    ensures c in MinsOver(cfg, t, names) ==>
              (exists i :: 0 <= i < |t.rows| && Eligible(cfg, t, t.rows[i])
                           && NumValue(t.rows[i].cells[Col(t, c)]) == MinsOver(cfg, t, names)[c])
              && (forall i :: 0 <= i < |t.rows| && Eligible(cfg, t, t.rows[i]) ==>
                                MinsOver(cfg, t, names)[c] <= NumValue(t.rows[i].cells[Col(t, c)]))
  {
    MinsOverRecords(cfg, t, names);
    var k := Col(t, c);
    if c in names && NumericColumn(t, k) {
      ColumnMinMeaning(cfg, t, k);
    }
  }

  /** The column minimum is None exactly when no row takes part, and is
      otherwise the least value among the rows that do. */
  lemma ColumnMinMeaning(cfg: Manager.Config, t: Processing.Table, k: nat)
    requires NumericColumn(t, k)
    ensures ColumnMin(cfg, t, k).None? <==> forall i :: 0 <= i < |t.rows| ==> !Eligible(cfg, t, t.rows[i])
    ensures ColumnMin(cfg, t, k).Some? ==>
              (exists i :: 0 <= i < |t.rows| && Eligible(cfg, t, t.rows[i])
                           && NumValue(t.rows[i].cells[k]) == ColumnMin(cfg, t, k).value)
              && (forall i :: 0 <= i < |t.rows| && Eligible(cfg, t, t.rows[i]) ==>
                                ColumnMin(cfg, t, k).value <= NumValue(t.rows[i].cells[k]))
  {
    var vals, keep := ColumnValues(t, k), Participants(cfg, t);
    var m := MinOf(vals, keep, |t.rows|);
    if m.None? {
      forall i | 0 <= i < |t.rows| ensures !Eligible(cfg, t, t.rows[i]) {
        assert !keep[i];
      }
    } else {
      var i :| 0 <= i < |t.rows| && keep[i] && vals[i] == m.value;
      assert Eligible(cfg, t, t.rows[i]);
    }
  }

  /** `_calculate_min_values`. */
  method CalculateMinValues(cfg: Manager.Config, t: Processing.Table, cols: seq<string>) returns (mins: map<string, real>)
    requires forall j :: 0 <= j < |cols| ==> cols[j] in t.columns
    ensures mins == MinsOver(cfg, t, Rest(cols))
  {
    mins := map[];
    var rest := Rest(cols);
    for j := 0 to |rest|
      invariant mins == MinsOver(cfg, t, rest[..j])
    {
      MinsOverStep(cfg, t, rest, j);
      var col := rest[j];
      var k := Col(t, col);
      if NumericColumn(t, k) {
        var m := ColumnMin(cfg, t, k);
        if m.Some? {
          mins := mins[col := m.value];
        }
      }
    }
    assert rest[..|rest|] == rest;
  }

  lemma MinsOverStep(cfg: Manager.Config, t: Processing.Table, names: seq<string>, j: nat)
    requires j < |names| && forall q :: 0 <= q < |names| ==> names[q] in t.columns
    ensures var c := names[j];
            var k := Col(t, c);
            MinsOver(cfg, t, names[..j + 1])
            == if NumericColumn(t, k) && ColumnMin(cfg, t, k).Some?
               then MinsOver(cfg, t, names[..j])[c := ColumnMin(cfg, t, k).value]
               else MinsOver(cfg, t, names[..j])
  {
    assert names[..j + 1][..j] == names[..j];
  }

  // ---------------------------------------------------------------------
  // Cells

  function Abs(x: real): real {
    if x < 0.0 then -x else x
  }

  /** The LaTeX prefix of the first suffix rule, in configuration order,
      whose suffix ends the row's first-column text; "" when none does. */
  function SuffixPrefix(model: string, rules: Manager.Suffixes): (r: string)
    ensures (forall k :: 0 <= k < |rules| ==> !EndsWith(model, rules[k].0)) ==> r == ""
    ensures forall k :: (0 <= k < |rules| && EndsWith(model, rules[k].0)
                         && forall m :: 0 <= m < k ==> !EndsWith(model, rules[m].0)) ==> r == rules[k].1
  {
    if |rules| == 0 then ""
    else if EndsWith(model, rules[0].0) then rules[0].1
    else
      var r := SuffixPrefix(model, rules[1..]);
      assert forall k :: 1 <= k < |rules| ==> rules[k] == rules[1..][k - 1];
      r
  }

  /** The digits of a number: the column's own format spec when it is set,
      non-empty and accepted, the fixed-point default otherwise. */
  function NumberBody(cfg: Manager.Config, fmts: NumberFormats, v: Cell, col: string, places: nat): string {
    match Manager.ColumnFormat(cfg, col)
    case Some(spec) =>
      if spec == "" then fmts.fixed(v, places)
      else (match fmts.custom(v, spec)
            case Some(s) => s
            case None => fmts.fixed(v, places))
    case None => fmts.fixed(v, places)
  }

  /** A number within the tolerance of its column's recorded minimum. */
  predicate Underlined(v: Cell, col: string, mins: map<string, real>)
    requires IsNumeric(v)
  {
    col in mins && Abs(NumValue(v) - mins[col]) < Tolerance
  }

  /** `_format_cell_value`: the first column shows its LaTeX display name
      (the text itself when none is configured); a number is set in math
      mode behind its row's suffix prefix, underlined near the minimum; any
      other value is shown as it is. */
  function CellText(cfg: Manager.Config, fmts: NumberFormats, v: Cell, col: string, model: string,
                    mins: map<string, real>, places: nat, isFirst: bool): string
  {
    if isFirst then Manager.Lookup(cfg.latexModelNames, Show(v), Show(v))
    else if IsNumeric(v) then
      var body := NumberBody(cfg, fmts, v, col, places);
      "$" + SuffixPrefix(model, cfg.modelPatterns)
          + (if Underlined(v, col, mins) then "\\underline{" + body + "}" else body) + "$"
    else Show(v)
  }

  method FormatCellValue(cfg: Manager.Config, fmts: NumberFormats, v: Cell, col: string, model: string,
                         mins: map<string, real>, places: nat, isFirst: bool) returns (text: string)
    ensures text == CellText(cfg, fmts, v, col, model, mins, places, isFirst)
  {
    if isFirst {
      return Manager.Lookup(cfg.latexModelNames, Show(v), Show(v));
    }
    if !IsNumeric(v) {
      return Show(v);
    }
    var body := NumberBody(cfg, fmts, v, col, places);
    var rules := cfg.modelPatterns;
    var prefix := "";
    var k := 0;
    while k < |rules|
      invariant 0 <= k <= |rules| && prefix == ""
      invariant SuffixPrefix(model, rules) == SuffixPrefix(model, rules[k..])
    {
      if EndsWith(model, rules[k].0) {
        prefix := rules[k].1;
        break;
      }
      assert rules[k..][1..] == rules[k + 1..];
      k := k + 1;
    }
    if Underlined(v, col, mins) {
      body := "\\underline{" + body + "}";
    }
    text := "$" + prefix + body + "$";
  }

  /** The numeric cell of an eligible row that holds its column's minimum is underlined. */
  lemma MinimumIsUnderlined(cfg: Manager.Config, fmts: NumberFormats, t: Processing.Table, cols: seq<string>,
                            r: nat, j: nat, model: string, places: nat)
    requires forall q :: 0 <= q < |cols| ==> cols[q] in t.columns
    requires 1 <= j < |cols| && r < |t.rows|
    requires NumericColumn(t, Col(t, cols[j])) && Eligible(cfg, t, t.rows[r])
    requires forall i :: 0 <= i < |t.rows| && Eligible(cfg, t, t.rows[i]) ==>
               NumValue(t.rows[r].cells[Col(t, cols[j])]) <= NumValue(t.rows[i].cells[Col(t, cols[j])])
    ensures var v := t.rows[r].cells[Col(t, cols[j])];
            CellText(cfg, fmts, v, cols[j], model, MinsOver(cfg, t, Rest(cols)), places, false)
            == "$" + SuffixPrefix(model, cfg.modelPatterns) + "\\underline{" + NumberBody(cfg, fmts, v, cols[j], places) + "}$"
  {
    var c := cols[j];
    var mins := MinsOver(cfg, t, Rest(cols));
    assert c == Rest(cols)[j - 1];
    MinValuesMeaning(cfg, t, Rest(cols), c);
    assert c in mins;
  }

  /** A number at least the tolerance above some eligible row's value in its
      column is not underlined, whatever rows are left out of the calculation. */
  lemma AboveMinimumNotUnderlined(cfg: Manager.Config, fmts: NumberFormats, t: Processing.Table, cols: seq<string>,
                                  v: Cell, j: nat, i: nat, model: string, places: nat)
    requires forall q :: 0 <= q < |cols| ==> cols[q] in t.columns
    requires 1 <= j < |cols| && i < |t.rows| && IsNumeric(v)
    requires NumericColumn(t, Col(t, cols[j])) && Eligible(cfg, t, t.rows[i])
    requires NumValue(t.rows[i].cells[Col(t, cols[j])]) + Tolerance <= NumValue(v)
    ensures CellText(cfg, fmts, v, cols[j], model, MinsOver(cfg, t, Rest(cols)), places, false)
            == "$" + SuffixPrefix(model, cfg.modelPatterns) + NumberBody(cfg, fmts, v, cols[j], places) + "$"
  {
    MinValuesMeaning(cfg, t, Rest(cols), cols[j]);
  }

  /** The per-column and global underline switches play no part in the
      rendered cells. */
  lemma UnderlineIgnoresColumnSetting(cfg: Manager.Config, fmts: NumberFormats, v: Cell, col: string, model: string,
                                      mins: map<string, real>, places: nat, isFirst: bool,
                                      columnUnderline: map<string, bool>, underlineMinValues: bool)
    ensures CellText(cfg.(columnUnderline := columnUnderline, underlineMinValues := underlineMinValues),
                     fmts, v, col, model, mins, places, isFirst)
         == CellText(cfg, fmts, v, col, model, mins, places, isFirst)
  {
  }

  /** A column format that the format mini-language rejects falls back to
      the fixed-point default. */
  lemma RejectedFormatFallsBack(cfg: Manager.Config, fmts: NumberFormats, v: Cell, col: string, places: nat)
    requires col in cfg.columnFormats && fmts.custom(v, cfg.columnFormats[col]) == None
    ensures NumberBody(cfg, fmts, v, col, places) == fmts.fixed(v, places)
  {
  }

  // ---------------------------------------------------------------------
  // Preamble, header line and footer

  /** One `c` per column. */
  function ColumnSpec(n: nat): (r: string)
    ensures |r| == n && forall k :: 0 <= k < n ==> r[k] == 'c'
  {
    if n == 0 then "" else ColumnSpec(n - 1) + "c"
  }

  /** `_build_table_header`. */
  function TableHeader(cfg: Manager.Config, numCols: nat): string {
    "\\begin{table}[t]\n\\centering\n\\caption{Your Caption Here}\n\\begin{tabular}{"
      + ColumnSpec(numCols + |cfg.extraColumns|) + "}\n\\hline\n"
  }

  function Bold(h: string): string {
    "\\textbf{" + h + "}"
  }

  /** The header line for the given header names. */
  function HeaderLine(headers: seq<string>): string {
    Join(seq(|headers|, j requires 0 <= j < |headers| => Bold(headers[j])), " & ") + " \\\\\n\\hline\n"
  }

  /** `_build_table_headers`: each extra column's name is inserted at its
      position when that position is below the current number of headers. */
  method BuildTableHeaders(cfg: Manager.Config, displayNames: seq<string>) returns (line: string)
    ensures line == HeaderLine(Layout.HeaderNames(displayNames, cfg.extraColumns))
  {
    var extras := cfg.extraColumns;
    var headers := displayNames;
    for k := 0 to |extras|
      invariant headers == Layout.HeaderNames(displayNames, extras[..k])
    {
      assert extras[..k + 1][..k] == extras[..k];
      var position := extras[k].position;
      if position < |headers| {
        headers := Layout.PyInsert(headers, position, extras[k].displayName);
      }
    }
    assert extras[..|extras|] == extras;
    var bold := seq(|headers|, j requires 0 <= j < |headers| => Bold(headers[j]));
    line := Join(bold, " & ") + " \\\\\n\\hline\n";
  }

  // ---------------------------------------------------------------------
  // Rows

  /** The text of one cell of a row, given the texts of its real cells. */
  function SlotText(extras: seq<Manager.ExtraColumn>, texts: seq<string>, s: Layout.Slot): string {
    match s
    case Real(i) => if i < |texts| then texts[i] else ""
    case Extra(k) => if k < |extras| then extras[k].value else ""
  }

  function Render(extras: seq<Manager.ExtraColumn>, texts: seq<string>, slots: seq<Layout.Slot>): (r: seq<string>)
    ensures |r| == |slots|
  {
    seq(|slots|, j requires 0 <= j < |slots| => SlotText(extras, texts, slots[j]))
  }

  /** The cells of a row, real and extra, in output order. */
  function RowValues(cfg: Manager.Config, texts: seq<string>): seq<string> {
    Render(cfg.extraColumns, texts, Layout.Layout(cfg.extraColumns, |texts|))
  }

  /** The formatted real cells of a row; the first one names the row. */
  function Texts(cfg: Manager.Config, fmts: NumberFormats, cells: seq<Cell>, cols: seq<string>,
                 mins: map<string, real>, places: nat): (r: seq<string>)
    requires |cells| == |cols| > 0
    ensures |r| == |cells|
  {
    seq(|cells|, i requires 0 <= i < |cells| => CellText(cfg, fmts, cells[i], cols[i], Show(cells[0]), mins, places, i == 0))
  }

  /** The values of the extra columns `ks`, in that order. */
  function ExtraValues(extras: seq<Manager.ExtraColumn>, ks: seq<nat>): (r: seq<string>)
    ensures |r| == |ks|
  {
    seq(|ks|, j requires 0 <= j < |ks| => if ks[j] < |extras| then extras[ks[j]].value else "")
  }

  /** One real column of a row: the extra columns the `while` loop places
      before it, its own text, then the rest of the row. */
  lemma RenderUnfold(extras: seq<Manager.ExtraColumn>, texts: seq<string>, n: nat, i: nat, pos: int)
    requires i < n && i < |texts|
    ensures Render(extras, texts, Layout.SlotsFrom(extras, n, i, pos))
         == ExtraValues(extras, Layout.Lead(extras, pos)) + [texts[i]]
            + Render(extras, texts, Layout.SlotsFrom(extras, n, i + 1, Layout.Advance(extras, pos)))
  {
    var lead := Layout.ExtraSlots(Layout.Lead(extras, pos));
    var rest := Layout.SlotsFrom(extras, n, i + 1, Layout.Advance(extras, pos));
    Layout.SlotsUnfold(extras, n, i, pos);
    assert Render(extras, texts, lead + [Layout.Real(i)] + rest)
        == Render(extras, texts, lead) + [texts[i]] + Render(extras, texts, rest);
  }

  lemma RenderExtraSlots(extras: seq<Manager.ExtraColumn>, texts: seq<string>, ks: seq<nat>)
    ensures Render(extras, texts, Layout.ExtraSlots(ks)) == ExtraValues(extras, ks)
  {
  }

  /** The `while` loop of `_build_table_rows`: while some extra column sits
      at the current position, the first such column's value is appended
      and the position advances. */
  method PlaceExtras(extras: seq<Manager.ExtraColumn>, pos: int, values: seq<string>) returns (r: seq<string>, next: int)
    ensures next == pos + |Layout.Lead(extras, pos)| && !Layout.HasAt(extras, next)
    ensures r == values + ExtraValues(extras, Layout.Lead(extras, pos))
  {
    r, next := values, pos;
    ghost var ks: seq<nat> := [];
    while Layout.HasAt(extras, next)
      invariant Layout.Lead(extras, pos) == ks + Layout.Lead(extras, next)
      invariant next == pos + |ks|
      invariant r == values + ExtraValues(extras, ks)
      decreases Layout.MaxPosition(extras) - next
    {
      var k := Layout.FirstAt(extras, next);
      assert Layout.Lead(extras, next) == [k] + Layout.Lead(extras, next + 1);
      r := r + [extras[k].value];
      ks := ks + [k];
      next := next + 1;
    }
    assert Layout.Lead(extras, next) == [];
  }

  /** The body of the row loop of `_build_table_rows`: the cells of one row. */
  method BuildRowValues(cfg: Manager.Config, fmts: NumberFormats, cells: seq<Cell>, cols: seq<string>,
                        mins: map<string, real>, places: nat) returns (values: seq<string>)
    requires |cells| == |cols| > 0
    ensures values == RowValues(cfg, Texts(cfg, fmts, cells, cols, mins, places))
  {
    var extras := cfg.extraColumns;
    ghost var texts := Texts(cfg, fmts, cells, cols, mins, places);
    ghost var n := |cells|;
    ghost var goal := RowValues(cfg, texts);
    values := [];
    var currentPos := 0;
    var currentModel := Show(cells[0]);
    for i := 0 to |cells|
      invariant currentPos == |values|
      invariant values + Render(extras, texts, Layout.SlotsFrom(extras, n, i, currentPos)) == goal
    {
      ghost var pos0, before := currentPos, values;
      values, currentPos := PlaceExtras(extras, currentPos, values);
      var text := FormatCellValue(cfg, fmts, cells[i], cols[i], currentModel, mins, places, i == 0);
      values := values + [text];
      currentPos := currentPos + 1;
      assert values + Render(extras, texts, Layout.SlotsFrom(extras, n, i + 1, currentPos)) == goal by {
        assert text == texts[i];
        RowAdvance(extras, texts, n, i, pos0, before, goal);
      }
    }
    assert values + ExtraValues(extras, Layout.Trail(extras, currentPos, |extras|)) == goal by {
      RowEnd(extras, texts, n, currentPos, values, goal);
    }
    values := AppendTrailingExtras(extras, currentPos, values);
  }

  /** One step of the row loop: the extra columns the `while` loop places,
      then the real cell, then the rest of the row. */
  lemma RowAdvance(extras: seq<Manager.ExtraColumn>, texts: seq<string>, n: nat, i: nat, pos: int,
                   before: seq<string>, goal: seq<string>)
    requires i < n && i < |texts|
    requires before + Render(extras, texts, Layout.SlotsFrom(extras, n, i, pos)) == goal
    ensures before + ExtraValues(extras, Layout.Lead(extras, pos)) + [texts[i]]
            + Render(extras, texts, Layout.SlotsFrom(extras, n, i + 1, Layout.Advance(extras, pos))) == goal
  {
    RenderUnfold(extras, texts, n, i, pos);
    AppendAssoc(before, ExtraValues(extras, Layout.Lead(extras, pos)), [texts[i]],
                Render(extras, texts, Layout.SlotsFrom(extras, n, i + 1, Layout.Advance(extras, pos))));
  }

  /** After the last real cell only the trailing extra columns remain. */
  lemma RowEnd(extras: seq<Manager.ExtraColumn>, texts: seq<string>, n: nat, pos: int,
               before: seq<string>, goal: seq<string>)
    requires before + Render(extras, texts, Layout.SlotsFrom(extras, n, n, pos)) == goal
    ensures before + ExtraValues(extras, Layout.Trail(extras, pos, |extras|)) == goal
  {
    RenderExtraSlots(extras, texts, Layout.Trail(extras, pos, |extras|));
  }

  lemma AppendAssoc<T>(a: seq<T>, b: seq<T>, c: seq<T>, d: seq<T>)
    ensures a + b + c + d == a + (b + c + d)
  {
  }

  /** The last loop of `_build_table_rows`: the extra columns positioned at
      or beyond the end of the row follow it, in configuration order. */
  method AppendTrailingExtras(extras: seq<Manager.ExtraColumn>, pos: int, values: seq<string>) returns (r: seq<string>)
    ensures r == values + ExtraValues(extras, Layout.Trail(extras, pos, |extras|))
  {
    r := values;
    for k := 0 to |extras|
      invariant r == values + ExtraValues(extras, Layout.Trail(extras, pos, k))
    {
      assert Layout.Trail(extras, pos, k + 1)
          == Layout.Trail(extras, pos, k) + (if extras[k].position >= pos then [k] else []);
      if extras[k].position >= pos {
        r := r + [extras[k].value];
      }
    }
  }

  /** The cells of the selected columns of a row, in selection order. */
  function Project(t: Processing.Table, row: Processing.Row, cols: seq<string>): (r: seq<Cell>)
    requires |row.cells| == |t.columns|
    requires forall j :: 0 <= j < |cols| ==> cols[j] in t.columns
    ensures |r| == |cols|
  {
    seq(|cols|, j requires 0 <= j < |cols| => row.cells[Col(t, cols[j])])
  }

  function RowLine(values: seq<string>): string {
    Join(values, " & ") + " \\\\\n"
  }

  /** The lines of the first `k` rows. */
  function RowsText(cfg: Manager.Config, fmts: NumberFormats, t: Processing.Table, cols: seq<string>,
                    mins: map<string, real>, places: nat, k: nat): string
    requires Processing.WellFormed(t) && k <= |t.rows| && |cols| > 0
    requires forall j :: 0 <= j < |cols| ==> cols[j] in t.columns
  {
    if k == 0 then ""
    else
      var cells := Project(t, t.rows[k - 1], cols);
      RowsText(cfg, fmts, t, cols, mins, places, k - 1) + RowLine(RowValues(cfg, Texts(cfg, fmts, cells, cols, mins, places)))
  }

  /** `_build_table_rows`. */
  method BuildTableRows(cfg: Manager.Config, fmts: NumberFormats, t: Processing.Table, cols: seq<string>,
                        mins: map<string, real>, places: nat) returns (latex: string)
    requires Processing.WellFormed(t) && |cols| > 0
    requires forall j :: 0 <= j < |cols| ==> cols[j] in t.columns
    ensures latex == RowsText(cfg, fmts, t, cols, mins, places, |t.rows|)
  {
    latex := "";
    for r := 0 to |t.rows|
      invariant latex == RowsText(cfg, fmts, t, cols, mins, places, r)
    {
      var cells := Project(t, t.rows[r], cols);
      var values := BuildRowValues(cfg, fmts, cells, cols, mins, places);
      latex := latex + Join(values, " & ") + " \\\\\n";
    }
  }

  // ---------------------------------------------------------------------
  // The whole table

  function Keys(selected: seq<(string, string)>): (r: seq<string>)
    ensures |r| == |selected| && forall j :: 0 <= j < |selected| ==> r[j] == selected[j].0
  {
    seq(|selected|, j requires 0 <= j < |selected| => selected[j].0)
  }

  function Titles(selected: seq<(string, string)>): (r: seq<string>)
    ensures |r| == |selected| && forall j :: 0 <= j < |selected| ==> r[j] == selected[j].1
  {
    seq(|selected|, j requires 0 <= j < |selected| => selected[j].1)
  }

  /** The table for a non-empty selection of (column, display name) pairs. */
  function TableText(cfg: Manager.Config, fmts: NumberFormats, t: Processing.Table,
                     selected: seq<(string, string)>, places: nat): string
    requires Processing.WellFormed(t) && |selected| > 0
    requires forall j :: 0 <= j < |selected| ==> selected[j].0 in t.columns
  {
    var cols := Keys(selected);
    var mins := MinsOver(cfg, t, Rest(cols));
    Assemble(TableHeader(cfg, |cols|),
             HeaderLine(Layout.HeaderNames(Titles(selected), cfg.extraColumns)),
             RowsText(cfg, fmts, t, cols, mins, places, |t.rows|))
  }

  /** A table opens with its preamble, whose column specification has one
      letter per selected and per extra column (`ColumnSpec`), and closes
      with the footer. */
  function Assemble(preamble: string, headerLine: string, rows: string): (r: string)
    ensures StartsWith(r, preamble) && EndsWith(r, TableFooter)
    ensures |r| == |preamble| + |headerLine| + |rows| + |TableFooter|
  {
    var r := preamble + headerLine + rows + TableFooter;
    assert r[..|preamble|] == preamble;
    assert r[|r| - |TableFooter|..] == TableFooter;
    r
  }

  /** The number of decimal places `generate_latex_table` uses when the
      caller gives none. */
  const DefaultDecimalPlaces: nat := 4

  /** `generate_latex_table`; a caller that omits the decimal places passes
      `DefaultDecimalPlaces`. */
  method GenerateLatexTable(cfg: Manager.Config, fmts: NumberFormats, t: Processing.Table,
                            selected: seq<(string, string)>, places: nat) returns (latex: string)
    requires Processing.WellFormed(t)
    requires forall j :: 0 <= j < |selected| ==> selected[j].0 in t.columns
    ensures |selected| == 0 ==> latex == NoColumnsMessage
    ensures |selected| > 0 ==> latex == TableText(cfg, fmts, t, selected, places)
  {
    var displayNames := Titles(selected);
    var cols := Keys(selected);
    if |cols| == 0 {
      return NoColumnsMessage;
    }
    var mins := CalculateMinValues(cfg, t, cols);
    latex := TableHeader(cfg, |cols|);
    var headers := BuildTableHeaders(cfg, displayNames);
    latex := latex + headers;
    var rows := BuildTableRows(cfg, fmts, t, cols, mins, places);
    latex := latex + rows;
    latex := latex + TableFooter;
  }
}
