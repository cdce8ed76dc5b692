/// The row filters and sorters of the data processor: ad hoc filters
/// combined with AND, a multi-key sort, the legacy `model` exclusion and
/// ordering, and the configuration-driven exclusion and rank sort. Every
/// operation returns a subsequence or a permutation of the input rows.
module Processing {
  import opened Values
  import Manager
  import Ordering

  /** A data-frame row: its index label and its cells, one per column. */
  datatype Row = Row(index: int, cells: seq<Cell>)

  /** A data frame: column names and rows. */
  datatype Table = Table(columns: seq<string>, rows: seq<Row>)

  predicate Distinct(names: seq<string>) {
    forall i, j :: 0 <= i < j < |names| ==> names[i] != names[j]
  }

  /** Distinct column names and one cell per column in every row. */
  predicate WellFormed(t: Table) {
    Distinct(t.columns) && forall i :: 0 <= i < |t.rows| ==> |t.rows[i].cells| == |t.columns|
  }

  /** Position of the first column called `name`. */
  function IndexOf(names: seq<string>, name: string): (r: Option<nat>)
    ensures r.Some? <==> name in names
    ensures r.Some? ==> r.value < |names| && names[r.value] == name
  {
    if |names| == 0 then None
    else if names[0] == name then Some(0)
    else match IndexOf(names[1..], name)
      case None => None
      case Some(k) => Some(k + 1)
  }

  /** `a` is `b` with some elements left out, the rest in their order. */
  predicate IsSubsequence<T(==)>(a: seq<T>, b: seq<T>)
    decreases |b|
  {
    |a| == 0 || (|b| > 0 && ((a[0] == b[0] && IsSubsequence(a[1..], b[1..])) || IsSubsequence(a, b[1..])))
  }

  /** `df[mask]`: the rows whose mask entry is true, in order. */
  function Select(rows: seq<Row>, mask: seq<bool>): (r: seq<Row>)
    requires |mask| == |rows|
    ensures |r| <= |rows|
  {
    if |rows| == 0 then [] else (if mask[0] then [rows[0]] else []) + Select(rows[1..], mask[1..])
  }

  lemma {:induction false} SelectIsSubsequence(rows: seq<Row>, mask: seq<bool>)
    requires |mask| == |rows|
    ensures IsSubsequence(Select(rows, mask), rows)
  {
    if |rows| > 0 {
      SelectIsSubsequence(rows[1..], mask[1..]);
      var s := Select(rows, mask);
      if mask[0] {
        assert s[0] == rows[0] && s[1..] == Select(rows[1..], mask[1..]);
      } else {
        assert s == Select(rows[1..], mask[1..]);
      }
    }
  }

  lemma {:induction false} SelectMembership(rows: seq<Row>, mask: seq<bool>, x: Row)
    requires |mask| == |rows|
    ensures x in Select(rows, mask) <==> exists i :: 0 <= i < |rows| && mask[i] && rows[i] == x
  {
    if |rows| > 0 {
      SelectMembership(rows[1..], mask[1..], x);
      if exists i :: 1 <= i < |rows| && mask[i] && rows[i] == x {
        var i :| 1 <= i < |rows| && mask[i] && rows[i] == x;
        assert mask[1..][i - 1] && rows[1..][i - 1] == x;
      }
      if exists i :: 0 <= i < |rows[1..]| && mask[1..][i] && rows[1..][i] == x {
        var i :| 0 <= i < |rows[1..]| && mask[1..][i] && rows[1..][i] == x;
        assert mask[i + 1] && rows[i + 1] == x;
      }
    }
  }

  lemma {:induction false} SelectAll(rows: seq<Row>, mask: seq<bool>)
    requires |mask| == |rows| && forall i :: 0 <= i < |mask| ==> mask[i]
    ensures Select(rows, mask) == rows
  {
    if |rows| > 0 {
      SelectAll(rows[1..], mask[1..]);
    }
  }

  /** When the mask is a test on the row itself, the selection keeps every
      copy of a row that passes and no copy of one that fails. */
  lemma {:induction false} SelectCopies(rows: seq<Row>, mask: seq<bool>, keep: Row -> bool)
    requires |mask| == |rows| && forall i :: 0 <= i < |rows| ==> mask[i] == keep(rows[i])
    ensures forall x :: multiset(Select(rows, mask))[x] == if keep(x) then multiset(rows)[x] else 0
  {
    if |rows| > 0 {
      assert forall i :: 0 <= i < |rows| - 1 ==> mask[1..][i] == keep(rows[1..][i]) by {
        forall i | 0 <= i < |rows| - 1 ensures mask[1..][i] == keep(rows[1..][i]) {
          assert mask[1..][i] == mask[i + 1] && rows[1..][i] == rows[i + 1];
        }
      }
      SelectCopies(rows[1..], mask[1..], keep);
      assert rows == [rows[0]] + rows[1..];
    }
  }

  /** With distinct labels, a row of the input is in the selection exactly
      when its mask entry is true. */
  lemma SelectByLabel(rows: seq<Row>, mask: seq<bool>)
    requires |mask| == |rows|
    requires forall i, j :: 0 <= i < j < |rows| ==> rows[i].index != rows[j].index
    ensures forall i :: 0 <= i < |rows| ==> (rows[i] in Select(rows, mask) <==> mask[i])
  {
    forall i | 0 <= i < |rows|
      ensures rows[i] in Select(rows, mask) <==> mask[i]
    {
      SelectMembership(rows, mask, rows[i]);
    }
  }

  // ---------------------------------------------------------------------
  // apply_filters

  /** A filter of the filter dialog. `Unrecognized` stands for any other
      filter type, which constrains nothing. */
  datatype Filter =
    | Range(min: Option<real>, max: Option<real>)
    | EqualTo(value: Cell)
    | GreaterThan(bound: real)
    | LessThan(bound: real)
    | Unrecognized

  datatype Error = KeyError(column: string) | TypeError(column: string)

  datatype Result<T> = Ok(value: T) | Err(error: Error)

  /** The filter reads its column (`range` without bounds does not). */
  predicate Reads(f: Filter) {
    match f
    case Range(lo, hi) => lo.Some? || hi.Some?
    case Unrecognized => false
    case _ => true
  }

  /** The filter compares with `<`, `<=`, `>` or `>=`, which raises on text. */
  predicate Orders(f: Filter) {
    f.Range? || f.GreaterThan? || f.LessThan?
  }

  /** The filter keeps a row with this cell. */
  predicate Admits(f: Filter, c: Cell) {
    match f
    case Range(lo, hi) =>
      (lo.None? || (IsNumeric(c) && NumValue(c) >= lo.value))
      && (hi.None? || (IsNumeric(c) && NumValue(c) <= hi.value))
    case EqualTo(v) =>
      if IsNumeric(v) then IsNumeric(c) && NumValue(c) == NumValue(v)
      else Show(c) == Show(v)
    case GreaterThan(b) => IsNumeric(c) && NumValue(c) > b
    case LessThan(b) => IsNumeric(c) && NumValue(c) < b
    case Unrecognized => true
  }

  /** Applying filter `f` to column `col` raises: the column is missing, or
      an ordering comparison meets a text cell. */
  predicate Faulty(t: Table, col: string, f: Filter) {
    Reads(f) &&
    (col !in t.columns ||
     (Orders(f) && exists i :: 0 <= i < |t.rows| && IndexOf(t.columns, col).value < |t.rows[i].cells|
                             && !IsNumeric(t.rows[i].cells[IndexOf(t.columns, col).value])))
  }

  /** Row `r` satisfies the filter on `col`. */
  predicate RowAdmits(t: Table, r: Row, col: string, f: Filter) {
    !Reads(f) ||
    (col in t.columns && IndexOf(t.columns, col).value < |r.cells|
     && Admits(f, r.cells[IndexOf(t.columns, col).value]))
  }

  /** Row `r` satisfies every filter. */
  predicate Passes(t: Table, filters: seq<(string, Filter)>, r: Row) {
    forall k :: 0 <= k < |filters| ==> RowAdmits(t, r, filters[k].0, filters[k].1)
  }

  /** Which rows pass every filter. */
  function PassMask(t: Table, filters: seq<(string, Filter)>): (mask: seq<bool>)
    ensures |mask| == |t.rows| && forall i :: 0 <= i < |t.rows| ==> mask[i] == Passes(t, filters, t.rows[i])
  {
    seq(|t.rows|, i requires 0 <= i < |t.rows| => Passes(t, filters, t.rows[i]))
  }

  /** `apply_filters`: without filters the table itself; otherwise an error
      when a filter cannot be evaluated, else the rows that pass every filter. */
  method ApplyFilters(t: Table, filters: seq<(string, Filter)>) returns (r: Result<Table>)
    requires WellFormed(t)
    ensures |filters| == 0 ==> r == Ok(t)
    ensures |filters| > 0 ==> (r.Err? <==> exists k :: 0 <= k < |filters| && Faulty(t, filters[k].0, filters[k].1))
    ensures r.Ok? ==> r.value.columns == t.columns && IsSubsequence(r.value.rows, t.rows)
    ensures r.Ok? ==> forall x :: x in r.value.rows <==> x in t.rows && Passes(t, filters, x)
    ensures r.Ok? ==> forall x :: multiset(r.value.rows)[x] == if Passes(t, filters, x) then multiset(t.rows)[x] else 0
    ensures r.Ok? ==> r.value == t.(rows := Select(t.rows, PassMask(t, filters)))
  {
    if |filters| == 0 {
      IsSubsequenceReflexive(t.rows);
      SelectAll(t.rows, PassMask(t, filters));
      return Ok(t);
    }
    var mask := seq(|t.rows|, _ => true);
    var k := 0;
    while k < |filters|
      invariant 0 <= k <= |filters|
      invariant |mask| == |t.rows|
      invariant forall j :: 0 <= j < k ==> !Faulty(t, filters[j].0, filters[j].1)
      invariant forall i :: 0 <= i < |t.rows| ==>
                  (mask[i] <==> forall j :: 0 <= j < k ==> RowAdmits(t, t.rows[i], filters[j].0, filters[j].1))
    {
      var (col, f) := filters[k];
      if Reads(f) {
        var idx := IndexOf(t.columns, col);
        if idx.None? {
          return Err(KeyError(col));
        }
        var c := idx.value;
        var ok, next := NarrowMask(t, f, c, mask);
        if !ok {
          assert Faulty(t, col, f);
          return Err(TypeError(col));
        }
        mask := next;
      }
      k := k + 1;
    }
    FilteredRows(t, filters, mask);
    assert mask == PassMask(t, filters);
    return Ok(t.(rows := Select(t.rows, mask)));
  }

  /** One filter's pass over column `c`: `false` when an ordering filter
      meets a text cell, otherwise the mask narrowed to the rows it admits. */
  method NarrowMask(t: Table, f: Filter, c: nat, mask: seq<bool>) returns (ok: bool, next: seq<bool>)
    requires WellFormed(t) && c < |t.columns| && |mask| == |t.rows|
    ensures ok <==> !(Orders(f) && exists i :: 0 <= i < |t.rows| && !IsNumeric(t.rows[i].cells[c]))
    ensures ok ==> |next| == |t.rows| && forall m :: 0 <= m < |t.rows| ==> next[m] == (mask[m] && Admits(f, t.rows[m].cells[c]))
  {
    next := mask;
    var i := 0;
    while i < |t.rows|
      invariant 0 <= i <= |t.rows|
      invariant |next| == |t.rows|
      invariant Orders(f) ==> forall m :: 0 <= m < i ==> IsNumeric(t.rows[m].cells[c])
      invariant forall m :: 0 <= m < |t.rows| ==>
                  next[m] == (mask[m] && (m < i ==> Admits(f, t.rows[m].cells[c])))
    {
      var cell := t.rows[i].cells[c];
      if Orders(f) && !IsNumeric(cell) {
        return false, next;
      }
      next := next[i := next[i] && Admits(f, cell)];
      i := i + 1;
    }
    return true, next;
  }

  /** Selecting by the mask of rows that pass every filter keeps exactly those rows, in order. */
  lemma FilteredRows(t: Table, filters: seq<(string, Filter)>, mask: seq<bool>)
    requires |mask| == |t.rows|
    requires forall i :: 0 <= i < |t.rows| ==>
               (mask[i] <==> forall j :: 0 <= j < |filters| ==> RowAdmits(t, t.rows[i], filters[j].0, filters[j].1))
    ensures IsSubsequence(Select(t.rows, mask), t.rows)
    ensures forall x :: x in Select(t.rows, mask) <==> x in t.rows && Passes(t, filters, x)
    ensures forall x :: multiset(Select(t.rows, mask))[x] == if Passes(t, filters, x) then multiset(t.rows)[x] else 0
  {
    SelectIsSubsequence(t.rows, mask);
    SelectCopies(t.rows, mask, x => Passes(t, filters, x));
    forall x ensures x in Select(t.rows, mask) <==> x in t.rows && Passes(t, filters, x) {
      SelectMembership(t.rows, mask, x);
    }
  }

  // ---------------------------------------------------------------------
  // apply_sort

  /** The cells of `r` in the columns `idxs`, in that order: its sort key. */
  function KeyOf(r: Row, idxs: seq<nat>): (key: seq<Cell>)
    requires forall k :: 0 <= k < |idxs| ==> idxs[k] < |r.cells|
    ensures |key| == |idxs| && forall k :: 0 <= k < |idxs| ==> key[k] == r.cells[idxs[k]]
  {
    seq(|idxs|, k requires 0 <= k < |idxs| => r.cells[idxs[k]])
  }

  /** Positions of the named columns; None when one is missing. */
  function ColumnIndices(columns: seq<string>, names: seq<string>): (r: Option<seq<nat>>)
    ensures r.Some? <==> forall k :: 0 <= k < |names| ==> names[k] in columns
    ensures r.Some? ==> |r.value| == |names|
                        && forall k :: 0 <= k < |names| ==> r.value[k] < |columns| && columns[r.value[k]] == names[k]
  {
    if |names| == 0 then Some([])
    else match (IndexOf(columns, names[0]), ColumnIndices(columns, names[1..]))
      case (Some(i), Some(rest)) =>
        assert forall k :: 1 <= k < |names| ==> names[k] == names[1..][k - 1];
        Some([i] + rest)
      case (_, _) =>
        assert forall k :: 1 <= k < |names| ==> names[k] == names[1..][k - 1];
        None
  }

  /** A column holding both numbers and text, which pandas cannot order. */
  predicate Mixed(t: Table, c: nat) {
    (exists i :: 0 <= i < |t.rows| && c < |t.rows[i].cells| && IsNumeric(t.rows[i].cells[c]))
    && (exists i :: 0 <= i < |t.rows| && c < |t.rows[i].cells| && t.rows[i].cells[c].TextV?)
  }

  /** Rows in non-decreasing key order. */
  predicate RowsSorted(rows: seq<Row>, idxs: seq<nat>, dirs: seq<bool>)
    requires forall i, k :: 0 <= i < |rows| && 0 <= k < |idxs| ==> idxs[k] < |rows[i].cells|
  {
    forall i, j :: 0 <= i < j < |rows| ==> Ordering.KeyLe(dirs, KeyOf(rows[i], idxs), KeyOf(rows[j], idxs))
  }

  function KeyRows(rows: seq<Row>, idxs: seq<nat>): (r: seq<Ordering.Keyed<Row>>)
    requires forall i, k :: 0 <= i < |rows| && 0 <= k < |idxs| ==> idxs[k] < |rows[i].cells|
    ensures |r| == |rows| && Ordering.KeysOfWidth(r, |idxs|)
    ensures forall i :: 0 <= i < |rows| ==> r[i] == (KeyOf(rows[i], idxs), rows[i])
  {
    seq(|rows|, i requires 0 <= i < |rows| => (KeyOf(rows[i], idxs), rows[i]))
  }

  /** Sorting rows by the cells in the columns `idxs`, each in its direction. */
  function SortRows(rows: seq<Row>, idxs: seq<nat>, dirs: seq<bool>): (r: seq<Row>)
    requires |idxs| == |dirs|
    requires forall i, k :: 0 <= i < |rows| && 0 <= k < |idxs| ==> idxs[k] < |rows[i].cells|
    ensures multiset(r) == multiset(rows)
    ensures forall i :: 0 <= i < |r| ==> r[i] in rows
    ensures RowsSorted(r, idxs, dirs)
  {
    var keyed := KeyRows(rows, idxs);
    var sorted := Ordering.Sort(dirs, keyed);
    SortedPayloads(dirs, keyed, rows);
    KeysCarried(rows, idxs, keyed, sorted);
    KeysOrdered(idxs, dirs, sorted);
    Ordering.Payloads(sorted)
  }

  /** After sorting, each key is still the key of its own row. */
  lemma KeysCarried(rows: seq<Row>, idxs: seq<nat>, keyed: seq<Ordering.Keyed<Row>>, sorted: seq<Ordering.Keyed<Row>>)
    requires forall i, k :: 0 <= i < |rows| && 0 <= k < |idxs| ==> idxs[k] < |rows[i].cells|
    requires keyed == KeyRows(rows, idxs) && multiset(sorted) == multiset(keyed)
    ensures forall n :: 0 <= n < |sorted| ==> sorted[n].1 in rows
    ensures forall n, k :: 0 <= n < |sorted| && 0 <= k < |idxs| ==> idxs[k] < |sorted[n].1.cells|
    ensures forall n :: 0 <= n < |sorted| ==> sorted[n].0 == KeyOf(sorted[n].1, idxs)
  {
    forall n | 0 <= n < |sorted|
      ensures sorted[n].1 in rows && forall k :: 0 <= k < |idxs| ==> idxs[k] < |sorted[n].1.cells|
    {
      assert sorted[n] in multiset(keyed);
      var j :| 0 <= j < |keyed| && keyed[j] == sorted[n];
    }
    forall n | 0 <= n < |sorted|
      ensures sorted[n].0 == KeyOf(sorted[n].1, idxs)
    {
      assert sorted[n] in multiset(keyed);
      var j :| 0 <= j < |keyed| && keyed[j] == sorted[n];
    }
  }

  lemma KeysOrdered(idxs: seq<nat>, dirs: seq<bool>, sorted: seq<Ordering.Keyed<Row>>)
    requires forall n, k :: 0 <= n < |sorted| && 0 <= k < |idxs| ==> idxs[k] < |sorted[n].1.cells|
    requires forall n :: 0 <= n < |sorted| ==> sorted[n].0 == KeyOf(sorted[n].1, idxs)
    requires Ordering.Sorted(dirs, sorted)
    ensures forall i :: 0 <= i < |sorted| ==> Ordering.Payloads(sorted)[i] == sorted[i].1
    ensures RowsSorted(Ordering.Payloads(sorted), idxs, dirs)
  {
    var r := Ordering.Payloads(sorted);
    forall a, b | 0 <= a < b < |r|
      ensures Ordering.KeyLe(dirs, KeyOf(r[a], idxs), KeyOf(r[b], idxs))
    {
      assert Ordering.KeyLe(dirs, sorted[a].0, sorted[b].0);
    }
  }

  /** `u` holds the rows of `t`, ordered by the key columns, each key
      column ascending or descending as `keys` says. */
  predicate SortedBy(t: Table, keys: seq<(string, bool)>, u: Table) {
    match ColumnIndices(t.columns, Names(keys))
    case None => false
    case Some(idxs) =>
      u.columns == t.columns && multiset(u.rows) == multiset(t.rows)
      && (forall i, k :: 0 <= i < |u.rows| && 0 <= k < |idxs| ==> idxs[k] < |u.rows[i].cells|)
      && RowsSorted(u.rows, idxs, Directions(keys))
  }

  /** Some key column is missing, or the only key column mixes numbers and
      text. A single key is sorted by comparing the cells, which raises on
      a number against a string; several keys are sorted through ordered
      categories, which put the numbers before the strings. */
  predicate Unsortable(t: Table, keys: seq<(string, bool)>) {
    (exists k :: 0 <= k < |keys| && keys[k].0 !in t.columns)
    || (|keys| == 1 && keys[0].0 in t.columns && Mixed(t, IndexOf(t.columns, keys[0].0).value))
  }

  /** `apply_sort`: without keys the table itself; an error when a key
      column is missing or the only key mixes numbers and text; otherwise
      the rows sorted by the key columns, lexicographically, each ascending
      or descending, numbers before strings in a mixed column. */
  function ApplySort(t: Table, keys: seq<(string, bool)>): (r: Result<Table>)
    requires WellFormed(t)
    ensures |keys| == 0 ==> r == Ok(t)
    ensures (exists k :: 0 <= k < |keys| && keys[k].0 !in t.columns) ==> r.Err? && r.error.KeyError?
    ensures r.Err? <==> Unsortable(t, keys)
    ensures r.Ok? ==> SortedBy(t, keys, r.value)
    ensures |keys| > 1 ==> (r.Ok? <==> forall k :: 0 <= k < |keys| ==> keys[k].0 in t.columns)
  {
    if |keys| == 0 then
      assert ColumnIndices(t.columns, Names(keys)) == Some([]);
      Ok(t)
    else
      match ColumnIndices(t.columns, Names(keys))
      case None =>
        Err(KeyError(keys[FirstMissing(t.columns, Names(keys))].0))
      case Some(idxs) =>
        KeyIndices(t, keys, idxs);
        if |keys| == 1 && Mixed(t, idxs[0]) then
          Err(TypeError(keys[0].0))
        else
          Ok(t.(rows := SortRows(t.rows, idxs, Directions(keys))))
  }

  /** Each key column is found at the position `ColumnIndices` reports. */
  lemma KeyIndices(t: Table, keys: seq<(string, bool)>, idxs: seq<nat>)
    requires WellFormed(t) && ColumnIndices(t.columns, Names(keys)) == Some(idxs)
    ensures forall k :: 0 <= k < |keys| ==> keys[k].0 in t.columns && IndexOf(t.columns, keys[k].0).value == idxs[k]
  {
    forall k | 0 <= k < |keys| ensures IndexOf(t.columns, keys[k].0).value == idxs[k] {
      IndexOfDistinct(t.columns, idxs[k]);
    }
  }

  /** Position of the first name that is not a column. */
  function FirstMissing(columns: seq<string>, names: seq<string>): (k: nat)
    requires exists k :: 0 <= k < |names| && names[k] !in columns
    ensures k < |names| && names[k] !in columns
  {
    if names[0] !in columns then 0
    else
      assert forall k :: 1 <= k < |names| ==> names[k] == names[1..][k - 1];
      1 + FirstMissing(columns, names[1..])
  }

  function Names(keys: seq<(string, bool)>): (r: seq<string>)
    ensures |r| == |keys| && forall k :: 0 <= k < |keys| ==> r[k] == keys[k].0
  {
    seq(|keys|, k requires 0 <= k < |keys| => keys[k].0)
  }

  function Directions(keys: seq<(string, bool)>): (r: seq<bool>)
    ensures |r| == |keys| && forall k :: 0 <= k < |keys| ==> r[k] == keys[k].1
  {
    seq(|keys|, k requires 0 <= k < |keys| => keys[k].1)
  }

  /** In a list of distinct names, a name is found at its own position. */
  lemma {:induction false} IndexOfDistinct(names: seq<string>, i: nat)
    requires Distinct(names) && i < |names|
    ensures IndexOf(names, names[i]) == Some(i)
  {
    if i > 0 {
      assert names[0] != names[i];
      assert names[1..][i - 1] == names[i];
      IndexOfDistinct(names[1..], i - 1);
    }
  }

  // ---------------------------------------------------------------------
  // Legacy `model` handling

  /** `matches_ignored_pattern`: some pattern matches `str(name)`. */
  predicate MatchesIgnoredPattern(name: Cell, patterns: set<string>) {
    Manager.AnyMatch(Show(name), patterns)
  }

  /** `isin` with a list of names: a text cell equal to one of them. */
  predicate IsIn(c: Cell, names: set<string>) {
    c.TextV? && c.s in names
  }

  /** The row's cell in column `m` is an ignored model name. */
  predicate ModelIgnored(x: Row, m: nat, ignored: set<string>) {
    m < |x.cells| && IsIn(x.cells[m], ignored)
  }

  /** `filter_ignored_models`: the rows whose `model` is not an ignored name. */
  function FilterIgnoredModels(t: Table, ignored: set<string>): (r: Table)
    requires WellFormed(t)
    ensures "model" !in t.columns ==> r == t
    ensures r.columns == t.columns && IsSubsequence(r.rows, t.rows)
    ensures "model" in t.columns ==> forall x ::
              x in r.rows <==> x in t.rows && !ModelIgnored(x, IndexOf(t.columns, "model").value, ignored)
    ensures "model" in t.columns ==> forall x ::
              multiset(r.rows)[x] == if ModelIgnored(x, IndexOf(t.columns, "model").value, ignored) then 0 else multiset(t.rows)[x]
  {
    match IndexOf(t.columns, "model")
    case None =>
      IsSubsequenceReflexive(t.rows);
      t
    case Some(m) =>
      var mask := seq(|t.rows|, i requires 0 <= i < |t.rows| => !ModelIgnored(t.rows[i], m, ignored));
      SelectIsSubsequence(t.rows, mask);
      forall x ensures x in Select(t.rows, mask) <==> x in t.rows && !ModelIgnored(x, m, ignored) {
        SelectMembership(t.rows, mask, x);
      }
      SelectCopies(t.rows, mask, x => !ModelIgnored(x, m, ignored));
      t.(rows := Select(t.rows, mask))
  }

  lemma {:induction false} IsSubsequenceReflexive<T>(a: seq<T>)
    ensures IsSubsequence(a, a)
  {
    if |a| > 0 {
      IsSubsequenceReflexive(a[1..]);
    }
  }

  /** Keys of one ascending integer column are ordered as the integers. */
  lemma RankKeyLe(a: int, b: int)
    ensures Ordering.KeyLe([true], [IntV(a)], [IntV(b)]) <==> a <= b
  {
    assert [IntV(a)][1..] == [];
  }

  /** `sort_by_model_order`: a copy gets a temporary `_model_order` column
      holding `rank` of each row's model, is sorted by it and loses it again. */
  method SortByModelOrder(t: Table, rank: Cell -> int) returns (r: Table)
    requires WellFormed(t) && "_model_order" !in t.columns
    ensures "model" !in t.columns ==> r == t
    ensures r.columns == t.columns && multiset(r.rows) == multiset(t.rows)
    ensures "model" in t.columns ==>
              var m := IndexOf(t.columns, "model").value;
              (forall i :: 0 <= i < |r.rows| ==> m < |r.rows[i].cells|)
              && forall i, j :: 0 <= i < j < |r.rows| ==> rank(r.rows[i].cells[m]) <= rank(r.rows[j].cells[m])
  {
    var idx := IndexOf(t.columns, "model");
    if idx.None? {
      return t;
    }
    var m := idx.value;
    var keyed := seq(|t.rows|, n requires 0 <= n < |t.rows| => ([IntV(rank(t.rows[n].cells[m]))], t.rows[n]));
    var sorted := Ordering.Sort([true], keyed);
    var rows := Ordering.Payloads(sorted);
    ModelOrderSorted(t, rank, m, keyed);
    return t.(rows := rows);
  }

  /** Every row has a cell `m`, and the ranks of those cells never decrease. */
  predicate RankOrdered(rows: seq<Row>, m: nat, rank: Cell -> int) {
    (forall i :: 0 <= i < |rows| ==> m < |rows[i].cells|)
    && forall a, b :: 0 <= a < b < |rows| ==> rank(rows[a].cells[m]) <= rank(rows[b].cells[m])
  }

  /** Sorting the rows keyed by the rank of their model orders them by that rank. */
  lemma ModelOrderSorted(t: Table, rank: Cell -> int, m: nat, keyed: seq<Ordering.Keyed<Row>>)
    requires WellFormed(t) && m < |t.columns| && |keyed| == |t.rows|
    requires forall n :: 0 <= n < |t.rows| ==> keyed[n] == ([IntV(rank(t.rows[n].cells[m]))], t.rows[n])
    ensures Ordering.KeysOfWidth(keyed, 1)
    ensures multiset(Ordering.Payloads(Ordering.Sort([true], keyed))) == multiset(t.rows)
    ensures RankOrdered(Ordering.Payloads(Ordering.Sort([true], keyed)), m, rank)
  {
    var sorted := Ordering.Sort([true], keyed);
    SortedPayloads([true], keyed, t.rows);
    ModelRanksCarried(t, rank, m, keyed, sorted);
    RanksOrdered(Ordering.Payloads(sorted), m, rank, sorted);
  }

  /** Sorting keyed rows permutes the rows. */
  lemma SortedPayloads(dirs: seq<bool>, keyed: seq<Ordering.Keyed<Row>>, rows: seq<Row>)
    requires Ordering.KeysOfWidth(keyed, |dirs|)
    requires |keyed| == |rows| && forall n :: 0 <= n < |rows| ==> keyed[n].1 == rows[n]
    ensures multiset(Ordering.Payloads(Ordering.Sort(dirs, keyed))) == multiset(rows)
  {
    assert Ordering.Payloads(keyed) == rows;
    Ordering.PayloadsPermutation(Ordering.Sort(dirs, keyed), keyed);
  }

  /** After sorting, each key is still the rank of its own row's model. */
  lemma ModelRanksCarried(t: Table, rank: Cell -> int, m: nat, keyed: seq<Ordering.Keyed<Row>>, sorted: seq<Ordering.Keyed<Row>>)
    requires WellFormed(t) && m < |t.columns| && |keyed| == |t.rows|
    requires forall n :: 0 <= n < |t.rows| ==> keyed[n] == ([IntV(rank(t.rows[n].cells[m]))], t.rows[n])
    requires multiset(sorted) == multiset(keyed)
    ensures forall n :: 0 <= n < |sorted| ==>
              m < |sorted[n].1.cells| && sorted[n].0 == [IntV(rank(sorted[n].1.cells[m]))]
  {
    forall n | 0 <= n < |sorted|
      ensures m < |sorted[n].1.cells| && sorted[n].0 == [IntV(rank(sorted[n].1.cells[m]))]
    {
      assert sorted[n] in multiset(keyed);
      var j :| 0 <= j < |keyed| && keyed[j] == sorted[n];
    }
  }

  lemma RanksOrdered(rows: seq<Row>, m: nat, rank: Cell -> int, sorted: seq<Ordering.Keyed<Row>>)
    requires rows == Ordering.Payloads(sorted)
    requires forall n :: 0 <= n < |sorted| ==>
               m < |sorted[n].1.cells| && sorted[n].0 == [IntV(rank(sorted[n].1.cells[m]))]
    requires Ordering.Sorted([true], sorted)
    ensures RankOrdered(rows, m, rank)
  {
    forall a, b | 0 <= a < b < |rows|
      ensures rank(rows[a].cells[m]) <= rank(rows[b].cells[m])
    {
      assert Ordering.KeyLe([true], sorted[a].0, sorted[b].0);
      RankKeyLe(rank(rows[a].cells[m]), rank(rows[b].cells[m]));
    }
  }

  // ---------------------------------------------------------------------
  // Configuration-driven exclusion and ordering

  /** Whether row `i` survives `filter_excluded_values`: no column's value is excluded. */
  function KeepMask(t: Table, cfg: Manager.Config): (mask: seq<bool>)
    requires WellFormed(t)
    ensures |mask| == |t.rows|
    ensures forall i :: 0 <= i < |t.rows| ==>
              (mask[i] <==> forall c :: 0 <= c < |t.columns| ==> !Manager.ShouldExcludeValue(cfg, t.columns[c], t.rows[i].cells[c]))
  {
    seq(|t.rows|, i requires 0 <= i < |t.rows| =>
      forall c :: 0 <= c < |t.columns| ==> !Manager.ShouldExcludeValue(cfg, t.columns[c], t.rows[i].cells[c]))
  }

  /** `filter_excluded_values`: a mask starts all true; for each column a
      column mask is cleared at the index of every row whose value is
      excluded, and is ANDed into the mask. The labels must be the positions
      `0..n-1`, since the code writes the index through a positional index. */
  method FilterExcludedValues(t: Table, cfg: Manager.Config) returns (r: Table)
    requires WellFormed(t)
    requires forall i :: 0 <= i < |t.rows| ==> t.rows[i].index == i
    ensures r.columns == t.columns && IsSubsequence(r.rows, t.rows)
    ensures forall i :: 0 <= i < |t.rows| ==>
              (t.rows[i] in r.rows <==>
               forall c :: 0 <= c < |t.columns| ==> !Manager.ShouldExcludeValue(cfg, t.columns[c], t.rows[i].cells[c]))
    ensures r.rows == Select(t.rows, KeepMask(t, cfg))
  {
    var n := |t.rows|;
    var mask := seq(n, _ => true);
    var c := 0;
    while c < |t.columns|
      invariant 0 <= c <= |t.columns| && |mask| == n
      invariant forall i :: 0 <= i < n ==>
                  (mask[i] <==> forall d :: 0 <= d < c ==> !Manager.ShouldExcludeValue(cfg, t.columns[d], t.rows[i].cells[d]))
    {
      var col := t.columns[c];
      var colMask := seq(n, _ => true);
      var i := 0;
      while i < n
        invariant 0 <= i <= n && |colMask| == n
        invariant forall j :: 0 <= j < n ==>
                    (colMask[j] <==> (j < i ==> !Manager.ShouldExcludeValue(cfg, col, t.rows[j].cells[c])))
      {
        var row := t.rows[i];
        if Manager.ShouldExcludeValue(cfg, col, row.cells[c]) {
          colMask := colMask[row.index := false];
        }
        i := i + 1;
      }
      mask := seq(n, j requires 0 <= j < n => mask[j] && colMask[j]);
      c := c + 1;
    }
    assert mask == KeepMask(t, cfg);
    SelectIsSubsequence(t.rows, mask);
    SelectByLabel(t.rows, mask);
    r := t.(rows := Select(t.rows, mask));
  }

  /** The configured sort columns that the table has, in configured order. */
  function Available(cfg: Manager.Config, t: Table): (r: seq<string>)
    ensures forall k :: 0 <= k < |r| ==> r[k] in t.columns && r[k] in cfg.rowSorting.columns
    ensures forall c :: c in cfg.rowSorting.columns && c in t.columns ==> c in r
    ensures IsSubsequence(r, cfg.rowSorting.columns)
  {
    PresentIn(cfg.rowSorting.columns, t.columns)
  }

  function PresentIn(names: seq<string>, columns: seq<string>): (r: seq<string>)
    ensures forall k :: 0 <= k < |r| ==> r[k] in columns && r[k] in names
    ensures forall c :: c in names && c in columns ==> c in r
    ensures IsSubsequence(r, names)
  {
    if |names| == 0 then []
    else
      var rest := PresentIn(names[1..], columns);
      assert names == [names[0]] + names[1..];
      if names[0] in columns then
        assert ([names[0]] + rest)[1..] == rest;
        [names[0]] + rest
      else
        rest
  }

  /** A configured sort column the table has appears in `Available` as
      often as it is configured, and no other name appears at all. */
  lemma AvailableCounts(cfg: Manager.Config, t: Table)
    ensures forall c :: multiset(Available(cfg, t))[c] == if c in t.columns then multiset(cfg.rowSorting.columns)[c] else 0
  {
    PresentInCounts(cfg.rowSorting.columns, t.columns);
  }

  lemma {:induction false} PresentInCounts(names: seq<string>, columns: seq<string>)
    ensures forall c :: multiset(PresentIn(names, columns))[c] == if c in columns then multiset(names)[c] else 0
  {
    if |names| > 0 {
      PresentInCounts(names[1..], columns);
      assert names == [names[0]] + names[1..];
    }
  }

  /** The rank vector of a row: `get_sort_order` of its value in each available sort column. */
  function Ranks(cfg: Manager.Config, t: Table, row: Row): (r: seq<int>)
    requires |row.cells| == |t.columns|
    ensures |r| == |Available(cfg, t)|
  {
    var cols := Available(cfg, t);
    seq(|cols|, k requires 0 <= k < |cols| =>
      Manager.SortOrder(cfg, cols[k], row.cells[IndexOf(t.columns, cols[k]).value]))
  }

  /** Lexicographic order on rank vectors of equal length. */
  predicate LexLe(a: seq<int>, b: seq<int>)
    requires |a| == |b|
  {
    |a| == 0 || a[0] < b[0] || (a[0] == b[0] && LexLe(a[1..], b[1..]))
  }

  function IntKey(a: seq<int>): (r: seq<Cell>)
    ensures |r| == |a| && forall k :: 0 <= k < |a| ==> r[k] == IntV(a[k])
  {
    seq(|a|, k requires 0 <= k < |a| => IntV(a[k]))
  }

  function Ascending(n: nat): (r: seq<bool>)
    ensures |r| == n && forall k :: 0 <= k < n ==> r[k]
  {
    seq(n, _ => true)
  }

  /** Ascending integer keys compare exactly as their integer vectors do lexicographically. */
  lemma {:induction false} IntKeyLe(a: seq<int>, b: seq<int>)
    requires |a| == |b|
    ensures Ordering.KeyLe(Ascending(|a|), IntKey(a), IntKey(b)) <==> LexLe(a, b)
    decreases |a|
  {
    if |a| > 0 {
      IntKeyLe(a[1..], b[1..]);
      assert Ascending(|a|)[1..] == Ascending(|a| - 1);
      assert IntKey(a)[1..] == IntKey(a[1..]);
      assert IntKey(b)[1..] == IntKey(b[1..]);
    }
  }

  /** `sort_by_custom_order`: when some configured sort column exists, a copy
      gets one temporary `_sort_<col>` column per available sort column
      holding the rank of the row's value, is sorted ascending by them and
      loses them again; otherwise the table is returned unchanged. */
  method SortByCustomOrder(t: Table, cfg: Manager.Config) returns (r: Table)
    requires WellFormed(t)
    requires Distinct(Available(cfg, t))
    requires forall c :: c in cfg.rowSorting.columns ==> "_sort_" + c !in t.columns
    ensures |Available(cfg, t)| == 0 ==> r == t
    ensures r.columns == t.columns && multiset(r.rows) == multiset(t.rows)
    ensures forall i :: 0 <= i < |r.rows| ==> |r.rows[i].cells| == |t.columns|
    ensures forall i, j :: 0 <= i < j < |r.rows| ==> LexLe(Ranks(cfg, t, r.rows[i]), Ranks(cfg, t, r.rows[j]))
  {
    var cols := Available(cfg, t);
    if |cols| == 0 {
      return t;
    }
    var keyed := RankKeys(t, cfg);
    CustomOrderSorted(t, cfg, keyed);
    var sorted := Ordering.Sort(Ascending(|cols|), keyed);
    var rows := Ordering.Payloads(sorted);
    return t.(rows := rows);
  }

  /** Each row paired with the vector of its ranks, one temporary
      `_sort_<col>` column after another. */
  method RankKeys(t: Table, cfg: Manager.Config) returns (keyed: seq<Ordering.Keyed<Row>>)
    requires WellFormed(t)
    ensures |keyed| == |t.rows|
    ensures forall i :: 0 <= i < |t.rows| ==> keyed[i] == (IntKey(Ranks(cfg, t, t.rows[i])), t.rows[i])
  {
    var cols := Available(cfg, t);
    var n := |t.rows|;
    var keys: seq<seq<Cell>> := seq(n, _ => []);
    for k := 0 to |cols|
      invariant |keys| == n
      invariant forall i :: 0 <= i < n ==> keys[i] == IntKey(Ranks(cfg, t, t.rows[i])[..k])
    {
      var c := IndexOf(t.columns, cols[k]).value;
      var next := seq(n, i requires 0 <= i < n =>
        keys[i] + [IntV(Manager.SortOrder(cfg, cols[k], t.rows[i].cells[c]))]);
      forall j | 0 <= j < n ensures next[j] == IntKey(Ranks(cfg, t, t.rows[j])[..k + 1]) {
        assert Ranks(cfg, t, t.rows[j])[..k + 1] == Ranks(cfg, t, t.rows[j])[..k] + [Ranks(cfg, t, t.rows[j])[k]];
      }
      keys := next;
    }
    keyed := seq(n, i requires 0 <= i < n => (keys[i], t.rows[i]));
    forall i | 0 <= i < n ensures keyed[i] == (IntKey(Ranks(cfg, t, t.rows[i])), t.rows[i]) {
      assert Ranks(cfg, t, t.rows[i])[..|cols|] == Ranks(cfg, t, t.rows[i]);
    }
  }

  /** Sorting the rows keyed by their rank vectors orders them lexicographically by rank. */
  lemma CustomOrderSorted(t: Table, cfg: Manager.Config, keyed: seq<Ordering.Keyed<Row>>)
    requires WellFormed(t) && |keyed| == |t.rows|
    requires forall i :: 0 <= i < |t.rows| ==> keyed[i] == (IntKey(Ranks(cfg, t, t.rows[i])), t.rows[i])
    ensures Ordering.KeysOfWidth(keyed, |Available(cfg, t)|)
    ensures var rows := Ordering.Payloads(Ordering.Sort(Ascending(|Available(cfg, t)|), keyed));
            multiset(rows) == multiset(t.rows)
            && (forall i :: 0 <= i < |rows| ==> |rows[i].cells| == |t.columns|)
            && forall a, b :: 0 <= a < b < |rows| ==> LexLe(Ranks(cfg, t, rows[a]), Ranks(cfg, t, rows[b]))
  {
    var dirs := Ascending(|Available(cfg, t)|);
    var sorted := Ordering.Sort(dirs, keyed);
    SortedPayloads(dirs, keyed, t.rows);
    CustomRanksCarried(t, cfg, keyed, sorted);
    CustomRanksOrdered(t, cfg, Ordering.Payloads(sorted), sorted);
  }

  /** After sorting, each key is still the rank vector of its own row. */
  lemma CustomRanksCarried(t: Table, cfg: Manager.Config, keyed: seq<Ordering.Keyed<Row>>, sorted: seq<Ordering.Keyed<Row>>)
    requires WellFormed(t) && |keyed| == |t.rows|
    requires forall i :: 0 <= i < |t.rows| ==> keyed[i] == (IntKey(Ranks(cfg, t, t.rows[i])), t.rows[i])
    requires multiset(sorted) == multiset(keyed)
    ensures forall a :: 0 <= a < |sorted| ==>
              |sorted[a].1.cells| == |t.columns| && sorted[a].0 == IntKey(Ranks(cfg, t, sorted[a].1))
  {
    forall a | 0 <= a < |sorted|
      ensures |sorted[a].1.cells| == |t.columns| && sorted[a].0 == IntKey(Ranks(cfg, t, sorted[a].1))
    {
      assert sorted[a] in multiset(keyed);
      var j :| 0 <= j < |keyed| && keyed[j] == sorted[a];
    }
  }

  lemma CustomRanksOrdered(t: Table, cfg: Manager.Config, rows: seq<Row>, sorted: seq<Ordering.Keyed<Row>>)
    requires rows == Ordering.Payloads(sorted)
    requires forall a :: 0 <= a < |sorted| ==>
               |sorted[a].1.cells| == |t.columns| && sorted[a].0 == IntKey(Ranks(cfg, t, sorted[a].1))
    requires Ordering.Sorted(Ascending(|Available(cfg, t)|), sorted)
    ensures forall i :: 0 <= i < |rows| ==> |rows[i].cells| == |t.columns|
    ensures forall a, b :: 0 <= a < b < |rows| ==> LexLe(Ranks(cfg, t, rows[a]), Ranks(cfg, t, rows[b]))
  {
    forall a, b | 0 <= a < b < |rows|
      ensures LexLe(Ranks(cfg, t, rows[a]), Ranks(cfg, t, rows[b]))
    {
      assert Ordering.KeyLe(Ascending(|Available(cfg, t)|), sorted[a].0, sorted[b].0);
      IntKeyLe(Ranks(cfg, t, rows[a]), Ranks(cfg, t, rows[b]));
    }
  }
}
