/// Where the static extra columns land. The row builder walks the real
/// columns with a position counter shared by real and extra cells: before
/// each real cell it emits, one per position, the first extra column placed
/// at the current position; after the last real cell it appends, in
/// configuration order, every extra column at or past the counter. The
/// header builder instead inserts each extra name into the list of column
/// names with Python's `list.insert`, when its position is below the
/// current length.
module Layout {
  import opened Values
  import Manager
  import Processing

  /** What a row cell shows: real column `i`, or extra column `k` of the configuration. */
  datatype Slot = Real(i: nat) | Extra(k: nat)

  predicate HasAt(extras: seq<Manager.ExtraColumn>, pos: int) {
    exists k :: 0 <= k < |extras| && extras[k].position == pos
  }

  /** The extra column `next(...)` picks: the first one placed at `pos`. */
  function FirstAt(extras: seq<Manager.ExtraColumn>, pos: int): (k: nat)
    requires HasAt(extras, pos)
    ensures k < |extras| && extras[k].position == pos
    ensures forall m :: 0 <= m < k ==> extras[m].position != pos
  {
    if extras[0].position == pos then 0
    else
      assert forall m :: 1 <= m < |extras| ==> extras[m] == extras[1..][m - 1];
      assert HasAt(extras[1..], pos) by {
        var k :| 0 <= k < |extras| && extras[k].position == pos;
        assert extras[1..][k - 1].position == pos;
      }
      1 + FirstAt(extras[1..], pos)
  }

  function MaxPosition(extras: seq<Manager.ExtraColumn>): (m: int)
    ensures forall k :: 0 <= k < |extras| ==> extras[k].position <= m
  {
    if |extras| == 0 then 0
    else
      var rest := MaxPosition(extras[1..]);
      assert forall k :: 1 <= k < |extras| ==> extras[k] == extras[1..][k - 1];
      if extras[0].position > rest then extras[0].position else rest
  }

  /** The extra columns the `while` loop emits when the counter stands at
      `pos`: the first one at `pos`, then the first at `pos + 1`, and so on
      while some extra column is placed at the counter. */
  function Lead(extras: seq<Manager.ExtraColumn>, pos: int): (r: seq<nat>)
    decreases MaxPosition(extras) - pos
  {
    if HasAt(extras, pos) then
      var k := FirstAt(extras, pos);
      [k] + Lead(extras, pos + 1)
    else []
  }

  /** The `j`-th extra column the `while` loop emits is placed at `pos + j`. */
  lemma {:induction false} LeadPositions(extras: seq<Manager.ExtraColumn>, pos: int)
    ensures forall j :: 0 <= j < |Lead(extras, pos)| ==>
              Lead(extras, pos)[j] < |extras| && extras[Lead(extras, pos)[j]].position == pos + j
    decreases MaxPosition(extras) - pos
  {
    if HasAt(extras, pos) {
      LeadPositions(extras, pos + 1);
      var r, r' := Lead(extras, pos), Lead(extras, pos + 1);
      assert r == [FirstAt(extras, pos)] + r';
      forall j | 0 <= j < |r|
        ensures r[j] < |extras| && extras[r[j]].position == pos + j
      {
        if j > 0 {
          assert r[j] == r'[j - 1];
          assert extras[r'[j - 1]].position == pos + 1 + (j - 1);
        }
      }
    }
  }

  /** The counter after the extra cells the loop emits at `pos` and the real cell that follows them. */
  function Advance(extras: seq<Manager.ExtraColumn>, pos: int): int {
    pos + |Lead(extras, pos)| + 1
  }

  /** The extra columns among the first `upTo` placed at or past `pos`, in configuration order. */
  function Trail(extras: seq<Manager.ExtraColumn>, pos: int, upTo: nat): (r: seq<nat>)
    requires upTo <= |extras|
    ensures forall j :: 0 <= j < |r| ==> r[j] < upTo && extras[r[j]].position >= pos
  {
    if upTo == 0 then []
    else Trail(extras, pos, upTo - 1) + (if extras[upTo - 1].position >= pos then [upTo - 1] else [])
  }

  function ExtraSlots(ks: seq<nat>): seq<Slot> {
    seq(|ks|, j requires 0 <= j < |ks| => Extra(ks[j]))
  }

  /** The cells of a row from real column `i` on, the counter standing at `pos`. */
  function SlotsFrom(extras: seq<Manager.ExtraColumn>, n: nat, i: nat, pos: int): seq<Slot>
    requires i <= n
    decreases n - i
  {
    if i == n then ExtraSlots(Trail(extras, pos, |extras|))
    else
      var lead := Lead(extras, pos);
      ExtraSlots(lead) + [Real(i)] + SlotsFrom(extras, n, i + 1, Advance(extras, pos))
  }

  /** The cells of a row with `n` real columns. */
  function Layout(extras: seq<Manager.ExtraColumn>, n: nat): seq<Slot> {
    SlotsFrom(extras, n, 0, 0)
  }

  /** Every slot names an existing real or extra column. */
  predicate ValidSlots(slots: seq<Slot>, n: nat, e: nat) {
    forall j :: 0 <= j < |slots| ==> (slots[j].Real? ==> slots[j].i < n) && (slots[j].Extra? ==> slots[j].k < e)
  }

  /** One step of the row loop: with an extra column at the counter it is
      emitted next; otherwise the next real cell is. */
  lemma SlotsStep(extras: seq<Manager.ExtraColumn>, n: nat, i: nat, pos: int)
    requires i < n
    ensures HasAt(extras, pos) ==>
              SlotsFrom(extras, n, i, pos) == [Extra(FirstAt(extras, pos))] + SlotsFrom(extras, n, i, pos + 1)
    ensures !HasAt(extras, pos) ==>
              SlotsFrom(extras, n, i, pos) == [Real(i)] + SlotsFrom(extras, n, i + 1, pos + 1)
  {
    if HasAt(extras, pos) {
      ExtraStep(extras, n, i, pos);
    } else {
      RealStep(extras, n, i, pos);
    }
  }

  lemma ExtraStep(extras: seq<Manager.ExtraColumn>, n: nat, i: nat, pos: int)
    requires i < n && HasAt(extras, pos)
    ensures SlotsFrom(extras, n, i, pos) == [Extra(FirstAt(extras, pos))] + SlotsFrom(extras, n, i, pos + 1)
  {
    var lead := Lead(extras, pos);
    var lead' := Lead(extras, pos + 1);
    assert lead == [FirstAt(extras, pos)] + lead';
    assert Advance(extras, pos) == Advance(extras, pos + 1);
    SlotsUnfold(extras, n, i, pos);
    SlotsUnfold(extras, n, i, pos + 1);
    ExtraSlotsCons(FirstAt(extras, pos), lead');
  }

  lemma ExtraSlotsCons(k: nat, ks: seq<nat>)
    ensures ExtraSlots([k] + ks) == [Extra(k)] + ExtraSlots(ks)
  {
  }

  lemma RealStep(extras: seq<Manager.ExtraColumn>, n: nat, i: nat, pos: int)
    requires i < n && !HasAt(extras, pos)
    ensures SlotsFrom(extras, n, i, pos) == [Real(i)] + SlotsFrom(extras, n, i + 1, pos + 1)
  {
    SlotsUnfold(extras, n, i, pos);
    assert Lead(extras, pos) == [];
    assert Advance(extras, pos) == pos + 1;
    assert ExtraSlots([]) == [];
  }

  lemma {:induction false} SlotsFromValid(extras: seq<Manager.ExtraColumn>, n: nat, i: nat, pos: int)
    requires i <= n
    ensures ValidSlots(SlotsFrom(extras, n, i, pos), n, |extras|)
    decreases n - i
  {
    if i < n {
      SlotsUnfold(extras, n, i, pos);
      LeadPositions(extras, pos);
      SlotsFromValid(extras, n, i + 1, Advance(extras, pos));
      ValidAround(Lead(extras, pos), i, SlotsFrom(extras, n, i + 1, Advance(extras, pos)), n, |extras|);
    }
  }

  lemma ValidAround(lead: seq<nat>, i: nat, rest: seq<Slot>, n: nat, e: nat)
    requires i < n && ValidSlots(rest, n, e)
    requires forall j :: 0 <= j < |lead| ==> lead[j] < e
    ensures ValidSlots(ExtraSlots(lead) + [Real(i)] + rest, n, e)
  {
    var s := ExtraSlots(lead) + [Real(i)] + rest;
    forall j | 0 <= j < |s|
      ensures (s[j].Real? ==> s[j].i < n) && (s[j].Extra? ==> s[j].k < e)
    {
      if j > |lead| {
        assert s[j] == rest[j - |lead| - 1];
      }
    }
  }

  /** The real column indices in the order their cells appear. */
  function Reals(slots: seq<Slot>): seq<nat> {
    if |slots| == 0 then []
    else (if slots[0].Real? then [slots[0].i] else []) + Reals(slots[1..])
  }

  lemma {:induction false} RealsConcat(a: seq<Slot>, b: seq<Slot>)
    ensures Reals(a + b) == Reals(a) + Reals(b)
  {
    if |a| > 0 {
      assert (a + b)[0] == a[0] && (a + b)[1..] == a[1..] + b;
      RealsConcat(a[1..], b);
    } else {
      assert a + b == b;
    }
  }

  lemma {:induction false} RealsOfExtras(ks: seq<nat>)
    ensures Reals(ExtraSlots(ks)) == []
  {
    if |ks| > 0 {
      assert ExtraSlots(ks)[1..] == ExtraSlots(ks[1..]);
      RealsOfExtras(ks[1..]);
    }
  }

  function Iota(lo: nat, hi: nat): (r: seq<nat>)
    requires lo <= hi
    ensures |r| == hi - lo && forall j :: 0 <= j < |r| ==> r[j] == lo + j
    decreases hi - lo
  {
    if lo == hi then [] else [lo] + Iota(lo + 1, hi)
  }

  /** Every real column appears exactly once, in column order. */
  lemma {:induction false} RealsInOrder(extras: seq<Manager.ExtraColumn>, n: nat, i: nat, pos: int)
    requires i <= n
    ensures Reals(SlotsFrom(extras, n, i, pos)) == Iota(i, n)
    decreases n - i
  {
    if i == n {
      RealsOfExtras(Trail(extras, pos, |extras|));
    } else {
      var lead := Lead(extras, pos);
      var next := Advance(extras, pos);
      SlotsUnfold(extras, n, i, pos);
      RealsInOrder(extras, n, i + 1, next);
      RealsOfExtras(lead);
      RealsAround(ExtraSlots(lead), i, SlotsFrom(extras, n, i + 1, next));
    }
  }

  lemma SlotsUnfold(extras: seq<Manager.ExtraColumn>, n: nat, i: nat, pos: int)
    requires i < n
    ensures SlotsFrom(extras, n, i, pos)
         == ExtraSlots(Lead(extras, pos)) + [Real(i)] + SlotsFrom(extras, n, i + 1, Advance(extras, pos))
  {
  }

  lemma RealsAround(a: seq<Slot>, i: nat, b: seq<Slot>)
    requires Reals(a) == []
    ensures Reals(a + [Real(i)] + b) == [i] + Reals(b)
  {
    RealsConcat(a + [Real(i)], b);
    RealsConcat(a, [Real(i)]);
    assert Reals([Real(i)]) == [i] + Reals([]);
  }

  /** Every extra cell of `s` that some real cell follows names an extra
      column placed at its own index, counted from `base`. */
  predicate ExtrasPlaced(extras: seq<Manager.ExtraColumn>, s: seq<Slot>, base: int) {
    forall j, j' :: 0 <= j < j' < |s| && s[j].Extra? && s[j'].Real? ==>
      s[j].k < |extras| && extras[s[j].k].position == base + j
  }

  /** An extra cell followed by some real cell sits exactly at its configured position. */
  lemma {:induction false} ExtraBeforeRealAtPosition(extras: seq<Manager.ExtraColumn>, n: nat, i: nat, pos: int)
    requires i <= n
    ensures ExtrasPlaced(extras, SlotsFrom(extras, n, i, pos), pos)
    decreases n - i
  {
    if i < n {
      var lead := Lead(extras, pos);
      var next := Advance(extras, pos);
      SlotsUnfold(extras, n, i, pos);
      ExtraBeforeRealAtPosition(extras, n, i + 1, next);
      LeadPositions(extras, pos);
      PlacedAround(extras, lead, pos, i, SlotsFrom(extras, n, i + 1, next));
    }
  }

  lemma PlacedAround(extras: seq<Manager.ExtraColumn>, lead: seq<nat>, pos: int, i: nat, rest: seq<Slot>)
    requires forall j :: 0 <= j < |lead| ==> lead[j] < |extras| && extras[lead[j]].position == pos + j
    requires ExtrasPlaced(extras, rest, pos + |lead| + 1)
    ensures ExtrasPlaced(extras, ExtraSlots(lead) + [Real(i)] + rest, pos)
  {
    var s := ExtraSlots(lead) + [Real(i)] + rest;
    forall j, j' | 0 <= j < j' < |s| && s[j].Extra? && s[j'].Real?
      ensures s[j].k < |extras| && extras[s[j].k].position == pos + j
    {
      if j > |lead| {
        assert s[j] == rest[j - |lead| - 1] && s[j'] == rest[j' - |lead| - 1];
      } else {
        assert s[j] == Extra(lead[j]);
      }
    }
  }

  /** After the last real cell come exactly the extra columns placed at or
      past the counter, in configuration order; the counter then equals the
      number of cells emitted before them. */
  lemma {:induction false} TrailingExtras(extras: seq<Manager.ExtraColumn>, n: nat, i: nat, pos: int)
    requires i <= n
    ensures EndsWithTrail(extras, n, i, pos)
    decreases n - i
  {
    if i < n {
      TrailingExtras(extras, n, i + 1, Advance(extras, pos));
      TrailingStep(extras, n, i, pos);
    }
  }

  /** The cells from real column `i` on end with the trailing extra columns,
      right after the last real cell. */
  ghost predicate EndsWithTrail(extras: seq<Manager.ExtraColumn>, n: nat, i: nat, pos: int)
    requires i <= n
  {
    var s := SlotsFrom(extras, n, i, pos);
    var e := EndPosition(extras, n, i, pos);
    pos <= e <= pos + |s|
    && (i < n ==> pos < e && s[e - pos - 1] == Real(n - 1))
    && s[e - pos..] == ExtraSlots(Trail(extras, e, |extras|))
  }

  lemma TrailingStep(extras: seq<Manager.ExtraColumn>, n: nat, i: nat, pos: int)
    requires i < n && EndsWithTrail(extras, n, i + 1, Advance(extras, pos))
    ensures EndsWithTrail(extras, n, i, pos)
  {
    var lead := Lead(extras, pos);
    var next := Advance(extras, pos);
    SlotsUnfold(extras, n, i, pos);
    var e := EndPosition(extras, n, i + 1, next);
    assert EndPosition(extras, n, i, pos) == e;
    var a := ExtraSlots(lead) + [Real(i)];
    var rest := SlotsFrom(extras, n, i + 1, next);
    assert |a| == next - pos;
    assert next <= e <= next + |rest|;
    TailAfter(a, rest, e - next);
    assert SlotsFrom(extras, n, i, pos) == a + rest;
    assert |a| + (e - next) == e - pos;
  }

  lemma TailAfter(a: seq<Slot>, rest: seq<Slot>, off: nat)
    requires |a| > 0 && off <= |rest|
    ensures (a + rest)[|a| + off..] == rest[off..]
    ensures (a + rest)[|a| + off - 1] == if off == 0 then a[|a| - 1] else rest[off - 1]
  {
  }

  /** The counter after the last real cell. */
  function EndPosition(extras: seq<Manager.ExtraColumn>, n: nat, i: nat, pos: int): int
    requires i <= n
    decreases n - i
  {
    if i == n then pos else EndPosition(extras, n, i + 1, Advance(extras, pos))
  }

  // ---------------------------------------------------------------------
  // Row width

  /** Extra columns occupy distinct, non-negative positions. */
  predicate DistinctPositions(extras: seq<Manager.ExtraColumn>) {
    forall a, b :: 0 <= a < b < |extras| ==> extras[a].position != extras[b].position
  }

  /** Number of the first `upTo` extra columns placed at or past `p`. */
  function CountFrom(extras: seq<Manager.ExtraColumn>, p: int, upTo: nat): nat
    requires upTo <= |extras|
  {
    if upTo == 0 then 0
    else CountFrom(extras, p, upTo - 1) + (if extras[upTo - 1].position >= p then 1 else 0)
  }

  lemma {:induction false} CountFromSplit(extras: seq<Manager.ExtraColumn>, p: int, upTo: nat)
    requires upTo <= |extras|
    ensures CountFrom(extras, p, upTo) == CountFrom(extras, p + 1, upTo) + CountAtUpTo(extras, p, upTo)
  {
    if upTo > 0 {
      CountFromSplit(extras, p, upTo - 1);
    }
  }

  function CountAtUpTo(extras: seq<Manager.ExtraColumn>, p: int, upTo: nat): nat
    requires upTo <= |extras|
  {
    if upTo == 0 then 0
    else CountAtUpTo(extras, p, upTo - 1) + (if extras[upTo - 1].position == p then 1 else 0)
  }

  /** At most one extra column sits at any position. */
  ghost predicate OnePerPosition(extras: seq<Manager.ExtraColumn>) {
    forall p :: CountAtUpTo(extras, p, |extras|) <= 1
  }

  lemma {:induction false} CountAtHas(extras: seq<Manager.ExtraColumn>, p: int, upTo: nat)
    requires upTo <= |extras|
    ensures (exists k :: 0 <= k < upTo && extras[k].position == p) <==> CountAtUpTo(extras, p, upTo) >= 1
  {
    if upTo > 0 {
      CountAtHas(extras, p, upTo - 1);
    }
  }

  lemma DistinctOnePerPosition(extras: seq<Manager.ExtraColumn>)
    requires DistinctPositions(extras)
    ensures OnePerPosition(extras)
  {
    forall p {
      CountAtDistinct(extras, p, |extras|);
    }
  }

  /** With distinct positions, at most one extra column sits at a position,
      and exactly one when some does. */
  lemma {:induction false} CountAtDistinct(extras: seq<Manager.ExtraColumn>, p: int, upTo: nat)
    requires upTo <= |extras| && DistinctPositions(extras)
    ensures CountAtUpTo(extras, p, upTo) == (if exists k :: 0 <= k < upTo && extras[k].position == p then 1 else 0)
  {
    if upTo > 0 {
      CountAtDistinct(extras, p, upTo - 1);
      if extras[upTo - 1].position == p {
        assert forall k :: 0 <= k < upTo - 1 ==> extras[k].position != p;
      }
    }
  }

  lemma {:induction false} TrailLength(extras: seq<Manager.ExtraColumn>, p: int, upTo: nat)
    requires upTo <= |extras|
    ensures |Trail(extras, p, upTo)| == CountFrom(extras, p, upTo)
  {
    if upTo > 0 {
      TrailLength(extras, p, upTo - 1);
    }
  }

  /** The `while` loop consumes one extra column per position it passes. */
  lemma {:induction false} LeadCount(extras: seq<Manager.ExtraColumn>, pos: int)
    requires OnePerPosition(extras)
    ensures CountFrom(extras, pos, |extras|) == |Lead(extras, pos)| + CountFrom(extras, Advance(extras, pos), |extras|)
    decreases MaxPosition(extras) - pos
  {
    CountFromSplit(extras, pos, |extras|);
    CountAtHas(extras, pos, |extras|);
    assert CountAtUpTo(extras, pos, |extras|) <= 1;
    if HasAt(extras, pos) {
      LeadCount(extras, pos + 1);
      assert |Lead(extras, pos)| == 1 + |Lead(extras, pos + 1)|;
    }
  }

  lemma {:induction false} SlotsFromLength(extras: seq<Manager.ExtraColumn>, n: nat, i: nat, pos: int)
    requires i <= n && OnePerPosition(extras)
    ensures |SlotsFrom(extras, n, i, pos)| == (n - i) + CountFrom(extras, pos, |extras|)
    decreases n - i
  {
    if i == n {
      LengthEnd(extras, n, pos);
    } else {
      SlotsFromLength(extras, n, i + 1, Advance(extras, pos));
      LengthStep(extras, n, i, pos);
    }
  }

  lemma LengthEnd(extras: seq<Manager.ExtraColumn>, n: nat, pos: int)
    ensures |SlotsFrom(extras, n, n, pos)| == CountFrom(extras, pos, |extras|)
  {
    TrailLength(extras, pos, |extras|);
  }

  lemma LengthStep(extras: seq<Manager.ExtraColumn>, n: nat, i: nat, pos: int)
    requires i < n && OnePerPosition(extras)
    requires |SlotsFrom(extras, n, i + 1, Advance(extras, pos))| == (n - (i + 1)) + CountFrom(extras, Advance(extras, pos), |extras|)
    ensures |SlotsFrom(extras, n, i, pos)| == (n - i) + CountFrom(extras, pos, |extras|)
  {
    SlotsUnfold(extras, n, i, pos);
    LeadCount(extras, pos);
  }

  lemma {:induction false} CountFromAll(extras: seq<Manager.ExtraColumn>, upTo: nat)
    requires upTo <= |extras|
    requires forall k :: 0 <= k < |extras| ==> extras[k].position >= 0
    ensures CountFrom(extras, 0, upTo) == upTo
  {
    if upTo > 0 {
      CountFromAll(extras, upTo - 1);
    }
  }

  /** With distinct, non-negative positions every extra column is emitted
      exactly once: each row has as many cells as the column specification
      has letters. */
  lemma RowWidth(extras: seq<Manager.ExtraColumn>, n: nat)
    requires DistinctPositions(extras)
    requires forall k :: 0 <= k < |extras| ==> extras[k].position >= 0
    ensures |Layout(extras, n)| == n + |extras|
  {
    DistinctOnePerPosition(extras);
    SlotsFromLength(extras, n, 0, 0);
    CountFromAll(extras, |extras|);
  }

  // ---------------------------------------------------------------------
  // Header list

  /** Python's `list.insert(p, x)`: a negative index counts from the end
      (and stops at the front), an index past the end appends. */
  function PyInsert<T>(xs: seq<T>, p: int, x: T): (r: seq<T>)
    ensures |r| == |xs| + 1
    ensures 0 <= p <= |xs| ==> r[p] == x && r[..p] == xs[..p] && r[p + 1..] == xs[p..]
    ensures p < 0 ==> var q := if |xs| + p < 0 then 0 else |xs| + p;
                      r[q] == x && r[..q] == xs[..q] && r[q + 1..] == xs[q..]
  {
    var q := if p < 0 then (if |xs| + p < 0 then 0 else |xs| + p) else if p > |xs| then |xs| else p;
    xs[..q] + [x] + xs[q..]
  }

  /** The header names after the insertion loop. */
  function HeaderNames(names: seq<string>, extras: seq<Manager.ExtraColumn>): seq<string>
    decreases |extras|
  {
    if |extras| == 0 then names
    else
      var last := extras[|extras| - 1];
      var before := HeaderNames(names, extras[..|extras| - 1]);
      if last.position < |before| then PyInsert(before, last.position, last.displayName) else before
  }

  /** An inserted name never displaces the column names: they keep their
      order, and the list grows by one per inserted extra column. */
  lemma {:induction false} HeaderKeepsNames(names: seq<string>, extras: seq<Manager.ExtraColumn>)
    ensures |names| <= |HeaderNames(names, extras)| <= |names| + |extras|
    ensures Processing.IsSubsequence(names, HeaderNames(names, extras))
    decreases |extras|
  {
    if |extras| > 0 {
      var last := extras[|extras| - 1];
      var before := HeaderNames(names, extras[..|extras| - 1]);
      HeaderKeepsNames(names, extras[..|extras| - 1]);
      if last.position < |before| {
        var q := if last.position < 0 then (if |before| + last.position < 0 then 0 else |before| + last.position) else last.position;
        var r := PyInsert(before, last.position, last.displayName);
        assert r == before[..q] + [last.displayName] + before[q..];
        InsertKeepsSubsequence(names, before, q, last.displayName);
      }
    } else {
      Processing.IsSubsequenceReflexive(names);
    }
  }

  lemma {:induction false} InsertKeepsSubsequence<T>(a: seq<T>, b: seq<T>, q: nat, x: T)
    requires q <= |b| && Processing.IsSubsequence(a, b)
    ensures Processing.IsSubsequence(a, b[..q] + [x] + b[q..])
    decreases |b|
  {
    var c := b[..q] + [x] + b[q..];
    if q == 0 {
      assert c[1..] == b;
    } else if |a| > 0 {
      assert c[0] == b[0];
      assert c[1..] == b[1..][..q - 1] + [x] + b[1..][q - 1..];
      if a[0] == b[0] && Processing.IsSubsequence(a[1..], b[1..]) {
        InsertKeepsSubsequence(a[1..], b[1..], q - 1, x);
      } else {
        InsertKeepsSubsequence(a, b[1..], q - 1, x);
      }
    }
  }

  /** When every position is below the number of real columns, every extra
      name is inserted. */
  lemma {:induction false} HeaderWidth(names: seq<string>, extras: seq<Manager.ExtraColumn>)
    requires forall k :: 0 <= k < |extras| ==> extras[k].position < |names|
    ensures |HeaderNames(names, extras)| == |names| + |extras|
    decreases |extras|
  {
    if |extras| > 0 {
      HeaderWidth(names, extras[..|extras| - 1]);
    }
  }

  // ---------------------------------------------------------------------
  // Examples

  /** Two real columns and one extra column at position 1: the extra cell
      sits between them, in the header as in the rows. */
  lemma ExtraBetweenColumns()
    ensures var extras := [Manager.ExtraColumn(1, "Check", "\\checkmark")];
            Layout(extras, 2) == [Real(0), Extra(0), Real(1)]
            && HeaderNames(["Model", "Score"], extras) == ["Model", "Check", "Score"]
  {
    var extras := [Manager.ExtraColumn(1, "Check", "\\checkmark")];
    assert FirstAt(extras, 1) == 0;
    assert Lead(extras, 0) == [];
    assert Lead(extras, 2) == [];
    assert Lead(extras, 1) == [0];
    assert Trail(extras, 3, 1) == [];
    assert HeaderNames(["Model", "Score"], extras[..0]) == ["Model", "Score"];
  }

  /** An extra column placed past the last real column is appended to every
      row but never inserted into the header: the rows then have one cell
      more than the header line. */
  lemma ExtraPastTheEnd()
    ensures var extras := [Manager.ExtraColumn(5, "Check", "\\checkmark")];
            Layout(extras, 2) == [Real(0), Real(1), Extra(0)]
            && HeaderNames(["Model", "Score"], extras) == ["Model", "Score"]
  {
    var extras := [Manager.ExtraColumn(5, "Check", "\\checkmark")];
    assert !HasAt(extras, 0) && !HasAt(extras, 1);
    assert Lead(extras, 0) == [] && Lead(extras, 1) == [];
    assert Trail(extras, 2, 0) == [];
    assert Trail(extras, 2, 1) == [0];
    assert HeaderNames(["Model", "Score"], extras[..0]) == ["Model", "Score"];
  }
}
