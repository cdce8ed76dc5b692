/// The order pandas' `sort_values` puts rows in: numbers by value, strings
/// by code point, several key columns lexicographically with a direction
/// per column; and a sort of keyed rows proved to return a sorted
/// permutation of its input.
module Ordering {
  import opened Values

  /** Three-way comparison of strings by code point, as Python compares `str`. */
  function StrCmp(a: string, b: string): (r: int)
    ensures -1 <= r <= 1
    ensures r == 0 <==> a == b
  {
    if |a| == 0 && |b| == 0 then 0
    else if |a| == 0 then -1
    else if |b| == 0 then 1
    else if a[0] < b[0] then -1
    else if a[0] > b[0] then 1
    else
      var r := StrCmp(a[1..], b[1..]);
      assert r == 0 ==> a == [a[0]] + a[1..] && b == [b[0]] + b[1..];
      r
  }

  lemma {:induction false} StrCmpAntisymmetric(a: string, b: string)
    ensures StrCmp(a, b) == -StrCmp(b, a)
  {
    if |a| > 0 && |b| > 0 && a[0] == b[0] {
      StrCmpAntisymmetric(a[1..], b[1..]);
    }
  }

  lemma {:induction false} StrCmpTransitive(a: string, b: string, c: string)
    requires StrCmp(a, b) < 0 && StrCmp(b, c) < 0
    ensures StrCmp(a, c) < 0
  {
    if |a| > 0 && |b| > 0 && |c| > 0 && a[0] == b[0] && b[0] == c[0] {
      StrCmpTransitive(a[1..], b[1..], c[1..]);
    }
  }

  function RealCmp(x: real, y: real): int {
    if x < y then -1 else if x > y then 1 else 0
  }

  /** Three-way comparison of cells: numbers by value (an int and a float of
      the same value tie), strings by code point. A number and a string are
      not comparable in pandas; to keep the order total here numbers come first. */
  function CellCmp(x: Cell, y: Cell): (r: int)
    ensures -1 <= r <= 1
  {
    if IsNumeric(x) && IsNumeric(y) then RealCmp(NumValue(x), NumValue(y))
    else if IsNumeric(x) then -1
    else if IsNumeric(y) then 1
    else StrCmp(x.s, y.s)
  }

  lemma CellCmpAntisymmetric(x: Cell, y: Cell)
    ensures CellCmp(x, y) == -CellCmp(y, x)
  {
    if x.TextV? && y.TextV? {
      StrCmpAntisymmetric(x.s, y.s);
    }
  }

  lemma CellCmpTransitive(x: Cell, y: Cell, z: Cell)
    requires CellCmp(x, y) <= 0 && CellCmp(y, z) <= 0
    ensures CellCmp(x, z) <= 0
    ensures CellCmp(x, y) < 0 || CellCmp(y, z) < 0 ==> CellCmp(x, z) < 0
  {
    if x.TextV? && y.TextV? && z.TextV? {
      if StrCmp(x.s, y.s) < 0 && StrCmp(y.s, z.s) < 0 {
        StrCmpTransitive(x.s, y.s, z.s);
      }
    }
  }

  /** One key column's comparison: ascending, or reversed for descending. */
  function DirCmp(asc: bool, x: Cell, y: Cell): int {
    if asc then CellCmp(x, y) else CellCmp(y, x)
  }

  lemma DirCmpTransitive(asc: bool, x: Cell, y: Cell, z: Cell)
    requires DirCmp(asc, x, y) <= 0 && DirCmp(asc, y, z) <= 0
    ensures DirCmp(asc, x, z) <= 0
    ensures DirCmp(asc, x, y) < 0 || DirCmp(asc, y, z) < 0 ==> DirCmp(asc, x, z) < 0
  {
    if asc {
      CellCmpTransitive(x, y, z);
    } else {
      CellCmpTransitive(z, y, x);
    }
  }

  /** Lexicographic comparison of two sort keys, column by column, each
      column in its own direction; the first column that differs decides. */
  function KeyCmp(dirs: seq<bool>, k1: seq<Cell>, k2: seq<Cell>): int
    decreases |dirs|
  {
    if |dirs| == 0 || |k1| == 0 || |k2| == 0 then 0
    else
      var d := DirCmp(dirs[0], k1[0], k2[0]);
      if d != 0 then d else KeyCmp(dirs[1..], k1[1..], k2[1..])
  }

  /** `k1` may come before `k2`. */
  predicate KeyLe(dirs: seq<bool>, k1: seq<Cell>, k2: seq<Cell>) {
    KeyCmp(dirs, k1, k2) <= 0
  }

  /** Any two keys can be placed in some order. */
  lemma {:induction false} KeyLeTotal(dirs: seq<bool>, k1: seq<Cell>, k2: seq<Cell>)
    ensures KeyLe(dirs, k1, k2) || KeyLe(dirs, k2, k1)
    decreases |dirs|
  {
    if |dirs| > 0 && |k1| > 0 && |k2| > 0 {
      CellCmpAntisymmetric(k1[0], k2[0]);
      KeyLeTotal(dirs[1..], k1[1..], k2[1..]);
    }
  }

  lemma {:induction false} KeyLeTransitive(dirs: seq<bool>, k1: seq<Cell>, k2: seq<Cell>, k3: seq<Cell>)
    requires |k1| == |k2| == |k3|
    requires KeyLe(dirs, k1, k2) && KeyLe(dirs, k2, k3)
    ensures KeyLe(dirs, k1, k3)
    decreases |dirs|
  {
    if |dirs| > 0 && |k1| > 0 {
      var d12 := DirCmp(dirs[0], k1[0], k2[0]);
      var d23 := DirCmp(dirs[0], k2[0], k3[0]);
      CellCmpAntisymmetric(k1[0], k2[0]);
      CellCmpAntisymmetric(k2[0], k3[0]);
      if d12 <= 0 && d23 <= 0 {
        DirCmpTransitive(dirs[0], k1[0], k2[0], k3[0]);
        if d12 == 0 && d23 == 0 {
          KeyLeTransitive(dirs[1..], k1[1..], k2[1..], k3[1..]);
        }
      }
    }
  }

  /** A row (or anything else) paired with its sort key. */
  type Keyed<T> = (seq<Cell>, T)

  predicate KeysOfWidth<T>(xs: seq<Keyed<T>>, n: nat) {
    forall i :: 0 <= i < |xs| ==> |xs[i].0| == n
  }

  /** Every earlier key may come before every later one. */
  predicate Sorted<T>(dirs: seq<bool>, xs: seq<Keyed<T>>) {
    forall i, j :: 0 <= i < j < |xs| ==> KeyLe(dirs, xs[i].0, xs[j].0)
  }

  /** Places `x` before the first element it may precede. */
  function Insert<T>(dirs: seq<bool>, x: Keyed<T>, ys: seq<Keyed<T>>): (r: seq<Keyed<T>>)
    requires |x.0| == |dirs| && KeysOfWidth(ys, |dirs|)
    requires Sorted(dirs, ys)
    ensures multiset(r) == multiset(ys) + multiset{x}
    ensures KeysOfWidth(r, |dirs|)
    ensures Sorted(dirs, r)
    decreases |ys|
  {
    if |ys| == 0 then [x]
    else if KeyLe(dirs, x.0, ys[0].0) then
      InsertFront(dirs, x, ys);
      [x] + ys
    else
      var rest := Insert(dirs, x, ys[1..]);
      InsertLater(dirs, x, ys, rest);
      [ys[0]] + rest
  }

  lemma InsertFront<T>(dirs: seq<bool>, x: Keyed<T>, ys: seq<Keyed<T>>)
    requires |x.0| == |dirs| && KeysOfWidth(ys, |dirs|) && Sorted(dirs, ys)
    requires |ys| > 0 && KeyLe(dirs, x.0, ys[0].0)
    ensures Sorted(dirs, [x] + ys)
  {
    forall j | 0 <= j < |ys| ensures KeyLe(dirs, x.0, ys[j].0) {
      if j > 0 {
        KeyLeTransitive(dirs, x.0, ys[0].0, ys[j].0);
      }
    }
    var r := [x] + ys;
    forall a, b | 0 <= a < b < |r| ensures KeyLe(dirs, r[a].0, r[b].0) {
      if a > 0 {
        assert r[a] == ys[a - 1] && r[b] == ys[b - 1];
      } else {
        assert r[b] == ys[b - 1];
      }
    }
  }

  lemma InsertLater<T>(dirs: seq<bool>, x: Keyed<T>, ys: seq<Keyed<T>>, rest: seq<Keyed<T>>)
    requires |x.0| == |dirs| && KeysOfWidth(ys, |dirs|) && Sorted(dirs, ys)
    requires |ys| > 0 && !KeyLe(dirs, x.0, ys[0].0)
    requires multiset(rest) == multiset(ys[1..]) + multiset{x} && Sorted(dirs, rest)
    ensures multiset([ys[0]] + rest) == multiset(ys) + multiset{x}
    ensures Sorted(dirs, [ys[0]] + rest)
  {
    KeyLeTotal(dirs, x.0, ys[0].0);
    assert ys == [ys[0]] + ys[1..];
    forall j | 0 <= j < |rest| ensures KeyLe(dirs, ys[0].0, rest[j].0) {
      assert rest[j] in multiset(ys[1..]) + multiset{x};
      if rest[j] != x {
        assert rest[j] in ys[1..];
        var m :| 0 <= m < |ys[1..]| && ys[1..][m] == rest[j];
        assert ys[m + 1] == rest[j];
      }
    }
    var r := [ys[0]] + rest;
    forall a, b | 0 <= a < b < |r| ensures KeyLe(dirs, r[a].0, r[b].0) {
      if a > 0 {
        assert r[a] == rest[a - 1] && r[b] == rest[b - 1];
      } else {
        assert r[b] == rest[b - 1];
      }
    }
  }

  /** `sort_values`: the keyed rows in key order. Only the order is specified;
      among rows with equal keys the arrangement is left open. */
  function Sort<T>(dirs: seq<bool>, xs: seq<Keyed<T>>): (r: seq<Keyed<T>>)
    requires KeysOfWidth(xs, |dirs|)
    ensures multiset(r) == multiset(xs)
    ensures |r| == |xs|
    ensures KeysOfWidth(r, |dirs|)
    ensures Sorted(dirs, r)
  {
    if |xs| == 0 then []
    else
      assert xs == [xs[0]] + xs[1..];
      Insert(dirs, xs[0], Sort(dirs, xs[1..]))
  }

  /** The second components, in order. */
  function Payloads<T>(xs: seq<Keyed<T>>): (r: seq<T>)
    ensures |r| == |xs| && forall i :: 0 <= i < |xs| ==> r[i] == xs[i].1
  {
    if |xs| == 0 then [] else [xs[0].1] + Payloads(xs[1..])
  }

  lemma {:induction false} PayloadsPermutation<T>(xs: seq<Keyed<T>>, ys: seq<Keyed<T>>)
    requires multiset(xs) == multiset(ys)
    ensures multiset(Payloads(xs)) == multiset(Payloads(ys))
    decreases |xs|
  {
    if |xs| > 0 {
      var x := xs[0];
      assert x in multiset(ys);
      var k :| 0 <= k < |ys| && ys[k] == x;
      var ys' := ys[..k] + ys[k + 1..];
      RemoveOne(xs, ys, k);
      PayloadsPermutation(xs[1..], ys');
      assert xs == [x] + xs[1..];
      PayloadsConcat([x], xs[1..]);
      PayloadsRemove(ys, k);
    }
  }

  lemma RemoveOne<T>(xs: seq<T>, ys: seq<T>, k: nat)
    requires multiset(xs) == multiset(ys) && |xs| > 0 && k < |ys| && ys[k] == xs[0]
    ensures multiset(xs[1..]) == multiset(ys[..k] + ys[k + 1..])
  {
    assert xs == [xs[0]] + xs[1..];
    assert ys == ys[..k] + [ys[k]] + ys[k + 1..];
    var ys' := ys[..k] + ys[k + 1..];
    assert multiset(ys) == multiset(ys') + multiset{ys[k]};
    assert multiset(xs) == multiset(xs[1..]) + multiset{xs[0]};
    assert multiset(ys') == multiset(ys) - multiset{ys[k]};
    assert multiset(xs[1..]) == multiset(xs) - multiset{xs[0]};
  }

  lemma PayloadsRemove<T>(ys: seq<Keyed<T>>, k: nat)
    requires k < |ys|
    ensures multiset(Payloads(ys)) == multiset(Payloads(ys[..k] + ys[k + 1..])) + multiset{ys[k].1}
  {
    var a, b := ys[..k], ys[k + 1..];
    assert ys == a + ([ys[k]] + b);
    PayloadsConcat(a, [ys[k]] + b);
    PayloadsConcat([ys[k]], b);
    PayloadsConcat(a, b);
    var pa, pb := Payloads(a), Payloads(b);
    assert Payloads([ys[k]]) == [ys[k].1];
    assert Payloads(ys) == pa + ([ys[k].1] + pb);
    assert multiset(pa + ([ys[k].1] + pb)) == multiset(pa + pb) + multiset{ys[k].1};
  }

  lemma {:induction false} PayloadsConcat<T>(a: seq<Keyed<T>>, b: seq<Keyed<T>>)
    ensures Payloads(a + b) == Payloads(a) + Payloads(b)
  {
    assert |Payloads(a + b)| == |Payloads(a) + Payloads(b)|;
  }
}
