/**
 * The part of a pandas data frame that the modelled code relies on:
 * labelled rows of cells under labelled columns, and the frame operations
 * it calls (boolean row filters, `df[[...]]`, `df[name] = ...`,
 * `df.index = df[name]`, `df.drop(..., axis=1)` and the inner `pd.merge`).
 */
module Tables {
  import opened Wrappers

  /** One cell: text, a number, or a missing value (NaN or None). */
  datatype Cell = Str(text: string) | Num(value: real) | NA

  /** A row: its index value and its cells, one per column. */
  datatype Row = Row(index: Cell, cells: seq<Cell>)

  /** A data frame: column labels and the rows in order. */
  datatype Table = Table(columns: seq<string>, rows: seq<Row>)

  /** The exceptions the modelled code raises. */
  datatype Error =
    | AssertionError(message: string)
      /** A KeyError naming labels that are "not in index". */
    | KeyError(keys: seq<string>)
      /** The KeyError "None of [names] are in the [columns]", raised when no label is found. */
    | NoneOfKeyError(names: seq<string>)
    | TypeError(message: string)

  predicate NoDup<T(==)>(s: seq<T>) {
    forall i, j :: 0 <= i < j < |s| ==> s[i] != s[j]
  }

  /** Every row has one cell per column. */
  predicate Rectangular(t: Table) {
    forall i :: 0 <= i < |t.rows| ==> |t.rows[i].cells| == |t.columns|
  }

  // ---------------------------------------------------------------------
  // Positions and lookups by label

  /** The first position of `x` in `s`. */
  function IndexOf<T(==)>(s: seq<T>, x: T): (k: nat)
    requires x in s
    ensures k < |s| && s[k] == x
    ensures forall j :: 0 <= j < k ==> s[j] != x
  {
    if s[0] == x then 0 else 1 + IndexOf(s[1..], x)
  }

  lemma IndexOfUnique<T>(s: seq<T>, k: nat)
    requires NoDup(s) && k < |s|
    ensures IndexOf(s, s[k]) == k
  {
  }

  /** A label of `b` is found after all of `a`'s. */
  lemma {:induction false} IndexOfAppend<T>(a: seq<T>, b: seq<T>, x: T)
    requires x !in a && x in b
    ensures x in a + b && IndexOf(a + b, x) == |a| + IndexOf(b, x)
  {
    if |a| > 0 {
      assert (a + b)[1..] == a[1..] + b;
      IndexOfAppend(a[1..], b, x);
    } else {
      assert a + b == b;
    }
  }

  /** A label of `a` is found where it is in `a`. */
  lemma {:induction false} IndexOfPrefix<T>(a: seq<T>, b: seq<T>, x: T)
    requires x in a
    ensures x in a + b && IndexOf(a + b, x) == IndexOf(a, x)
  {
    if a[0] != x {
      assert (a + b)[1..] == a[1..] + b;
      IndexOfPrefix(a[1..], b, x);
    }
  }

  /** The cell of `row` under the column labelled `name`. */
  function Lookup(row: Row, columns: seq<string>, name: string): Cell
    requires |row.cells| == |columns| && name in columns
  {
    row.cells[IndexOf(columns, name)]
  }

  /** `t[name]`: the cells of one column, in row order. */
  function Column(t: Table, name: string): seq<Cell>
    requires Rectangular(t) && name in t.columns
  {
    seq(|t.rows|, i requires 0 <= i < |t.rows| => Lookup(t.rows[i], t.columns, name))
  }

  /** `t.index`: the row labels, in row order. */
  function Labels(t: Table): seq<Cell> {
    seq(|t.rows|, i requires 0 <= i < |t.rows| => t.rows[i].index)
  }

  // ---------------------------------------------------------------------
  // Boolean filters (`t[mask]`) keep the rows that pass, in order

  function Filter<T(!new)>(s: seq<T>, p: T -> bool): (r: seq<T>)
    ensures |r| <= |s|
    ensures forall x :: x in r <==> x in s && p(x)
  {
    if |s| == 0 then []
    else
      assert forall x :: x in s <==> x == s[0] || x in s[1..];
      if p(s[0]) then [s[0]] + Filter(s[1..], p) else Filter(s[1..], p)
  }

  /** The positions of `s` whose element passes `p`, in increasing order. */
  function KeptIndices<T>(s: seq<T>, p: T -> bool): (ks: seq<nat>)
    ensures forall k :: 0 <= k < |ks| ==> ks[k] < |s| && p(s[ks[k]])
    ensures forall k, l :: 0 <= k < l < |ks| ==> ks[k] < ks[l]
  {
    if |s| == 0 then []
    else
      var rest := KeptIndices(s[1..], p);
      var shifted := seq(|rest|, k requires 0 <= k < |rest| => rest[k] + 1);
      if p(s[0]) then [0] + shifted else shifted
  }

  /** Every passing position is kept. */
  lemma {:induction false} KeptIndicesComplete<T>(s: seq<T>, p: T -> bool, i: nat)
    requires i < |s| && p(s[i])
    ensures i in KeptIndices(s, p)
  {
    var rest := KeptIndices(s[1..], p);
    var shifted := seq(|rest|, k requires 0 <= k < |rest| => rest[k] + 1);
    if i > 0 {
      KeptIndicesComplete(s[1..], p, i - 1);
      var k :| 0 <= k < |rest| && rest[k] == i - 1;
      assert shifted[k] == i;
      if p(s[0]) {
        assert KeptIndices(s, p)[k + 1] == i;
      }
    }
  }

  /**
   * A filter keeps exactly the passing elements in their original order:
   * its k-th element is the element at the k-th passing position.
   */
  lemma {:induction false} FilterIsSubsequence<T(!new)>(s: seq<T>, p: T -> bool)
    ensures |Filter(s, p)| == |KeptIndices(s, p)|
    ensures forall k :: 0 <= k < |Filter(s, p)| ==> Filter(s, p)[k] == s[KeptIndices(s, p)[k]]
  {
    if |s| > 0 {
      FilterIsSubsequence(s[1..], p);
      var f, ks := Filter(s, p), KeptIndices(s, p);
      var f', ks' := Filter(s[1..], p), KeptIndices(s[1..], p);
      if p(s[0]) {
        assert f == [s[0]] + f' && ks[0] == 0;
        forall k | 1 <= k < |f| ensures f[k] == s[ks[k]] {
          assert f[k] == f'[k - 1] && ks[k] == ks'[k - 1] + 1;
          assert s[1..][ks'[k - 1]] == s[ks[k]];
        }
      } else {
        assert f == f';
        forall k | 0 <= k < |f| ensures f[k] == s[ks[k]] {
          assert ks[k] == ks'[k] + 1;
          assert s[1..][ks'[k]] == s[ks[k]];
        }
      }
    }
  }

  /** Two predicates that agree on the elements of `s` filter it alike. */
  lemma {:induction false} FilterExtensional<T(!new)>(s: seq<T>, p: T -> bool, q: T -> bool)
    requires forall x :: x in s ==> p(x) == q(x)
    ensures Filter(s, p) == Filter(s, q)
  {
    if |s| > 0 {
      assert forall x :: x in s[1..] ==> x in s;
      FilterExtensional(s[1..], p, q);
    }
  }

  /** A filter every element passes keeps everything. */
  lemma {:induction false} FilterAll<T(!new)>(s: seq<T>, p: T -> bool)
    requires forall x :: x in s ==> p(x)
    ensures Filter(s, p) == s
  {
    if |s| > 0 {
      assert forall x :: x in s[1..] ==> x in s;
      FilterAll(s[1..], p);
    }
  }

  /** Filtering twice is filtering once by the conjunction. */
  lemma {:induction false} FilterFilter<T(!new)>(s: seq<T>, p: T -> bool, q: T -> bool, pq: T -> bool)
    requires forall x :: pq(x) == (p(x) && q(x))
    ensures Filter(Filter(s, p), q) == Filter(s, pq)
  {
    if |s| > 0 {
      FilterFilter(s[1..], p, q, pq);
    }
  }

  lemma {:induction false} FilterAppend<T(!new)>(a: seq<T>, b: seq<T>, p: T -> bool)
    ensures Filter(a + b, p) == Filter(a, p) + Filter(b, p)
  {
    if |a| == 0 {
      assert a + b == b;
    } else {
      assert (a + b)[1..] == a[1..] + b;
      FilterAppend(a[1..], b, p);
    }
  }

  lemma {:induction false} FilterNoDup<T(!new)>(s: seq<T>, p: T -> bool)
    requires NoDup(s)
    ensures NoDup(Filter(s, p))
  {
    FilterIsSubsequence(s, p);
  }

  /** The distinct elements of `s`, in the order of their first occurrence (`pd.unique`). */
  function FirstSeen<T(==,!new)>(s: seq<T>): (r: seq<T>)
    ensures forall x :: x in r <==> x in s
    ensures NoDup(r)
    ensures forall a, b :: 0 <= a < b < |r| ==> IndexOf(s, r[a]) < IndexOf(s, r[b])
  {
    if |s| == 0 then []
    else
      var p, x := s[..|s| - 1], s[|s| - 1];
      var f := FirstSeen(p);
      assert s == p + [x];
      assert forall y :: y in p ==> IndexOf(s, y) == IndexOf(p, y) by {
        forall y | y in p ensures IndexOf(s, y) == IndexOf(p, y) {
          IndexOfPrefix(p, [x], y);
        }
      }
      if x in p then f
      else
        IndexOfAppend(p, [x], x);
        f + [x]
  }

  /** Filtering the distinct elements keeps them distinct and in first-occurrence order. */
  lemma FilterFirstSeen<T(!new)>(s: seq<T>, p: T -> bool)
    ensures var r := Filter(FirstSeen(s), p);
      NoDup(r) && forall a, b :: 0 <= a < b < |r| ==> IndexOf(s, r[a]) < IndexOf(s, r[b])
  {
    var f := FirstSeen(s);
    FilterNoDup(f, p);
    FilterIsSubsequence(f, p);
  }

  /** `t[mask]`: the rows that pass, under the same columns. */
  function FilterRows(t: Table, p: Row -> bool): (r: Table)
    requires Rectangular(t)
    ensures Rectangular(r) && r.columns == t.columns
    ensures forall row :: row in r.rows <==> row in t.rows && p(row)
  {
    var rows := Filter(t.rows, p);
    assert forall i :: 0 <= i < |rows| ==> rows[i] in t.rows;
    Table(t.columns, rows)
  }

  // ---------------------------------------------------------------------
  // Column operations

  /** The predicate "the label is not one of `names`". */
  function NotIn(names: seq<string>): string -> bool {
    (c: string) => c !in names
  }

  /**
   * The labels of `names` that are not columns, each once, in the order of
   * their first occurrence: what `t[names]` reports as not in the index.
   */
  function Missing(names: seq<string>, columns: seq<string>): (r: seq<string>)
    ensures forall x :: x in r <==> x in names && x !in columns
    ensures NoDup(r)
    ensures forall a, b :: 0 <= a < b < |r| ==> IndexOf(names, r[a]) < IndexOf(names, r[b])
  {
    FilterFirstSeen(names, NotIn(columns));
    Filter(FirstSeen(names), NotIn(columns))
  }

  /**
   * `t[names]`: the columns labelled `names`, in that order, duplicates
   * included. When some labels are not columns it raises a KeyError: one
   * quoting all of `names` when none of them is a column, otherwise one
   * naming each missing label once.
   */
  function SelectColumns(t: Table, names: seq<string>): (r: Result<Table, Error>)
    requires Rectangular(t) && NoDup(t.columns)
    ensures r.Failure? <==> exists n :: n in names && n !in t.columns
    ensures r.Failure? && (forall n :: n in names ==> n !in t.columns) ==> r.error == NoneOfKeyError(names)
    ensures r.Failure? && (exists n :: n in names && n in t.columns) ==> r.error == KeyError(Missing(names, t.columns))
    ensures r.Success? ==>
      && Rectangular(r.value)
      && r.value.columns == names
      && Labels(r.value) == Labels(t)
      && (forall n :: n in names ==> Column(r.value, n) == Column(t, n))
      && forall i, k :: 0 <= i < |t.rows| && 0 <= k < |names| ==>
           r.value.rows[i].cells[k] == Lookup(t.rows[i], t.columns, names[k])
  {
    var missing := Missing(names, t.columns);
    if |missing| > 0 then
      assert missing[0] in missing;
      if forall n :: n in names ==> n !in t.columns then Failure(NoneOfKeyError(names))
      else Failure(KeyError(missing))
    else
      assert forall n :: n in names ==> n in t.columns by {
        forall n | n in names ensures n in t.columns {
          assert n in missing <==> n !in t.columns;
        }
      }
      var r := Table(names, seq(|t.rows|, i requires 0 <= i < |t.rows| =>
        Row(t.rows[i].index, seq(|names|, k requires 0 <= k < |names| => Lookup(t.rows[i], t.columns, names[k])))));
      assert forall n :: n in names ==> Column(r, n) == Column(t, n) by {
        forall n | n in names ensures Column(r, n) == Column(t, n) {
          var k := IndexOf(names, n);
          assert forall i :: 0 <= i < |t.rows| ==> Column(r, n)[i] == Lookup(t.rows[i], t.columns, names[k]);
        }
      }
      Success(r)
  }

  /**
   * `t[name] = values`: overwrite the column labelled `name`, or append it
   * as the last column when there is none.
   */
  function WithColumn(t: Table, name: string, values: seq<Cell>): (r: Table)
    requires Rectangular(t) && |values| == |t.rows|
    ensures Rectangular(r)
    ensures r.columns == if name in t.columns then t.columns else t.columns + [name]
    ensures Labels(r) == Labels(t)
    ensures Column(r, name) == values
    ensures forall c :: c in t.columns && c != name ==> Column(r, c) == Column(t, c)
  {
    if name in t.columns then
      var k := IndexOf(t.columns, name);
      Table(t.columns, seq(|t.rows|, i requires 0 <= i < |t.rows| =>
        Row(t.rows[i].index, t.rows[i].cells[k := values[i]])))
    else
      var r := Table(t.columns + [name], seq(|t.rows|, i requires 0 <= i < |t.rows| =>
        Row(t.rows[i].index, t.rows[i].cells + [values[i]])));
      assert IndexOf(r.columns, name) == |t.columns| by {
        IndexOfAppend(t.columns, [name], name);
      }
      assert forall c :: c in t.columns ==> IndexOf(r.columns, c) == IndexOf(t.columns, c) by {
        forall c | c in t.columns ensures IndexOf(r.columns, c) == IndexOf(t.columns, c) {
          IndexOfPrefix(t.columns, [name], c);
        }
      }
      r
  }

  /** `t.index = t[name]`: the column's cells become the row labels. */
  function SetIndex(t: Table, name: string): (r: Table)
    requires Rectangular(t) && name in t.columns
    ensures Rectangular(r) && r.columns == t.columns && |r.rows| == |t.rows|
    ensures Labels(r) == Column(t, name)
    ensures forall i :: 0 <= i < |r.rows| ==> r.rows[i].cells == t.rows[i].cells
  {
    Table(t.columns, seq(|t.rows|, i requires 0 <= i < |t.rows| =>
      Row(Lookup(t.rows[i], t.columns, name), t.rows[i].cells)))
  }

  /**
   * `t.drop(names, axis=1)`: remove the columns labelled `names`. A label
   * that is not a column is skipped here, where pandas raises a KeyError;
   * the conversion drops only labels the merge guarantees.
   */
  function Drop(t: Table, names: seq<string>): (r: Table)
    requires Rectangular(t)
    ensures Rectangular(r)
    ensures r.columns == Filter(t.columns, NotIn(names))
    ensures Labels(r) == Labels(t)
  {
    var keep := KeptIndices(t.columns, NotIn(names));
    FilterIsSubsequence(t.columns, NotIn(names));
    Table(Filter(t.columns, NotIn(names)), seq(|t.rows|, i requires 0 <= i < |t.rows| =>
      Row(t.rows[i].index, seq(|keep|, k requires 0 <= k < |keep| => t.rows[i].cells[keep[k]]))))
  }

  /** Dropping columns leaves the kept columns' cells where their labels are. */
  lemma DropLookup(t: Table, names: seq<string>)
    requires Rectangular(t) && NoDup(t.columns)
    ensures NoDup(Drop(t, names).columns)
    ensures forall i, c :: 0 <= i < |t.rows| && c in t.columns && c !in names ==>
      c in Drop(t, names).columns &&
      Lookup(Drop(t, names).rows[i], Drop(t, names).columns, c) == Lookup(t.rows[i], t.columns, c)
  {
    var r := Drop(t, names);
    var keep := KeptIndices(t.columns, NotIn(names));
    FilterIsSubsequence(t.columns, NotIn(names));
    FilterNoDup(t.columns, NotIn(names));
    forall i, c | 0 <= i < |t.rows| && c in t.columns && c !in names
      ensures c in r.columns && Lookup(r.rows[i], r.columns, c) == Lookup(t.rows[i], t.columns, c)
    {
      assert NotIn(names)(c);
      var k := IndexOf(r.columns, c);
      assert r.columns[k] == t.columns[keep[k]];
      IndexOfUnique(t.columns, keep[k]);
    }
  }

  /**
   * `t.index = t[name]` followed by `t.drop(names, axis=1)`: the labels are
   * the column's cells, and the kept columns keep their cells.
   */
  lemma IndexedDrop(t: Table, name: string, names: seq<string>)
    requires Rectangular(t) && NoDup(t.columns) && name in t.columns
    ensures Rectangular(Drop(SetIndex(t, name), names))
    ensures |Drop(SetIndex(t, name), names).rows| == |t.rows|
    ensures Labels(Drop(SetIndex(t, name), names)) == Column(t, name)
    ensures forall k, c :: 0 <= k < |t.rows| && c in t.columns && c !in names ==>
      c in Drop(SetIndex(t, name), names).columns &&
      Lookup(Drop(SetIndex(t, name), names).rows[k], Drop(SetIndex(t, name), names).columns, c)
        == Lookup(t.rows[k], t.columns, c)
  {
    var indexed := SetIndex(t, name);
    DropLookup(indexed, names);
    forall k, c | 0 <= k < |t.rows| && c in t.columns
      ensures Lookup(indexed.rows[k], indexed.columns, c) == Lookup(t.rows[k], t.columns, c)
    {
      assert indexed.rows[k].cells == t.rows[k].cells;
    }
  }

  // ---------------------------------------------------------------------
  // Inner join

  /** Pairs ordered by their first component, then by their second. */
  predicate PairLess(a: (nat, nat), b: (nat, nat)) {
    a.0 < b.0 || (a.0 == b.0 && a.1 < b.1)
  }

  predicate PairsSorted(ps: seq<(nat, nat)>) {
    forall k, l :: 0 <= k < l < |ps| ==> PairLess(ps[k], ps[l])
  }

  predicate Increasing(s: seq<nat>) {
    forall k, l :: 0 <= k < l < |s| ==> s[k] < s[l]
  }

  /** The predicate "equals `key`". */
  function EqualTo<K(==)>(key: K): K -> bool {
    (x: K) => x == key
  }

  /** Each position of `xs` paired with each position of `ys`, `xs` varying slowest. */
  function Cross(xs: seq<nat>, ys: seq<nat>): (ps: seq<(nat, nat)>)
    ensures forall p :: p in ps <==> p.0 in xs && p.1 in ys
    ensures Increasing(xs) && Increasing(ys) ==> PairsSorted(ps)
  {
    if |xs| == 0 then []
    else
      var head := seq(|ys|, k requires 0 <= k < |ys| => (xs[0], ys[k]));
      var rest := Cross(xs[1..], ys);
      assert forall p :: p in head <==> p.0 == xs[0] && p.1 in ys by {
        forall p: (nat, nat) | p.0 == xs[0] && p.1 in ys ensures p in head {
          var k :| 0 <= k < |ys| && ys[k] == p.1;
          assert head[k] == p;
        }
      }
      assert forall i :: i in xs <==> i == xs[0] || i in xs[1..];
      assert Increasing(xs) ==> forall p :: p in rest ==> xs[0] < p.0 by {
        if Increasing(xs) {
          forall p | p in rest ensures xs[0] < p.0 {
            var m :| 0 <= m < |xs[1..]| && xs[1..][m] == p.0;
            assert xs[m + 1] == p.0;
          }
        }
      }
      assert Increasing(xs) ==> Increasing(xs[1..]);
      assert forall l :: 0 <= l < |rest| ==> rest[l] in rest;
      head + rest
  }

  /** The pairs of the groups of `keys`, group by group. */
  function KeyGroups(left: seq<Cell>, right: seq<Cell>, keys: seq<Cell>): seq<(nat, nat)> {
    if |keys| == 0 then []
    else
      Cross(KeptIndices(left, EqualTo(keys[0])), KeptIndices(right, EqualTo(keys[0])))
        + KeyGroups(left, right, keys[1..])
  }

  /** A kept position holds the key. */
  lemma KeptHasKey(s: seq<Cell>, key: Cell, i: nat)
    requires i in KeptIndices(s, EqualTo(key))
    ensures i < |s| && s[i] == key
  {
    var ks := KeptIndices(s, EqualTo(key));
    var k :| 0 <= k < |ks| && ks[k] == i;
  }

  /** The group of one key pairs exactly the positions holding that key. */
  lemma CrossMember(left: seq<Cell>, right: seq<Cell>, key: Cell, p: (nat, nat))
    ensures p in Cross(KeptIndices(left, EqualTo(key)), KeptIndices(right, EqualTo(key)))
      <==> p.0 < |left| && p.1 < |right| && left[p.0] == key && right[p.1] == key
  {
    if p.0 in KeptIndices(left, EqualTo(key)) {
      KeptHasKey(left, key, p.0);
    }
    if p.1 in KeptIndices(right, EqualTo(key)) {
      KeptHasKey(right, key, p.1);
    }
    if p.0 < |left| && left[p.0] == key {
      KeptIndicesComplete(left, EqualTo(key), p.0);
    }
    if p.1 < |right| && right[p.1] == key {
      KeptIndicesComplete(right, EqualTo(key), p.1);
    }
  }

  /** The groups of `keys` pair exactly the positions with equal keys among `keys`. */
  lemma {:induction false} KeyGroupsMember(left: seq<Cell>, right: seq<Cell>, keys: seq<Cell>)
    ensures forall p :: p in KeyGroups(left, right, keys) <==>
      p.0 < |left| && p.1 < |right| && left[p.0] == right[p.1] && left[p.0] in keys
  {
    if |keys| > 0 {
      KeyGroupsMember(left, right, keys[1..]);
      forall p {
        CrossMember(left, right, keys[0], p);
      }
      assert forall x :: x in keys <==> x == keys[0] || x in keys[1..];
    }
  }

  /** Pair `a` comes before pair `b` in a merge of `left`. */
  predicate JoinBefore(left: seq<Cell>, a: (nat, nat), b: (nat, nat))
    requires a.0 < |left| && b.0 < |left|
  {
    || IndexOf(left, left[a.0]) < IndexOf(left, left[b.0])
    || (left[a.0] == left[b.0] && PairLess(a, b))
  }

  /** The pairs are positions of `left`, strictly in merge order. */
  predicate JoinSorted(left: seq<Cell>, ps: seq<(nat, nat)>) {
    && (forall k :: 0 <= k < |ps| ==> ps[k].0 < |left|)
    && forall k, l :: 0 <= k < l < |ps| ==> JoinBefore(left, ps[k], ps[l])
  }

  /** One key's group, then groups of later keys, is in merge order. */
  lemma JoinSortedAppend(left: seq<Cell>, c: seq<(nat, nat)>, rest: seq<(nat, nat)>, key: Cell)
    requires key in left
    requires forall k :: 0 <= k < |c| ==> c[k].0 < |left| && left[c[k].0] == key
    requires PairsSorted(c) && JoinSorted(left, rest)
    requires forall q :: q in rest ==> q.0 < |left| && IndexOf(left, key) < IndexOf(left, left[q.0])
    ensures JoinSorted(left, c + rest)
  {
    var ps := c + rest;
    forall k | 0 <= k < |ps| ensures ps[k].0 < |left| {
      if k >= |c| {
        assert ps[k] == rest[k - |c|];
      }
    }
    forall k, l | 0 <= k < l < |ps| ensures JoinBefore(left, ps[k], ps[l]) {
      if l < |c| {
        assert ps[k] == c[k] && ps[l] == c[l];
      } else if k < |c| {
        assert ps[k] == c[k] && ps[l] == rest[l - |c|] && rest[l - |c|] in rest;
      } else {
        assert ps[k] == rest[k - |c|] && ps[l] == rest[l - |c|];
      }
    }
  }

  /** Groups listed in order of first left occurrence give pairs in merge order. */
  lemma {:induction false} KeyGroupsOrdered(left: seq<Cell>, right: seq<Cell>, keys: seq<Cell>)
    requires forall x :: x in keys ==> x in left
    requires forall a, b :: 0 <= a < b < |keys| ==> IndexOf(left, keys[a]) < IndexOf(left, keys[b])
    ensures JoinSorted(left, KeyGroups(left, right, keys))
  {
    if |keys| > 0 {
      var li, ri := KeptIndices(left, EqualTo(keys[0])), KeptIndices(right, EqualTo(keys[0]));
      var c, rest := Cross(li, ri), KeyGroups(left, right, keys[1..]);
      KeyGroupsOrdered(left, right, keys[1..]);
      KeyGroupsMember(left, right, keys[1..]);
      forall k | 0 <= k < |c| ensures c[k].0 < |left| && left[c[k].0] == keys[0] {
        CrossMember(left, right, keys[0], c[k]);
      }
      assert Increasing(li) && Increasing(ri);
      forall q | q in rest ensures q.0 < |left| && IndexOf(left, keys[0]) < IndexOf(left, left[q.0]) {
        var g :| 0 <= g < |keys[1..]| && keys[1..][g] == left[q.0];
        assert keys[g + 1] == left[q.0];
      }
      JoinSortedAppend(left, c, rest, keys[0]);
    }
  }

  /**
   * The (left, right) position pairs with equal keys, in the order an inner
   * `pd.merge(left, right, how="inner", sort=False, ...)` of pandas before
   * 2.2 produces them: grouped by key, the groups in the order of each key's
   * first occurrence on the left, the missing-value key included (it matches
   * itself); within a group by left position, then by right position. Each
   * matching pair occurs once.
   */
  function JoinPairs(left: seq<Cell>, right: seq<Cell>): (ps: seq<(nat, nat)>)
    ensures forall k :: 0 <= k < |ps| ==>
      ps[k].0 < |left| && ps[k].1 < |right| && left[ps[k].0] == right[ps[k].1]
  {
    var keys := FirstSeen(left);
    var ps := KeyGroups(left, right, keys);
    KeyGroupsMember(left, right, keys);
    assert forall k :: 0 <= k < |ps| ==> ps[k] in ps;
    ps
  }

  /**
   * The joined pairs come in merge order: by the first left position of
   * their key, then by left position, then by right position.
   */
  lemma JoinPairsOrdered(left: seq<Cell>, right: seq<Cell>)
    ensures JoinSorted(left, JoinPairs(left, right))
  {
    KeyGroupsOrdered(left, right, FirstSeen(left));
  }

  /**
   * `pd.merge(left, right, how="inner", left_on=leftOn, right_on=rightOn)`:
   * one row per joined pair, its cells the left row's followed by the right
   * row's, under a fresh 0, 1, 2, ... index.
   */
  function Merge(left: Table, right: Table, leftOn: string, rightOn: string): (r: Table)
    requires Rectangular(left) && Rectangular(right)
    requires leftOn in left.columns && rightOn in right.columns
    ensures Rectangular(r)
    ensures r.columns == left.columns + right.columns
    ensures |r.rows| == |JoinPairs(Column(left, leftOn), Column(right, rightOn))|
    ensures forall k :: 0 <= k < |r.rows| ==> r.rows[k].index == Num(k as real)
  {
    var ps := JoinPairs(Column(left, leftOn), Column(right, rightOn));
    Table(left.columns + right.columns, seq(|ps|, k requires 0 <= k < |ps| =>
      Row(Num(k as real), left.rows[ps[k].0].cells + right.rows[ps[k].1].cells)))
  }

  /** Merge order is a strict order: never both ways, never reflexive. */
  lemma JoinBeforeAsymmetric(left: seq<Cell>, x: (nat, nat), y: (nat, nat))
    requires x.0 < |left| && y.0 < |left|
    ensures !(JoinBefore(left, x, y) && JoinBefore(left, y, x))
    ensures !JoinBefore(left, x, x)
  {
  }

  /** Every later pair of a listing in merge order comes after its first one. */
  lemma JoinSortedHead(left: seq<Cell>, a: seq<(nat, nat)>, x: (nat, nat))
    requires JoinSorted(left, a) && |a| > 0 && x in a[1..]
    ensures a[0].0 < |left| && x.0 < |left| && JoinBefore(left, a[0], x)
  {
    var k :| 0 <= k < |a[1..]| && a[1..][k] == x;
    assert a[k + 1] == x;
  }

  /** A set of pairs has only one listing in merge order. */
  lemma {:induction false} JoinOrderUnique(left: seq<Cell>, a: seq<(nat, nat)>, b: seq<(nat, nat)>)
    requires JoinSorted(left, a) && JoinSorted(left, b)
    requires forall x :: x in a <==> x in b
    ensures a == b
  {
    assert |a| > 0 ==> a[0] in b;
    assert |b| > 0 ==> b[0] in a;
    if |a| > 0 && |b| > 0 {
      assert a == [a[0]] + a[1..] && b == [b[0]] + b[1..];
      if a[0] != b[0] {
        assert false;
      }
      forall x ensures x in a[1..] <==> x in b[1..] {
        if x in a[1..] {
          JoinSortedHead(left, a, x);
          JoinBeforeAsymmetric(left, x, x);
          assert x in b;
        }
        if x in b[1..] {
          JoinSortedHead(left, b, x);
          JoinBeforeAsymmetric(left, x, x);
          assert x in a;
        }
      }
      assert JoinSorted(left, a[1..]) && JoinSorted(left, b[1..]);
      JoinOrderUnique(left, a[1..], b[1..]);
    }
  }

  /** The joined pairs are exactly the position pairs with equal keys. */
  lemma JoinPairsExact(left: seq<Cell>, right: seq<Cell>)
    ensures forall p :: p in JoinPairs(left, right) <==>
      p.0 < |left| && p.1 < |right| && left[p.0] == right[p.1]
  {
    var keys := FirstSeen(left);
    KeyGroupsMember(left, right, keys);
    assert JoinPairs(left, right) == KeyGroups(left, right, keys);
    forall i: nat | i < |left| ensures left[i] in keys {
      assert left[i] in left;
    }
  }

  /**
   * The order is by first occurrence of the key on the left, not by left
   * position: left keys A, B, A against right keys A, B give the pairs of
   * both A rows before the B row's.
   */
  lemma GroupedJoinOrder()
    ensures JoinPairs([Str("A"), Str("B"), Str("A")], [Str("A"), Str("B")]) == [(0, 0), (2, 0), (1, 1)]
  {
    var left, right := [Str("A"), Str("B"), Str("A")], [Str("A"), Str("B")];
    var ps := JoinPairs(left, right);
    GroupedJoinMembers(left, right);
    GroupedJoinSorted();
    JoinPairsOrdered(left, right);
    JoinOrderUnique(left, ps, [(0, 0), (2, 0), (1, 1)]);
  }

  /** The pairs of a join of keys x, y, x against x, y, as a set. */
  lemma GroupedJoinMembers(left: seq<Cell>, right: seq<Cell>)
    requires |left| == 3 && |right| == 2 && left[0] == left[2] == right[0] && left[1] == right[1] != left[0]
    ensures forall x :: x in JoinPairs(left, right) <==> x in [(0, 0), (2, 0), (1, 1)]
  {
    JoinPairsExact(left, right);
    GroupedEqualKeys(left, right);
  }

  /** The equal-key position pairs of keys x, y, x against x, y. */
  lemma GroupedEqualKeys(left: seq<Cell>, right: seq<Cell>)
    requires |left| == 3 && |right| == 2 && left[0] == left[2] == right[0] && left[1] == right[1] != left[0]
    ensures forall x: (nat, nat) :: x.0 < |left| && x.1 < |right| && left[x.0] == right[x.1] <==> x in [(0, 0), (2, 0), (1, 1)]
  {
  }

  lemma GroupedJoinSorted()
    ensures JoinSorted([Str("A"), Str("B"), Str("A")], [(0, 0), (2, 0), (1, 1)])
  {
    var left := [Str("A"), Str("B"), Str("A")];
    assert IndexOf(left, Str("A")) == 0;
    assert IndexOf(left, Str("B")) == 1;
  }

  /**
   * The missing-value key is not set apart: its group comes at its first
   * left occurrence like any other key's. Map keys NA, "E1" against frame
   * keys "E1", NA give the NA pair first.
   */
  lemma MissingKeyJoinOrder()
    ensures JoinPairs([NA, Str("E1")], [Str("E1"), NA]) == [(0, 1), (1, 0)]
  {
    var left, right := [NA, Str("E1")], [Str("E1"), NA];
    SwappedJoinMembers(left, right);
    SwappedJoinSorted(left);
    JoinPairsOrdered(left, right);
    JoinOrderUnique(left, JoinPairs(left, right), [(0, 1), (1, 0)]);
  }

  /** The pairs of a join of keys x, y against y, x, as a set. */
  lemma SwappedJoinMembers(left: seq<Cell>, right: seq<Cell>)
    requires |left| == 2 && |right| == 2 && left[0] == right[1] && left[1] == right[0] && left[0] != left[1]
    ensures forall x :: x in JoinPairs(left, right) <==> x in [(0, 1), (1, 0)]
  {
    JoinPairsExact(left, right);
    SwappedEqualKeys(left, right);
  }

  /** The equal-key position pairs of keys x, y against y, x. */
  lemma SwappedEqualKeys(left: seq<Cell>, right: seq<Cell>)
    requires |left| == 2 && |right| == 2 && left[0] == right[1] && left[1] == right[0] && left[0] != left[1]
    ensures forall x: (nat, nat) :: x.0 < |left| && x.1 < |right| && left[x.0] == right[x.1] <==> x in [(0, 1), (1, 0)]
  {
  }

  lemma SwappedJoinSorted(left: seq<Cell>)
    requires |left| == 2 && left[0] != left[1]
    ensures JoinSorted(left, [(0, 1), (1, 0)])
  {
    assert IndexOf(left, left[0]) == 0;
    assert IndexOf(left, left[1]) == 1;
  }

  /** Two duplicate-free sequences with no common element concatenate without duplicates. */
  lemma NoDupConcat<T>(a: seq<T>, b: seq<T>)
    requires NoDup(a) && NoDup(b) && forall x :: x in a ==> x !in b
    ensures NoDup(a + b)
  {
    forall i, j | 0 <= i < j < |a + b| ensures (a + b)[i] != (a + b)[j] {
      if i < |a| && j >= |a| {
        assert (a + b)[i] in a && (a + b)[j] == b[j - |a|];
      }
    }
  }

  /** Without duplicates in `a + b`, an element of `b` is not in `a`. */
  lemma NoDupAppendDisjoint<T>(b: seq<T>, a: seq<T>, x: T)
    requires NoDup(a + b) && x in b
    ensures x !in a
  {
    var j := IndexOf(b, x);
    forall i | 0 <= i < |a| ensures a[i] != x {
      assert (a + b)[i] == a[i] && (a + b)[|a| + j] == x;
    }
  }

  /**
   * Row `k` of a merge is joined pair `k`: under each label of the left
   * table it holds the left row's cell, under each label of the right
   * table the right row's cell.
   */
  lemma MergeLookup(left: Table, right: Table, leftOn: string, rightOn: string)
    requires Rectangular(left) && Rectangular(right)
    requires leftOn in left.columns && rightOn in right.columns
    requires NoDup(left.columns + right.columns)
    ensures var ps := JoinPairs(Column(left, leftOn), Column(right, rightOn));
      && |Merge(left, right, leftOn, rightOn).rows| == |ps|
      && (forall k, c :: 0 <= k < |ps| && c in left.columns ==>
            Lookup(Merge(left, right, leftOn, rightOn).rows[k], left.columns + right.columns, c)
              == Lookup(left.rows[ps[k].0], left.columns, c))
      && (forall k, c :: 0 <= k < |ps| && c in right.columns ==>
            Lookup(Merge(left, right, leftOn, rightOn).rows[k], left.columns + right.columns, c)
              == Lookup(right.rows[ps[k].1], right.columns, c))
  {
    var ps := JoinPairs(Column(left, leftOn), Column(right, rightOn));
    var m := Merge(left, right, leftOn, rightOn);
    forall k | 0 <= k < |ps|
      ensures m.rows[k].cells == left.rows[ps[k].0].cells + right.rows[ps[k].1].cells
    {
    }
    forall k, c | 0 <= k < |ps| && c in left.columns
      ensures Lookup(m.rows[k], left.columns + right.columns, c) == Lookup(left.rows[ps[k].0], left.columns, c)
    {
      LookupJoined(m.rows[k], left.rows[ps[k].0], right.rows[ps[k].1], left.columns, right.columns, c);
    }
    forall k, c | 0 <= k < |ps| && c in right.columns
      ensures Lookup(m.rows[k], left.columns + right.columns, c) == Lookup(right.rows[ps[k].1], right.columns, c)
    {
      LookupJoined(m.rows[k], left.rows[ps[k].0], right.rows[ps[k].1], left.columns, right.columns, c);
    }
  }

  /** A row made of a left row's cells and a right row's cells, looked up by label. */
  lemma LookupJoined(row: Row, l: Row, r: Row, lc: seq<string>, rc: seq<string>, c: string)
    requires |l.cells| == |lc| && |r.cells| == |rc| && row.cells == l.cells + r.cells
    requires NoDup(lc + rc) && (c in lc || c in rc)
    ensures c in lc ==> Lookup(row, lc + rc, c) == Lookup(l, lc, c)
    ensures c in rc ==> Lookup(row, lc + rc, c) == Lookup(r, rc, c)
  {
    if c in lc {
      IndexOfPrefix(lc, rc, c);
    } else {
      IndexOfAppend(lc, rc, c);
    }
    if c in rc {
      NoDupAppendDisjoint(rc, lc, c);
      IndexOfAppend(lc, rc, c);
    }
  }

  // ---------------------------------------------------------------------
  // A frame changed in place

  /** A pandas frame whose columns a caller's assignment replaces. */
  class Frame {
    var columns: seq<string>
    var rows: seq<Row>

    function Value(): Table
      reads this
    {
      Table(columns, rows)
    }

    constructor (t: Table)
      ensures Value() == t
    {
      columns := t.columns;
      rows := t.rows;
    }

    /** `df[name] = values`. */
    method SetColumn(name: string, values: seq<Cell>)
      requires Rectangular(Value()) && |values| == |rows|
      modifies this
      ensures Value() == WithColumn(old(Value()), name, values)
    {
      var t := WithColumn(Value(), name, values);
      columns := t.columns;
      rows := t.rows;
    }
  }
}
