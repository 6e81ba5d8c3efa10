/** The tabular data model shared by the processed files and the warehouse.

    A dataframe (polars) and a warehouse table (DuckDB) are both a relation: an
    ordered list of distinct column names, a type per column, and rows. A row maps
    every column of its relation to a cell, and a cell is either null or a value.
    Identity is the `extraction_id` cell. */
module Frames {

  datatype Option<+T> = None | Some(value: T)

  type Column = string

  /** A non-null cell. A number carries its value and the text Python's `str()`
      gives for it. */
  datatype Value = Text(s: string) | Number(x: real, shown: string) | Flag(b: bool)

  type Cell = Option<Value>

  type Row = map<Column, Cell>

  /** The polars data types the loader distinguishes, and the others. */
  datatype DType =
    | Int8 | Int16 | Int32 | Int64 | UInt8 | UInt16 | UInt32 | UInt64
    | Float32 | Float64 | Boolean | Utf8 | Date | Datetime | Null
    | Other(name: string)

  datatype Relation<T> = Relation(columns: seq<Column>, types: map<Column, T>, rows: seq<Row>)

  /** A polars DataFrame. */
  type Frame = Relation<DType>

  /** Python's `str(value)`; `str(None)` is "None". */
  function Show(c: Cell): string
  {
    match c
    case None => "None"
    case Some(Text(s)) => s
    case Some(Number(_, shown)) => shown
    case Some(Flag(b)) => if b then "True" else "False"
  }

  function Elems(xs: seq<Column>): set<Column>
  {
    set x | x in xs
  }

  predicate Distinct(xs: seq<Column>)
  {
    forall i, j :: 0 <= i < j < |xs| ==> xs[i] != xs[j]
  }

  /** Column names are unique, every column has a type, and every row has exactly
      one cell per column: what a DataFrame or a table always satisfies. */
  predicate WellFormed<T>(t: Relation<T>)
  {
    && Distinct(t.columns)
    && t.types.Keys == Elems(t.columns)
    && forall r :: r in t.rows ==> r.Keys == Elems(t.columns)
  }

  /** The cell of row r in column c; null when the row has no such column. */
  function Get(r: Row, c: Column): Cell
  {
    if c in r then r[c] else None
  }

  const IdColumn: Column := "extraction_id"

  function IdOf(r: Row): Cell
  {
    Get(r, IdColumn)
  }

  function IdSet(rows: seq<Row>): set<Cell>
  {
    set r | r in rows :: IdOf(r)
  }

  /** No two rows share an identity (two nulls count as equal, as in polars). */
  predicate DistinctIds(rows: seq<Row>)
  {
    forall i, j :: 0 <= i < j < |rows| ==> IdOf(rows[i]) != IdOf(rows[j])
  }

  /** The columns of xs that are not in s, in their original order. */
  function Without(xs: seq<Column>, s: set<Column>): (r: seq<Column>)
    ensures Elems(r) == Elems(xs) - s
    ensures |r| <= |xs|
  {
    if xs == [] then []
    else
      var init, last := xs[..|xs| - 1], xs[|xs| - 1];
      assert xs == init + [last];
      assert Elems(xs) == Elems(init) + {last};
      var tail := if last in s then [] else [last];
      ElemsConcat(Without(init, s), tail);
      Without(init, s) + tail
  }

  lemma ElemsConcat(xs: seq<Column>, ys: seq<Column>)
    ensures Elems(xs + ys) == Elems(xs) + Elems(ys)
  {
    assert forall x :: x in xs + ys <==> x in xs || x in ys;
  }

  /** Without on a list extended by one column. */
  lemma WithoutSnoc(xs: seq<Column>, x: Column, s: set<Column>)
    ensures Without(xs + [x], s) == Without(xs, s) + (if x in s then [] else [x])
  {
    assert (xs + [x])[..|xs|] == xs;
  }

  lemma {:induction false} WithoutDistinct(xs: seq<Column>, s: set<Column>)
    requires Distinct(xs)
    ensures Distinct(Without(xs, s))
  {
    if xs != [] {
      var init, last := xs[..|xs| - 1], xs[|xs| - 1];
      WithoutDistinct(init, s);
      assert last !in Elems(init);
      var w := Without(init, s);
      if last !in s {
        var ws := w + [last];
        forall i, j | 0 <= i < j < |ws| ensures ws[i] != ws[j] {
          if j == |w| {
            assert ws[i] in Elems(w);
          }
        }
      }
    }
  }

  /** Removing columns that are absent changes nothing. */
  lemma {:induction false} WithoutAbsent(xs: seq<Column>, s: set<Column>)
    requires Elems(xs) !! s
    ensures Without(xs, s) == xs
  {
    if xs != [] {
      var init := xs[..|xs| - 1];
      assert Elems(init) <= Elems(xs);
      WithoutAbsent(init, s);
      assert init + [xs[|xs| - 1]] == xs;
    }
  }

  /** Removing a superset of the columns leaves nothing. */
  lemma {:induction false} WithoutCovered(xs: seq<Column>, s: set<Column>)
    requires Elems(xs) <= s
    ensures Without(xs, s) == []
  {
    if xs != [] {
      var init := xs[..|xs| - 1];
      assert Elems(init) <= Elems(xs);
      WithoutCovered(init, s);
    }
  }

  /** Only the removed columns that occur in xs matter. */
  lemma {:induction false} WithoutSameOn(xs: seq<Column>, s1: set<Column>, s2: set<Column>)
    requires forall c :: c in xs ==> (c in s1 <==> c in s2)
    ensures Without(xs, s1) == Without(xs, s2)
  {
    if xs != [] {
      var init := xs[..|xs| - 1];
      assert forall c :: c in init ==> c in xs;
      WithoutSameOn(init, s1, s2);
    }
  }

  /** Removing s1 and then s2 is removing both at once. */
  lemma {:induction false} WithoutTwice(xs: seq<Column>, s1: set<Column>, s2: set<Column>)
    ensures Without(Without(xs, s1), s2) == Without(xs, s1 + s2)
  {
    if xs != [] {
      var init, last := xs[..|xs| - 1], xs[|xs| - 1];
      WithoutTwice(init, s1, s2);
      var w := Without(init, s1);
      assert Without(xs, s1) == w + (if last in s1 then [] else [last]);
      assert Without(xs, s1 + s2) == Without(init, s1 + s2) + (if last in s1 + s2 then [] else [last]);
      if last !in s1 {
        WithoutSnoc(w, last, s2);
      } else {
        assert Without(xs, s1) == w;
      }
    }
  }

  /** Row r widened (or narrowed) to exactly the columns cols; missing cells are null. */
  function Pad(r: Row, cols: set<Column>): (p: Row)
    ensures p.Keys == cols
    ensures forall c :: c in cols ==> p[c] == Get(r, c)
  {
    map c | c in cols :: Get(r, c)
  }

  /** Widening a row to its own columns changes nothing. */
  lemma PadOwnKeys(r: Row)
    ensures Pad(r, r.Keys) == r
  {
  }

  function PadAll(rows: seq<Row>, cols: set<Column>): (p: seq<Row>)
    ensures |p| == |rows|
    ensures forall i :: 0 <= i < |rows| ==> p[i] == Pad(rows[i], cols)
  {
    seq(|rows|, i requires 0 <= i < |rows| => Pad(rows[i], cols))
  }

  lemma PadAllKeys(rows: seq<Row>, cols: set<Column>)
    ensures forall r :: r in PadAll(rows, cols) ==> r.Keys == cols
  {
    var p := PadAll(rows, cols);
    forall r | r in p ensures r.Keys == cols {
      var k :| 0 <= k < |p| && p[k] == r;
    }
  }

  /** Rows padded to the same columns, laid end to end. */
  lemma PadAllConcat(xs: seq<Row>, ys: seq<Row>, cols: set<Column>)
    ensures var p := PadAll(xs, cols) + PadAll(ys, cols);
      && (forall j :: 0 <= j < |ys| ==> p[|xs| + j] == Pad(ys[j], cols))
      && (forall r :: r in p ==> r.Keys == cols)
  {
    var pa, pb := PadAll(xs, cols), PadAll(ys, cols);
    var p := pa + pb;
    forall j | 0 <= j < |ys| ensures p[|xs| + j] == Pad(ys[j], cols) {
      assert p[|xs| + j] == pb[j];
    }
    PadAllKeys(xs, cols);
    PadAllKeys(ys, cols);
    forall r | r in p ensures r.Keys == cols {
      assert r in pa || r in pb;
    }
  }

  /** Padding keeps a row's identity, as long as the identity column is kept when the row has it. */
  lemma PadKeepsId(r: Row, cols: set<Column>)
    requires IdColumn in r ==> IdColumn in cols
    ensures IdOf(Pad(r, cols)) == IdOf(r)
  {
  }

  /** `df.drop(list(s))` / `ALTER TABLE ... DROP COLUMN` for each column of s. */
  function DropColumns<T>(t: Relation<T>, s: set<Column>): (r: Relation<T>)
    ensures |r.rows| == |t.rows|
    ensures forall i :: 0 <= i < |t.rows| ==> r.rows[i] == t.rows[i] - s
  {
    Relation(Without(t.columns, s), t.types - s,
             seq(|t.rows|, i requires 0 <= i < |t.rows| => t.rows[i] - s))
  }

  /** Dropping columns keeps a relation well formed, and leaves exactly the other columns. */
  lemma DropColumnsWellFormed<T>(t: Relation<T>, s: set<Column>)
    requires WellFormed(t)
    ensures WellFormed(DropColumns(t, s))
    ensures Elems(DropColumns(t, s).columns) == Elems(t.columns) - s
  {
    WithoutDistinct(t.columns, s);
  }

  lemma MapMinusAbsent<V>(m: map<Column, V>, s: set<Column>)
    requires m.Keys !! s
    ensures m - s == m
  {
  }

  /** Dropping columns the relation does not have changes nothing. */
  lemma DropAbsentColumns<T>(t: Relation<T>, s: set<Column>)
    requires WellFormed(t)
    requires Elems(t.columns) !! s
    ensures DropColumns(t, s) == t
  {
    WithoutAbsent(t.columns, s);
    MapMinusAbsent(t.types, s);
    var d := DropColumns(t, s);
    forall i | 0 <= i < |t.rows| ensures d.rows[i] == t.rows[i] {
      assert t.rows[i] in t.rows;
      MapMinusAbsent(t.rows[i], s);
    }
    assert d.rows == t.rows;
  }

  /** Only the dropped columns the relation has matter; dropping none of its own
      columns changes nothing. */
  lemma DropOnlyPresent<T>(t: Relation<T>, s: set<Column>)
    requires WellFormed(t)
    ensures DropColumns(t, Elems(t.columns) * s) == DropColumns(t, s)
    ensures Elems(t.columns) * s == {} ==> DropColumns(t, s) == t
  {
    DropColumnsSameOn(t, Elems(t.columns) * s, s);
    if Elems(t.columns) * s == {} {
      assert Elems(t.columns) !! s by {
        forall c | c in Elems(t.columns) ensures c !in s {
          assert c !in Elems(t.columns) * s;
        }
      }
      DropAbsentColumns(t, s);
    }
  }

  lemma DistinctConcat(xs: seq<Column>, ys: seq<Column>)
    requires Distinct(xs) && Distinct(ys) && Elems(xs) !! Elems(ys)
    ensures Distinct(xs + ys)
  {
    var zs := xs + ys;
    forall i, j | 0 <= i < j < |zs| ensures zs[i] != zs[j] {
      if i < |xs| <= j {
        assert zs[i] in Elems(xs);
        assert zs[j] == ys[j - |xs|];
        assert zs[j] in Elems(ys);
      }
    }
  }

  /** Dropping other columns keeps every row's identity. */
  lemma DropColumnsKeepsIds<T>(t: Relation<T>, s: set<Column>)
    requires IdColumn !in s
    ensures IdSet(DropColumns(t, s).rows) == IdSet(t.rows)
    ensures forall i :: 0 <= i < |t.rows| ==> IdOf(DropColumns(t, s).rows[i]) == IdOf(t.rows[i])
  {
    var d := DropColumns(t, s);
    forall i | 0 <= i < |t.rows| ensures IdOf(d.rows[i]) == IdOf(t.rows[i]) {
      assert d.rows[i] == t.rows[i] - s;
    }
    forall x | x in IdSet(d.rows) ensures x in IdSet(t.rows) {
      var k :| 0 <= k < |d.rows| && IdOf(d.rows[k]) == x;
      assert t.rows[k] in t.rows;
    }
    forall x | x in IdSet(t.rows) ensures x in IdSet(d.rows) {
      var k :| 0 <= k < |t.rows| && IdOf(t.rows[k]) == x;
      assert d.rows[k] in d.rows;
    }
  }

  /** Removing keys from a map: only the removed keys it has matter. */
  lemma MapMinusSameOn<V>(m: map<Column, V>, s1: set<Column>, s2: set<Column>)
    requires m.Keys * s1 == m.Keys * s2
    ensures m - s1 == m - s2
  {
    forall c | c in m.Keys ensures c in s1 <==> c in s2 {
      assert c in s1 <==> c in m.Keys * s1;
      assert c in s2 <==> c in m.Keys * s2;
    }
  }

  /** Only the dropped columns the relation has matter. */
  lemma DropColumnsSameOn<T>(t: Relation<T>, s1: set<Column>, s2: set<Column>)
    requires WellFormed(t)
    requires Elems(t.columns) * s1 == Elems(t.columns) * s2
    ensures DropColumns(t, s1) == DropColumns(t, s2)
  {
    forall c | c in t.columns ensures c in s1 <==> c in s2 {
      assert c in Elems(t.columns);
      assert c in s1 <==> c in Elems(t.columns) * s1;
      assert c in s2 <==> c in Elems(t.columns) * s2;
    }
    WithoutSameOn(t.columns, s1, s2);
    MapMinusSameOn(t.types, s1, s2);
    var a, b := DropColumns(t, s1), DropColumns(t, s2);
    forall i | 0 <= i < |t.rows| ensures a.rows[i] == b.rows[i] {
      assert t.rows[i] in t.rows;
      MapMinusSameOn(t.rows[i], s1, s2);
    }
    assert a.rows == b.rows;
  }

  lemma DropColumnsTwice<T>(t: Relation<T>, s1: set<Column>, s2: set<Column>)
    ensures DropColumns(DropColumns(t, s1), s2) == DropColumns(t, s1 + s2)
  {
    WithoutTwice(t.columns, s1, s2);
    var a := DropColumns(DropColumns(t, s1), s2);
    var b := DropColumns(t, s1 + s2);
    assert a.types == b.types;
    assert a.rows == b.rows by {
      forall i | 0 <= i < |t.rows| ensures a.rows[i] == b.rows[i] {
        assert t.rows[i] - s1 - s2 == t.rows[i] - (s1 + s2);
      }
    }
  }
}
