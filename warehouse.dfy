/** The DuckDB side of the loader (src/load.py): column types, identifier
    quoting, the `schema.relation` split, and the table changes that
    `load_into_duckdb` makes (creation, schema evolution, removal of the
    deprecated columns, delete-then-insert by identity) as functions on tables. */
module Warehouse {
  import opened Frames
  import opened Processed

  /** The column types the loader writes. A created table takes the types DuckDB
      derives from the batch's Arrow schema, which the model keeps opaque. */
  datatype SqlType = BIGINT | DOUBLE | BOOLEAN | VARCHAR | FromArrow(arrow: DType)

  /** A DuckDB table. */
  type Table = Relation<SqlType>

  // ---------------------------------------------------------------------------
  // _to_duckdb_type

  predicate IsInteger(d: DType)
  {
    d.Int8? || d.Int16? || d.Int32? || d.Int64? || d.UInt8? || d.UInt16? || d.UInt32? || d.UInt64?
  }

  predicate IsFloat(d: DType)
  {
    d.Float32? || d.Float64?
  }

  /** `_to_duckdb_type`: every integer width is BIGINT, both float widths DOUBLE,
      booleans BOOLEAN, and everything else falls back to VARCHAR. */
  function ToDuckDbType(d: DType): (t: SqlType)
    ensures t == BIGINT <==> IsInteger(d)
    ensures t == DOUBLE <==> IsFloat(d)
    ensures t == BOOLEAN <==> d == Boolean
    ensures t == VARCHAR <==> !IsInteger(d) && !IsFloat(d) && d != Boolean
    ensures !t.FromArrow?
  {
    match d
    case Int8 | Int16 | Int32 | Int64 | UInt8 | UInt16 | UInt32 | UInt64 => BIGINT
    case Float32 | Float64 => DOUBLE
    case Boolean => BOOLEAN
    case _ => VARCHAR
  }

  // ---------------------------------------------------------------------------
  // _quote_ident

  /** `s.replace('"', '""')`. */
  function DoubleQuotes(s: string): (r: string)
    ensures |r| >= |s|
  {
    if s == [] then []
    else (if s[0] == '"' then "\"\"" else [s[0]]) + DoubleQuotes(s[1..])
  }

  /** Reads the body of a quoted identifier back: `""` stands for one quote, and
      a lone quote cannot occur in it. */
  function Undouble(s: string): Option<string>
    decreases |s|
  {
    if s == [] then Some([])
    else if s[0] != '"' then
      match Undouble(s[1..])
      case None => None
      case Some(t) => Some([s[0]] + t)
    else if |s| >= 2 && s[1] == '"' then
      match Undouble(s[2..])
      case None => None
      case Some(t) => Some("\"" + t)
    else None
  }

  /** The name a double-quoted SQL identifier denotes, if q is one. */
  function Unquote(q: string): Option<string>
  {
    if |q| >= 2 && q[0] == '"' && q[|q| - 1] == '"' then Undouble(q[1..|q| - 1]) else None
  }

  lemma {:induction false} UndoubleRoundTrip(s: string)
    ensures Undouble(DoubleQuotes(s)) == Some(s)
  {
    if s != [] {
      UndoubleRoundTrip(s[1..]);
      var d := DoubleQuotes(s);
      if s[0] == '"' {
        assert d[2..] == DoubleQuotes(s[1..]);
      } else {
        assert d[1..] == DoubleQuotes(s[1..]);
      }
      assert s == [s[0]] + s[1..];
    }
  }

  /** `_quote_ident`: the name in double quotes, each embedded quote doubled, so
      that SQL reads back exactly the name. */
  function QuoteIdent(name: string): (q: string)
    ensures |q| >= 2 && q[0] == '"' && q[|q| - 1] == '"'
    ensures Unquote(q) == Some(name)
  {
    UndoubleRoundTrip(name);
    var q := "\"" + DoubleQuotes(name) + "\"";
    assert q[1..|q| - 1] == DoubleQuotes(name);
    q
  }

  /** Different names never quote alike. */
  lemma QuoteIdentInjective(a: string, b: string)
    requires QuoteIdent(a) == QuoteIdent(b)
    ensures a == b
  {
    assert Unquote(QuoteIdent(a)) == Some(a);
  }

  // ---------------------------------------------------------------------------
  // table_name.split(".", 1)

  /** `schema, relation = name.split(".", 1)`: the text before the first dot and
      the rest; unpacking fails when there is no dot. */
  function SplitQualified(name: string): (r: Option<(string, string)>)
    ensures r.None? <==> '.' !in name
    ensures r.Some? ==> r.value.0 + "." + r.value.1 == name && '.' !in r.value.0
  {
    if name == [] then None
    else if name[0] == '.' then Some(([], name[1..]))
    else
      match SplitQualified(name[1..])
      case None => None
      case Some((s, rel)) => Some(([name[0]] + s, rel))
  }

  /** The split is at the first dot: any dot-free prefix followed by a dot is the schema. */
  lemma {:induction false} SplitQualifiedFirstDot(name: string, s: string, rel: string)
    requires s + "." + rel == name && '.' !in s
    ensures SplitQualified(name) == Some((s, rel))
  {
    if s != [] {
      assert name[1..] == s[1..] + "." + rel;
      SplitQualifiedFirstDot(name[1..], s[1..], rel);
      assert [name[0]] + s[1..] == s;
    } else {
      assert name[1..] == rel;
    }
  }

  // ---------------------------------------------------------------------------
  // CREATE TABLE IF NOT EXISTS ... AS SELECT * FROM batch WHERE 1=0

  /** The table created from a batch: its columns, in order, and no rows; each
      column typed as DuckDB reads the batch's Arrow type. */
  function Created(batch: Frame): (t: Table)
    requires WellFormed(batch)
    ensures WellFormed(t)
    ensures t.columns == batch.columns && t.rows == []
  {
    Relation(batch.columns, map c | c in batch.types :: FromArrow(batch.types[c]), [])
  }

  // ---------------------------------------------------------------------------
  // _ensure_duckdb_schema

  /** `ALTER TABLE t ADD COLUMN c ty`: a new last column, null in every row. */
  function AddColumn(t: Table, c: Column, ty: SqlType): (r: Table)
    ensures |r.rows| == |t.rows|
    ensures forall i :: 0 <= i < |t.rows| ==> r.rows[i] == t.rows[i][c := None]
  {
    Relation(t.columns + [c], t.types[c := ty], seq(|t.rows|, i requires 0 <= i < |t.rows| => t.rows[i][c := None]))
  }

  /** The schema loop over the batch columns cols: a column outside existing (the
      table's columns, read once before the loop) is added with its mapped type. */
  function Extend(t: Table, cols: seq<Column>, types: map<Column, DType>, existing: set<Column>): Table
    requires forall c :: c in cols ==> c in types
  {
    if cols == [] then t
    else
      var init, last := cols[..|cols| - 1], cols[|cols| - 1];
      assert forall c :: c in init ==> c in cols;
      var u := Extend(t, init, types, existing);
      if last in existing then u else AddColumn(u, last, ToDuckDbType(types[last]))
  }

  /** Table t with the columns extra appended, typed from types, and null in every row. */
  function Widened(t: Table, extra: seq<Column>, types: map<Column, DType>): Table
  {
    Relation(t.columns + extra, t.types + Typed(Elems(extra), types), PadAll(t.rows, Elems(t.columns) + Elems(extra)))
  }

  /** The mapped types of the columns s. */
  function Typed(s: set<Column>, types: map<Column, DType>): map<Column, SqlType>
  {
    map c | c in s && c in types :: ToDuckDbType(types[c])
  }

  /** The table after `_ensure_duckdb_schema` with the batch's columns and types. */
  function Evolved(t: Table, batch: Frame): Table
    requires WellFormed(batch)
  {
    Extend(t, batch.columns, batch.types, Elems(t.columns))
  }

  /** A row that lacks c, padded to s, then given a null c, is the row padded to s and c. */
  lemma PadSnoc(r: Row, s: set<Column>, c: Column)
    requires c !in r
    ensures Pad(r, s)[c := None] == Pad(r, s + {c})
  {
  }

  lemma WidenedEmpty(t: Table, types: map<Column, DType>)
    requires WellFormed(t)
    ensures Widened(t, [], types) == t
  {
    var w := Widened(t, [], types);
    assert Elems([]) == {};
    assert w.types == t.types;
    forall i | 0 <= i < |t.rows| ensures w.rows[i] == t.rows[i] {
      assert t.rows[i] in t.rows;
      PadOwnKeys(t.rows[i]);
    }
  }

  lemma TypedSnoc(base: map<Column, SqlType>, s: set<Column>, c: Column, types: map<Column, DType>)
    requires c in types
    ensures (base + Typed(s, types))[c := ToDuckDbType(types[c])] == base + Typed(s + {c}, types)
  {
  }

  lemma PadAllSnoc(rows: seq<Row>, s: set<Column>, c: Column)
    requires forall r :: r in rows ==> c !in r
    ensures forall i :: 0 <= i < |rows| ==> PadAll(rows, s)[i][c := None] == PadAll(rows, s + {c})[i]
  {
    forall i | 0 <= i < |rows| ensures PadAll(rows, s)[i][c := None] == PadAll(rows, s + {c})[i] {
      assert rows[i] in rows;
      PadSnoc(rows[i], s, c);
    }
  }

  lemma WidenedSnoc(t: Table, extra: seq<Column>, c: Column, types: map<Column, DType>)
    requires WellFormed(t) && c !in Elems(t.columns) && c in types
    ensures AddColumn(Widened(t, extra, types), c, ToDuckDbType(types[c])) == Widened(t, extra + [c], types)
  {
    var a := AddColumn(Widened(t, extra, types), c, ToDuckDbType(types[c]));
    var b := Widened(t, extra + [c], types);
    assert a.columns == b.columns;
    WidenedSnocTypes(t, extra, c, types);
    WidenedSnocRows(t, extra, c, types);
  }

  lemma SnocElems(cols: seq<Column>, extra: seq<Column>, c: Column)
    ensures Elems(cols) + Elems(extra + [c]) == (Elems(cols) + Elems(extra)) + {c}
  {
    ElemsConcat(extra, [c]);
    assert Elems([c]) == {c};
  }

  lemma WidenedSnocTypes(t: Table, extra: seq<Column>, c: Column, types: map<Column, DType>)
    requires c in types
    ensures AddColumn(Widened(t, extra, types), c, ToDuckDbType(types[c])).types == Widened(t, extra + [c], types).types
  {
    var e := Elems(extra);
    ElemsConcat(extra, [c]);
    assert Elems([c]) == {c};
    assert Typed(Elems(extra + [c]), types) == Typed(e + {c}, types);
    TypedSnoc(t.types, e, c, types);
  }

  lemma WidenedSnocRows(t: Table, extra: seq<Column>, c: Column, types: map<Column, DType>)
    requires WellFormed(t) && c !in Elems(t.columns) && c in types
    ensures AddColumn(Widened(t, extra, types), c, ToDuckDbType(types[c])).rows == Widened(t, extra + [c], types).rows
  {
    var s := Elems(t.columns) + Elems(extra);
    SnocElems(t.columns, extra, c);
    assert forall r :: r in t.rows ==> c !in r;
    PadAllSnoc(t.rows, s, c);
  }

  /** The schema loop adds exactly the batch columns the table lacks, in batch order. */
  lemma {:induction false} ExtendClosed(t: Table, cols: seq<Column>, types: map<Column, DType>)
    requires WellFormed(t)
    requires forall c :: c in cols ==> c in types
    ensures Extend(t, cols, types, Elems(t.columns)) == Widened(t, Without(cols, Elems(t.columns)), types)
  {
    var e := Elems(t.columns);
    if cols == [] {
      assert Without(cols, e) == [];
      WidenedEmpty(t, types);
    } else {
      var init, last := cols[..|cols| - 1], cols[|cols| - 1];
      assert cols == init + [last];
      assert forall c :: c in init ==> c in cols;
      ExtendClosed(t, init, types);
      var u := Extend(t, init, types, e);
      assert Extend(t, cols, types, e) == if last in e then u else AddColumn(u, last, ToDuckDbType(types[last]));
      WithoutSnoc(init, last, e);
      var w := Without(init, e);
      assert Without(cols, e) == w + (if last in e then [] else [last]);
      if last in e {
        assert w + [] == w;
      } else {
        WidenedSnoc(t, w, last, types);
      }
    }
  }

  lemma WidenedWellFormed(t: Table, extra: seq<Column>, types: map<Column, DType>)
    requires WellFormed(t) && Distinct(extra) && Elems(extra) !! Elems(t.columns)
    requires Elems(extra) <= types.Keys
    ensures WellFormed(Widened(t, extra, types))
    ensures Elems(Widened(t, extra, types).columns) == Elems(t.columns) + Elems(extra)
  {
    ElemsConcat(t.columns, extra);
    DistinctConcat(t.columns, extra);
    PadAllKeys(t.rows, Elems(t.columns) + Elems(extra));
    assert Typed(Elems(extra), types).Keys == Elems(extra);
  }

  /** Schema evolution: the existing columns keep their place, type and values;
      each batch column the table lacks is appended with its mapped type and null
      in every prior row; nothing else changes. */
  lemma EvolvedShape(t: Table, batch: Frame)
    requires WellFormed(t) && WellFormed(batch)
    ensures var r := Evolved(t, batch);
      && WellFormed(r)
      && r.columns == t.columns + Without(batch.columns, Elems(t.columns))
      && Elems(r.columns) == Elems(t.columns) + Elems(batch.columns)
      && (forall c :: c in t.types ==> r.types[c] == t.types[c])
      && (forall c :: c in batch.columns && c !in t.columns ==> r.types[c] == ToDuckDbType(batch.types[c]))
      && |r.rows| == |t.rows|
      && (forall i :: 0 <= i < |t.rows| ==> r.rows[i] == Pad(t.rows[i], Elems(r.columns)))
  {
    var e := Elems(t.columns);
    var extra := Without(batch.columns, e);
    ExtendClosed(t, batch.columns, batch.types);
    WithoutDistinct(batch.columns, e);
    WidenedWellFormed(t, extra, batch.types);
    var r := Evolved(t, batch);
    assert r == Widened(t, extra, batch.types);
    forall c | c in batch.columns && c !in t.columns ensures r.types[c] == ToDuckDbType(batch.types[c]) {
      assert c in Elems(extra);
    }
  }

  // ---------------------------------------------------------------------------
  // _drop_deprecated_duckdb_columns

  /** The table without its deprecated columns. */
  function Purged(t: Table): Table
  {
    DropColumns(t, Deprecated)
  }

  /** Only the deprecated columns go; the others keep their order, types and cells. */
  lemma PurgedShape(t: Table)
    requires WellFormed(t)
    ensures var r := Purged(t);
      && WellFormed(r)
      && r.columns == Without(t.columns, Deprecated)
      && Elems(r.columns) == Elems(t.columns) - Deprecated
      && (forall c :: c in r.types ==> r.types[c] == t.types[c])
      && |r.rows| == |t.rows|
      && (forall i :: 0 <= i < |t.rows| ==> r.rows[i] == t.rows[i] - Deprecated)
  {
    DropColumnsWellFormed(t, Deprecated);
  }

  // ---------------------------------------------------------------------------
  // DELETE ... USING batch WHERE t.extraction_id = batch.extraction_id; INSERT

  /** The identities the delete can match: the batch's non-null identities (in
      SQL, NULL equals nothing). */
  function BatchKeys(rows: seq<Row>): (k: set<Cell>)
    ensures forall x :: x in k <==> x.Some? && x in IdSet(rows)
  {
    set r | r in rows && IdOf(r).Some? :: IdOf(r)
  }

  /** The rows the delete leaves: those whose identity matches no key, in order. */
  function Unmatched(rows: seq<Row>, keys: set<Cell>): (r: seq<Row>)
    ensures forall x :: x in r <==> x in rows && IdOf(x) !in keys
    ensures |r| <= |rows|
  {
    if rows == [] then []
    else
      var init, last := rows[..|rows| - 1], rows[|rows| - 1];
      assert rows == init + [last];
      Unmatched(init, keys) + (if IdOf(last) in keys then [] else [last])
  }

  /** The delete keeps every copy of an unmatched row and no copy of a matched
      one: a row's multiplicity is unchanged or zero. */
  lemma {:induction false} UnmatchedCopies(rows: seq<Row>, keys: set<Cell>, x: Row)
    ensures multiset(Unmatched(rows, keys))[x] == if IdOf(x) in keys then 0 else multiset(rows)[x]
  {
    if rows != [] {
      var init, last := rows[..|rows| - 1], rows[|rows| - 1];
      assert rows == init + [last];
      UnmatchedCopies(init, keys, x);
      var tail := if IdOf(last) in keys then [] else [last];
      assert Unmatched(rows, keys) == Unmatched(init, keys) + tail;
      assert multiset(Unmatched(rows, keys)) == multiset(Unmatched(init, keys)) + multiset(tail);
      assert multiset(rows) == multiset(init) + multiset{last};
    }
  }

  /** When no identity matches, the delete removes nothing. */
  lemma {:induction false} UnmatchedNone(rows: seq<Row>, keys: set<Cell>)
    requires IdSet(rows) !! keys
    ensures Unmatched(rows, keys) == rows
  {
    if rows != [] {
      var init, last := rows[..|rows| - 1], rows[|rows| - 1];
      assert init + [last] == rows;
      IdSetConcat(init, [last]);
      assert IdOf(last) in IdSet([last]);
      UnmatchedNone(init, keys);
      assert Unmatched(rows, keys) == Unmatched(init, keys) + [last];
    }
  }

  /** How many rows the delete leaves depends only on the rows' identities. */
  lemma {:induction false} UnmatchedSameIds(xs: seq<Row>, ys: seq<Row>, keys: set<Cell>)
    requires |xs| == |ys|
    requires forall i :: 0 <= i < |xs| ==> IdOf(xs[i]) == IdOf(ys[i])
    ensures |Unmatched(xs, keys)| == |Unmatched(ys, keys)|
  {
    if xs != [] {
      var n := |xs| - 1;
      UnmatchedSameIds(xs[..n], ys[..n], keys);
    }
  }

  /** The delete then the insert: the unmatched rows, then every batch row
      widened to the table's columns (a column the batch lacks is null). */
  function Upserted(t: Table, batch: Frame): Table
  {
    Relation(t.columns, t.types, Unmatched(t.rows, BatchKeys(batch.rows)) + PadAll(batch.rows, Elems(t.columns)))
  }

  /** After the upsert: no column changes; a row no batch identity matches is
      kept untouched, a matched row is gone, every batch row is present, and the
      height is the unmatched rows plus the batch. */
  lemma UpsertedShape(t: Table, batch: Frame)
    requires WellFormed(t)
    ensures var r := Upserted(t, batch);
      var keys := BatchKeys(batch.rows);
      && WellFormed(r)
      && r.columns == t.columns && r.types == t.types
      && (forall x :: x in t.rows && IdOf(x) !in keys ==> x in r.rows)
      && (forall b :: b in batch.rows ==> Pad(b, Elems(t.columns)) in r.rows)
      && (forall x :: x in r.rows ==>
            (x in t.rows && IdOf(x) !in keys) || exists b :: b in batch.rows && x == Pad(b, Elems(t.columns)))
      && |r.rows| == |Unmatched(t.rows, keys)| + |batch.rows|
  {
    UpsertedWellFormed(t, batch);
    UpsertedInserts(t, batch);
    UpsertedOrigin(t, batch);
  }

  lemma UpsertedWellFormed(t: Table, batch: Frame)
    requires WellFormed(t)
    ensures WellFormed(Upserted(t, batch))
  {
    var u := Unmatched(t.rows, BatchKeys(batch.rows));
    var p := PadAll(batch.rows, Elems(t.columns));
    PadAllKeys(batch.rows, Elems(t.columns));
    forall x: Row | x in u + p ensures x.Keys == Elems(t.columns) {
      assert x in u || x in p;
    }
  }

  lemma UpsertedInserts(t: Table, batch: Frame)
    ensures forall b :: b in batch.rows ==> Pad(b, Elems(t.columns)) in Upserted(t, batch).rows
  {
    var u := Unmatched(t.rows, BatchKeys(batch.rows));
    var p := PadAll(batch.rows, Elems(t.columns));
    var rows := Upserted(t, batch).rows;
    forall b | b in batch.rows ensures Pad(b, Elems(t.columns)) in rows {
      var k :| 0 <= k < |batch.rows| && batch.rows[k] == b;
      assert rows[|u| + k] == p[k];
    }
  }

  lemma UpsertedOrigin(t: Table, batch: Frame)
    ensures forall x :: x in Upserted(t, batch).rows ==>
      (x in t.rows && IdOf(x) !in BatchKeys(batch.rows)) || exists b :: b in batch.rows && x == Pad(b, Elems(t.columns))
  {
    var keys := BatchKeys(batch.rows);
    var u := Unmatched(t.rows, keys);
    var p := PadAll(batch.rows, Elems(t.columns));
    forall x: Row | x in u + p
      ensures (x in t.rows && IdOf(x) !in keys) || exists b :: b in batch.rows && x == Pad(b, Elems(t.columns))
    {
      if x !in u {
        assert x in p;
        var k :| 0 <= k < |p| && p[k] == x;
        assert batch.rows[k] in batch.rows;
      }
    }
  }

  // ---------------------------------------------------------------------------
  // The whole reconciliation of a table with a batch

  /** The table after `_ensure_duckdb_schema` and `_drop_deprecated_duckdb_columns`. */
  function Reconciled(t: Table, clean: Frame): Table
    requires WellFormed(clean)
  {
    Purged(Evolved(t, clean))
  }

  /** The table `load_into_duckdb` leaves when the batch has an identity column. */
  function Loaded(t: Table, clean: Frame): Table
    requires WellFormed(clean)
  {
    Upserted(Reconciled(t, clean), clean)
  }

  /** Padding then dropping columns is dropping the cells then padding to the rest. */
  lemma PadMinus(r: Row, s: set<Column>, d: set<Column>)
    ensures Pad(r, s) - d == Pad(r - d, s - d)
  {
  }

  /** Reconciling: the column set only grows, except that the deprecated columns
      go; every prior row keeps its values, gains null cells for the new columns
      and loses its deprecated cells. */
  lemma ReconciledShape(t: Table, clean: Frame)
    requires WellFormed(t) && WellFormed(clean)
    ensures var r := Reconciled(t, clean);
      && WellFormed(r)
      && Elems(r.columns) == (Elems(t.columns) + Elems(clean.columns)) - Deprecated
      && |r.rows| == |t.rows|
      && (forall i :: 0 <= i < |t.rows| ==> r.rows[i] == Merged(t.rows[i], Elems(r.columns)))
  {
    var v := Evolved(t, clean);
    EvolvedShape(t, clean);
    PurgedShape(v);
    var r := Purged(v);
    forall i | 0 <= i < |t.rows| ensures r.rows[i] == Merged(t.rows[i], Elems(r.columns)) {
      PadMinus(t.rows[i], Elems(v.columns), Deprecated);
    }
  }

  /** With the identity column kept, merging a row keeps its identity. */
  lemma MergedKeepsId(r: Row, cols: set<Column>)
    requires IdColumn in cols
    ensures IdOf(Merged(r, cols)) == IdOf(r)
  {
    assert IdColumn !in Deprecated;
  }

  /** A row already on exactly the table's columns, none deprecated, merges to itself. */
  lemma MergedSameColumns(r: Row, cols: set<Column>)
    requires r.Keys == cols && cols !! Deprecated
    ensures Merged(r, cols) == r
  {
  }

  lemma ReconciledIds(t: Table, clean: Frame)
    requires WellFormed(t) && WellFormed(clean) && IdColumn in clean.columns
    ensures var r := Reconciled(t, clean);
      && |r.rows| == |t.rows|
      && IdColumn in r.columns
      && forall i :: 0 <= i < |t.rows| ==> IdOf(r.rows[i]) == IdOf(t.rows[i])
  {
    ReconciledShape(t, clean);
    var r := Reconciled(t, clean);
    assert IdColumn !in Deprecated;
    assert IdColumn in Elems(r.columns);
    forall i | 0 <= i < |t.rows| ensures IdOf(r.rows[i]) == IdOf(t.rows[i]) {
      MergedKeepsId(t.rows[i], Elems(r.columns));
    }
  }

  /** After a load: the columns are the table's and the batch's less the deprecated
      ones; a prior row whose identity the batch does not name is still there
      (gaining nulls for new columns, losing deprecated cells); every batch row is
      there, widened to the table's columns. */
  lemma LoadedKeeps(t: Table, clean: Frame)
    requires WellFormed(t) && WellFormed(clean) && IdColumn in clean.columns
    ensures var l := Loaded(t, clean);
      var cols := Elems(l.columns);
      && WellFormed(l)
      && cols == (Elems(t.columns) + Elems(clean.columns)) - Deprecated
      && (forall i :: 0 <= i < |t.rows| && IdOf(t.rows[i]) !in BatchKeys(clean.rows) ==> Merged(t.rows[i], cols) in l.rows)
      && (forall b :: b in clean.rows ==> Pad(b, cols) in l.rows)
  {
    var r := Reconciled(t, clean);
    ReconciledShape(t, clean);
    ReconciledIds(t, clean);
    UpsertedShape(r, clean);
    forall i | 0 <= i < |t.rows| && IdOf(t.rows[i]) !in BatchKeys(clean.rows)
      ensures Merged(t.rows[i], Elems(r.columns)) in Loaded(t, clean).rows
    {
      assert r.rows[i] in r.rows;
    }
  }

  /** The height after a load: the prior rows no batch identity matches, plus the batch. */
  lemma LoadedCount(t: Table, clean: Frame)
    requires WellFormed(t) && WellFormed(clean) && IdColumn in clean.columns
    ensures |Loaded(t, clean).rows| == |Unmatched(t.rows, BatchKeys(clean.rows))| + |clean.rows|
  {
    var r := Reconciled(t, clean);
    ReconciledIds(t, clean);
    UnmatchedSameIds(r.rows, t.rows, BatchKeys(clean.rows));
  }

  /** A prior row untouched by the batch stays exactly as it was when the batch
      brings no new column and the table holds no deprecated one. */
  lemma LoadedKeepsExactly(t: Table, clean: Frame, x: Row)
    requires WellFormed(t) && WellFormed(clean) && IdColumn in clean.columns
    requires Elems(clean.columns) <= Elems(t.columns) && Elems(t.columns) !! Deprecated
    requires x in t.rows && IdOf(x) !in BatchKeys(clean.rows)
    ensures x in Loaded(t, clean).rows
  {
    LoadedKeeps(t, clean);
    var i :| 0 <= i < |t.rows| && t.rows[i] == x;
    var cols := Elems(Loaded(t, clean).columns);
    assert cols == Elems(t.columns);
    MergedSameColumns(x, cols);
  }

  /** Loading into a missing table creates it with the batch's columns and leaves
      exactly the batch's rows in it. */
  lemma LoadIntoNewTable(df: Frame)
    requires WellFormed(df) && IdColumn in df.columns
    ensures var clean := Sanitize(df);
      Loaded(Created(clean), clean).columns == clean.columns && Loaded(Created(clean), clean).rows == clean.rows
  {
    var clean := Sanitize(df);
    var c := Created(clean);
    KeyColumnsKept();
    ExtendClosed(c, clean.columns, clean.types);
    WithoutCovered(clean.columns, Elems(clean.columns));
    WidenedEmpty(c, clean.types);
    assert Evolved(c, clean) == c;
    DropAbsentColumns(c, Deprecated);
    var l := Loaded(c, clean);
    assert l.rows == PadAll(clean.rows, Elems(clean.columns));
    forall i | 0 <= i < |clean.rows| ensures l.rows[i] == clean.rows[i] {
      assert clean.rows[i] in clean.rows;
      PadOwnKeys(clean.rows[i]);
    }
  }

  /** The test case: one row into an empty table gives a table of one row. */
  lemma LoadOneRowIntoEmpty(t: Table, clean: Frame)
    requires WellFormed(t) && WellFormed(clean) && IdColumn in clean.columns
    requires |t.rows| == 0 && |clean.rows| == 1
    ensures |Loaded(t, clean).rows| == 1
  {
    LoadedCount(t, clean);
  }

  lemma {:induction false} UnmatchedConcat(xs: seq<Row>, ys: seq<Row>, keys: set<Cell>)
    ensures Unmatched(xs + ys, keys) == Unmatched(xs, keys) + Unmatched(ys, keys)
  {
    if ys != [] {
      var n := |ys| - 1;
      assert (xs + ys)[..|xs + ys| - 1] == xs + ys[..n];
      UnmatchedConcat(xs, ys[..n], keys);
    } else {
      assert xs + ys == xs;
    }
  }

  /** When every identity matches, the delete removes every row. */
  lemma UnmatchedAll(rows: seq<Row>, keys: set<Cell>)
    requires forall r :: r in rows ==> IdOf(r) in keys
    ensures Unmatched(rows, keys) == []
  {
  }

  /** Deleting by the same keys a second time removes nothing more. */
  lemma UnmatchedTwice(rows: seq<Row>, keys: set<Cell>)
    ensures Unmatched(Unmatched(rows, keys), keys) == Unmatched(rows, keys)
  {
    var u := Unmatched(rows, keys);
    assert IdSet(u) !! keys;
    UnmatchedNone(u, keys);
  }

  /** A batch whose identities are all non-null matches each of its own rows. */
  lemma PaddedBatchMatched(clean: Frame, cols: set<Column>)
    requires IdColumn in cols
    requires forall b :: b in clean.rows ==> IdOf(b).Some?
    ensures Unmatched(PadAll(clean.rows, cols), BatchKeys(clean.rows)) == []
  {
    var p := PadAll(clean.rows, cols);
    forall x | x in p ensures IdOf(x) in BatchKeys(clean.rows) {
      var k :| 0 <= k < |p| && p[k] == x;
      assert clean.rows[k] in clean.rows;
      PadKeepsId(clean.rows[k], cols);
    }
    UnmatchedAll(p, BatchKeys(clean.rows));
  }

  /** Loading the same batch again, when all its identities are non-null,
      replaces its own rows and leaves the height unchanged. */
  lemma LoadTwiceSameCount(t: Table, clean: Frame, once: Table)
    requires WellFormed(t) && WellFormed(clean) && IdColumn in clean.columns
    requires forall b :: b in clean.rows ==> IdOf(b).Some?
    requires once == Loaded(t, clean)
    ensures |Loaded(once, clean).rows| == |once.rows|
  {
    var keys := BatchKeys(clean.rows);
    var r := Reconciled(t, clean);
    ReconciledIds(t, clean);
    LoadedKeeps(t, clean);
    var u := Unmatched(r.rows, keys);
    var p := PadAll(clean.rows, Elems(r.columns));
    assert once.rows == u + p;
    UnmatchedConcat(u, p, keys);
    UnmatchedTwice(r.rows, keys);
    PaddedBatchMatched(clean, Elems(r.columns));
    assert Unmatched(once.rows, keys) == u;
    LoadedCount(once, clean);
  }

  // ---------------------------------------------------------------------------
  // One row per identity in the warehouse

  /** Rows laid end to end keep distinct identities when each side does and no
      identity occurs on both sides. */
  lemma DistinctIdsConcat(xs: seq<Row>, ys: seq<Row>)
    requires DistinctIds(xs) && DistinctIds(ys)
    requires forall i, j :: 0 <= i < |xs| && 0 <= j < |ys| ==> IdOf(xs[i]) != IdOf(ys[j])
    ensures DistinctIds(xs + ys)
  {
    var c := xs + ys;
    forall i, j | 0 <= i < j < |c| ensures IdOf(c[i]) != IdOf(c[j]) {
      if j < |xs| {
        assert c[i] == xs[i] && c[j] == xs[j];
      } else if i < |xs| {
        assert c[i] == xs[i] && c[j] == ys[j - |xs|];
      } else {
        assert c[i] == ys[i - |xs|] && c[j] == ys[j - |xs|];
      }
    }
  }

  /** The last row of rows with distinct identities carries an identity no
      earlier row has, and the earlier rows keep distinct identities. */
  lemma DistinctIdsInit(rows: seq<Row>)
    requires DistinctIds(rows) && rows != []
    ensures DistinctIds(rows[..|rows| - 1])
    ensures forall x :: x in rows[..|rows| - 1] ==> IdOf(x) != IdOf(rows[|rows| - 1])
  {
    var init := rows[..|rows| - 1];
    forall x | x in init ensures IdOf(x) != IdOf(rows[|rows| - 1]) {
      var k :| 0 <= k < |init| && init[k] == x;
      assert rows[k] == x;
    }
  }

  /** The delete keeps a table's identities distinct. */
  lemma {:induction false} UnmatchedDistinct(rows: seq<Row>, keys: set<Cell>)
    requires DistinctIds(rows)
    ensures DistinctIds(Unmatched(rows, keys))
  {
    if rows != [] {
      var init, last := rows[..|rows| - 1], rows[|rows| - 1];
      assert rows == init + [last];
      DistinctIdsInit(rows);
      UnmatchedDistinct(init, keys);
      var u := Unmatched(init, keys);
      var tail := if IdOf(last) in keys then [] else [last];
      assert Unmatched(rows, keys) == u + tail;
      forall i, j | 0 <= i < |u| && 0 <= j < |tail| ensures IdOf(u[i]) != IdOf(tail[j]) {
        assert u[i] in init;
      }
      assert DistinctIds(tail);
      DistinctIdsConcat(u, tail);
    }
  }

  /** Padding a batch to columns that keep its identity column keeps its rows'
      identities distinct. */
  lemma PaddedDistinct(rows: seq<Row>, cols: set<Column>)
    requires IdColumn in cols && DistinctIds(rows)
    ensures DistinctIds(PadAll(rows, cols))
  {
    var p := PadAll(rows, cols);
    forall i, j | 0 <= i < j < |p| ensures IdOf(p[i]) != IdOf(p[j]) {
      PadKeepsId(rows[i], cols);
      PadKeepsId(rows[j], cols);
    }
  }

  /** A load keeps one row per identity: a table whose identities are distinct,
      loaded with a batch whose identities are distinct and non-null (what the
      quality gate guarantees before every load), still has distinct identities. */
  lemma LoadedDistinct(t: Table, clean: Frame)
    requires WellFormed(t) && WellFormed(clean) && IdColumn in clean.columns
    requires DistinctIds(t.rows) && DistinctIds(clean.rows)
    requires forall b :: b in clean.rows ==> IdOf(b).Some?
    ensures DistinctIds(Loaded(t, clean).rows)
  {
    var keys := BatchKeys(clean.rows);
    var r := Reconciled(t, clean);
    ReconciledIds(t, clean);
    assert DistinctIds(r.rows) by {
      forall i, j | 0 <= i < j < |r.rows| ensures IdOf(r.rows[i]) != IdOf(r.rows[j]) {
        assert IdOf(r.rows[i]) == IdOf(t.rows[i]) && IdOf(r.rows[j]) == IdOf(t.rows[j]);
      }
    }
    var cols := Elems(r.columns);
    var u := Unmatched(r.rows, keys);
    var p := PadAll(clean.rows, cols);
    assert Loaded(t, clean).rows == u + p;
    UnmatchedDistinct(r.rows, keys);
    PaddedDistinct(clean.rows, cols);
    forall i, j | 0 <= i < |u| && 0 <= j < |p| ensures IdOf(u[i]) != IdOf(p[j]) {
      assert u[i] in u;
      PadKeepsId(clean.rows[j], cols);
      assert clean.rows[j] in clean.rows;
      assert IdOf(clean.rows[j]) in IdSet(clean.rows);
    }
    DistinctIdsConcat(u, p);
  }

  /** Upsert replacement: after a load, a row whose identity the batch names is
      a batch row widened to the table's columns, never a prior row. */
  lemma LoadedReplaces(t: Table, clean: Frame)
    requires WellFormed(t) && WellFormed(clean) && IdColumn in clean.columns
    ensures var l := Loaded(t, clean);
      forall x :: x in l.rows && IdOf(x) in BatchKeys(clean.rows) ==>
        exists b :: b in clean.rows && x == Pad(b, Elems(l.columns))
  {
    var r := Reconciled(t, clean);
    UpsertedOrigin(r, clean);
  }
}
