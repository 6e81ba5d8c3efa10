/** The processed-data side of the loader (src/load.py): stripping deprecated
    columns, naming the partitioned snapshot file, and the historical merge
    (diagonal union, then deduplication by identity keeping the last row). */
module Processed {
  import opened Frames

  /** `WeatherLoader.DEPRECATED_COLUMNS`, in the order the source lists them. */
  const DeprecatedColumns: seq<Column> := ["owner_name", "city_alias", "profile_style", "project_signature"]

  const Deprecated: set<Column> := {"owner_name", "city_alias", "profile_style", "project_signature"}

  const EventDateColumn: Column := "event_date"

  lemma DeprecatedListed()
    ensures Elems(DeprecatedColumns) == Deprecated
  {
    assert DeprecatedColumns[0] == "owner_name";
    assert DeprecatedColumns[1] == "city_alias";
    assert DeprecatedColumns[2] == "profile_style";
    assert DeprecatedColumns[3] == "project_signature";
  }

  /** Sanitising keeps every column that is not deprecated. */
  lemma SanitizeKeeps(f: Frame, c: Column)
    requires WellFormed(f) && c !in Deprecated
    ensures c in Sanitize(f).columns <==> c in f.columns
  {
    assert c in Sanitize(f).columns <==> c in Elems(Sanitize(f).columns);
    assert c in f.columns <==> c in Elems(f.columns);
  }

  /** The identity and the partition columns are never deprecated. */
  lemma KeyColumnsKept()
    ensures IdColumn !in Deprecated && EventDateColumn !in Deprecated
  {
  }

  function IsSupportedFormat(fileFormat: string): bool
  {
    fileFormat in {"parquet", "csv"}
  }

  // ---------------------------------------------------------------------------
  // _sanitize_columns

  /** `_sanitize_columns`: drop the deprecated columns the frame has, if any. The
      result is the frame without every deprecated column, the other columns kept
      in their order and every row losing exactly those cells. */
  function Sanitize(f: Frame): (r: Frame)
    requires WellFormed(f)
    ensures r == DropColumns(f, Deprecated)
    ensures WellFormed(r)
    ensures Elems(r.columns) == Elems(f.columns) - Deprecated
  {
    var toDrop := Elems(f.columns) * Deprecated;
    DropColumnsWellFormed(f, Deprecated);
    DropOnlyPresent(f, Deprecated);
    if toDrop != {} then DropColumns(f, toDrop) else f
  }

  /** Sanitising a sanitised frame changes nothing. */
  lemma SanitizeIdempotent(f: Frame)
    requires WellFormed(f)
    ensures Sanitize(Sanitize(f)) == Sanitize(f)
  {
    var s := Sanitize(f);
    var ss := Sanitize(s);
    WithoutTwice(f.columns, Deprecated, Deprecated);
    assert Deprecated + Deprecated == Deprecated;
    assert ss.columns == s.columns;
    assert ss.types == s.types;
    assert ss.rows == s.rows by {
      forall i | 0 <= i < |s.rows| ensures ss.rows[i] == s.rows[i] {
        assert s.rows[i] - Deprecated == f.rows[i] - Deprecated - Deprecated;
      }
    }
  }

  /** Sanitising never touches the identity cell of a row. */
  lemma SanitizeKeepsIds(f: Frame)
    requires WellFormed(f)
    ensures IdSet(Sanitize(f).rows) == IdSet(f.rows)
    ensures forall i :: 0 <= i < |f.rows| ==> IdOf(Sanitize(f).rows[i]) == IdOf(f.rows[i])
  {
    KeyColumnsKept();
    DropColumnsKeepsIds(f, Deprecated);
  }

  // ---------------------------------------------------------------------------
  // save_processed_data: the snapshot file's path

  function PartitionDir(partitionValue: string): string
  {
    "event_date=" + partitionValue
  }

  function SnapshotFileName(timestamp: string, extractionId: string, fileFormat: string): string
  {
    "weather_processed_" + timestamp + "_" + extractionId + "." + fileFormat
  }

  /** The path, relative to the processed directory, of the snapshot of a
      sanitised non-empty batch: partitioned by the first row's event date and
      named after the timestamp and the first row's identity. Reading either
      column fails when the frame lacks it. */
  function SnapshotPath(clean: Frame, fileFormat: string, timestamp: string): (p: Option<string>)
    requires |clean.rows| > 0
    ensures p.Some? <==> EventDateColumn in clean.columns && IdColumn in clean.columns
  {
    if EventDateColumn in clean.columns && IdColumn in clean.columns then
      var first := clean.rows[0];
      Some(PartitionDir(Show(Get(first, EventDateColumn))) + "/"
           + SnapshotFileName(timestamp, Show(IdOf(first)), fileFormat))
    else None
  }

  /** Two snapshots of the same partition and format, taken at timestamps of the
      same width (the source's `%Y%m%d_%H%M%S`), share a path only when their
      timestamps and first identities render alike. */
  lemma SnapshotPathsDistinct(d: string, ts1: string, id1: string, ts2: string, id2: string, fileFormat: string)
    requires |ts1| == |ts2|
    requires PartitionDir(d) + "/" + SnapshotFileName(ts1, id1, fileFormat)
          == PartitionDir(d) + "/" + SnapshotFileName(ts2, id2, fileFormat)
    ensures ts1 == ts2 && id1 == id2
  {
    var p1 := PartitionDir(d) + "/" + SnapshotFileName(ts1, id1, fileFormat);
    var p2 := PartitionDir(d) + "/" + SnapshotFileName(ts2, id2, fileFormat);
    var pre := |PartitionDir(d) + "/" + "weather_processed_"|;
    assert |id1| == |id2|;
    assert ts1 == p1[pre..pre + |ts1|];
    assert ts2 == p2[pre..pre + |ts2|];
    assert id1 == p1[pre + |ts1| + 1..pre + |ts1| + 1 + |id1|];
    assert id2 == p2[pre + |ts2| + 1..pre + |ts2| + 1 + |id2|];
  }

  // ---------------------------------------------------------------------------
  // append_to_historical

  /** `pl.concat([a, b], how="diagonal_relaxed")`: the columns of a, then those of b
      that a lacks; every row is widened to all of them with nulls. On a column both
      sides have, a's type is kept. */
  function DiagonalConcat(a: Frame, b: Frame): (r: Frame)
    ensures Elems(r.columns) == Elems(a.columns) + Elems(b.columns)
  {
    var cols := a.columns + Without(b.columns, Elems(a.columns));
    ElemsConcat(a.columns, Without(b.columns, Elems(a.columns)));
    Relation(cols, b.types + a.types, PadAll(a.rows, Elems(cols)) + PadAll(b.rows, Elems(cols)))
  }

  /** The diagonal union of two frames is a frame. */
  lemma DiagonalConcatWellFormed(a: Frame, b: Frame)
    requires WellFormed(a) && WellFormed(b)
    ensures WellFormed(DiagonalConcat(a, b))
  {
    var r := DiagonalConcat(a, b);
    var extra := Without(b.columns, Elems(a.columns));
    WithoutDistinct(b.columns, Elems(a.columns));
    DistinctConcat(a.columns, extra);
    PadAllConcat(a.rows, b.rows, Elems(r.columns));
    assert r.types.Keys == Elems(r.columns);
  }

  /** Every row of either side is in the union, widened to all its columns. */
  lemma DiagonalConcatRows(a: Frame, b: Frame)
    ensures var r := DiagonalConcat(a, b);
      && |r.rows| == |a.rows| + |b.rows|
      && (forall j :: 0 <= j < |a.rows| ==> r.rows[j] == Pad(a.rows[j], Elems(r.columns)))
      && (forall j :: 0 <= j < |b.rows| ==> r.rows[|a.rows| + j] == Pad(b.rows[j], Elems(r.columns)))
  {
    var r := DiagonalConcat(a, b);
    PadAllConcat(a.rows, b.rows, Elems(r.columns));
  }

  /** The last row of `rows` with the identity of row i is row i itself. */
  predicate LastOfId(rows: seq<Row>, i: int)
    requires 0 <= i < |rows|
  {
    IdOf(rows[i]) !in IdSet(rows[i + 1..])
  }

  /** `unique(subset=["extraction_id"], keep="last")`: one row per identity, the
      last one. The model keeps the survivors in their original order; polars
      promises no order, so only the set of rows is meant. */
  function DedupLast(rows: seq<Row>): (r: seq<Row>)
    ensures IdSet(r) == IdSet(rows)
    ensures DistinctIds(r)
    ensures forall x :: x in r ==> x in rows
  {
    if rows == [] then []
    else
      var rest := DedupLast(rows[1..]);
      assert IdSet(rows) == {IdOf(rows[0])} + IdSet(rows[1..]);
      if IdOf(rows[0]) in IdSet(rows[1..]) then rest
      else
        var r := [rows[0]] + rest;
        assert DistinctIds(r) by {
          forall i, j | 0 <= i < j < |r| ensures IdOf(r[i]) != IdOf(r[j]) {
            if i == 0 {
              assert r[j] in rest;
            }
          }
        }
        r
  }

  /** Every survivor of deduplication is the last row of its identity. */
  lemma {:induction false} DedupLastOnlyLast(rows: seq<Row>, x: Row)
    requires x in DedupLast(rows)
    ensures exists i :: 0 <= i < |rows| && rows[i] == x && LastOfId(rows, i)
  {
    var tail := rows[1..];
    if x in DedupLast(tail) {
      DedupLastOnlyLast(tail, x);
      var i :| 0 <= i < |tail| && tail[i] == x && LastOfId(tail, i);
      assert rows[i + 2..] == tail[i + 1..];
      assert rows[i + 1] == x && LastOfId(rows, i + 1);
    } else {
      assert x == rows[0] && LastOfId(rows, 0);
    }
  }

  /** The last row of every identity survives deduplication. */
  lemma {:induction false} DedupLastKeepsLast(rows: seq<Row>, i: nat)
    requires i < |rows| && LastOfId(rows, i)
    ensures rows[i] in DedupLast(rows)
  {
    if i > 0 {
      var tail := rows[1..];
      assert rows[i + 1..] == tail[i..];
      assert tail[i - 1] == rows[i] && LastOfId(tail, i - 1);
      DedupLastKeepsLast(tail, i - 1);
    }
  }

  /** A row survives deduplication exactly when it is the last row of its identity. */
  lemma DedupLastMember(rows: seq<Row>, x: Row)
    ensures x in DedupLast(rows) <==> exists i :: 0 <= i < |rows| && rows[i] == x && LastOfId(rows, i)
  {
    if x in DedupLast(rows) {
      DedupLastOnlyLast(rows, x);
    }
    if exists i :: 0 <= i < |rows| && rows[i] == x && LastOfId(rows, i) {
      var i :| 0 <= i < |rows| && rows[i] == x && LastOfId(rows, i);
      DedupLastKeepsLast(rows, i);
    }
  }

  /** Distinct identities: as many rows as identities. */
  lemma {:induction false} DistinctIdsCount(rows: seq<Row>)
    requires DistinctIds(rows)
    ensures |IdSet(rows)| == |rows|
  {
    if rows != [] {
      var tail := rows[1..];
      assert DistinctIds(tail) by {
        forall i, j | 0 <= i < j < |tail| ensures IdOf(tail[i]) != IdOf(tail[j]) {
          assert IdOf(rows[i + 1]) != IdOf(rows[j + 1]);
        }
      }
      DistinctIdsCount(tail);
      assert IdSet(rows) == {IdOf(rows[0])} + IdSet(tail);
      assert IdOf(rows[0]) !in IdSet(tail);
    }
  }

  /** The combined frame of the merge: the stored history (if the file exists) and
      the batch, both sanitised, diagonally concatenated. */
  function Combined(stored: Option<Frame>, batch: Frame): (c: Frame)
    requires stored.Some? ==> WellFormed(stored.value)
    requires WellFormed(batch)
    ensures WellFormed(c)
  {
    if stored.Some? then
      DiagonalConcatWellFormed(Sanitize(stored.value), Sanitize(batch));
      DiagonalConcat(Sanitize(stored.value), Sanitize(batch))
    else Sanitize(batch)
  }

  /** The new content of the historical file, or None when deduplication fails
      because the combined frame has no `extraction_id` column. */
  function MergeHistorical(stored: Option<Frame>, batch: Frame): (r: Option<Frame>)
    requires stored.Some? ==> WellFormed(stored.value)
    requires WellFormed(batch)
    ensures r.Some? <==> IdColumn in Combined(stored, batch).columns
    ensures r.Some? ==> WellFormed(r.value)
  {
    var c := Combined(stored, batch);
    if IdColumn in c.columns then Some(Relation(c.columns, c.types, DedupLast(c.rows))) else None
  }

  /** The rows of the historical file; none when there is no file yet. */
  function StoredRows(stored: Option<Frame>): seq<Row>
  {
    if stored.Some? then stored.value.rows else []
  }

  /** A row of either side as it appears in the merge: without its deprecated
      cells, widened with nulls to the merged columns. */
  function Merged(r: Row, cols: set<Column>): Row
  {
    Pad(r - Deprecated, cols)
  }

  /** x is the merged form of some row of rows. */
  predicate FromSide(x: Row, rows: seq<Row>, cols: set<Column>)
  {
    exists i :: 0 <= i < |rows| && x == Merged(rows[i], cols)
  }

  /** c is s followed by b, every row without its deprecated cells, widened to
      cols and keeping its identity. */
  predicate Laid(c: seq<Row>, s: seq<Row>, b: seq<Row>, cols: set<Column>)
  {
    && |c| == |s| + |b|
    && (forall j :: 0 <= j < |s| ==> c[j] == Merged(s[j], cols) && IdOf(c[j]) == IdOf(s[j]))
    && (forall j :: 0 <= j < |b| ==> c[|s| + j] == Merged(b[j], cols) && IdOf(c[|s| + j]) == IdOf(b[j]))
  }

  /** Rows of hs are those of f without their deprecated cells, over f's kept columns. */
  predicate SanitizedFrom(hs: Frame, f: Frame)
  {
    && |hs.rows| == |f.rows|
    && Elems(hs.columns) == Elems(f.columns) - Deprecated
    && forall j :: 0 <= j < |f.rows| ==> hs.rows[j] == f.rows[j] - Deprecated
  }

  lemma SanitizeFrom(f: Frame)
    requires WellFormed(f)
    ensures SanitizedFrom(Sanitize(f), f)
  {
  }

  lemma MergedRows(f: Frame, hs: Frame, cols: set<Column>)
    requires WellFormed(f) && SanitizedFrom(hs, f)
    requires Elems(hs.columns) <= cols
    ensures forall j :: 0 <= j < |f.rows| ==>
      Pad(hs.rows[j], cols) == Merged(f.rows[j], cols) && IdOf(Merged(f.rows[j], cols)) == IdOf(f.rows[j])
  {
    KeyColumnsKept();
    forall j | 0 <= j < |f.rows|
      ensures Pad(hs.rows[j], cols) == Merged(f.rows[j], cols) && IdOf(Merged(f.rows[j], cols)) == IdOf(f.rows[j])
    {
      assert f.rows[j] in f.rows;
      PadKeepsId(f.rows[j] - Deprecated, cols);
    }
  }

  lemma DiagonalShape(stored: Frame, batch: Frame, hs: Frame, bs: Frame)
    requires WellFormed(stored) && WellFormed(batch)
    requires SanitizedFrom(hs, stored) && SanitizedFrom(bs, batch)
    ensures var c := DiagonalConcat(hs, bs);
      Laid(c.rows, stored.rows, batch.rows, Elems(c.columns))
  {
    var c := DiagonalConcat(hs, bs);
    DiagonalConcatRows(hs, bs);
    MergedRows(stored, hs, Elems(c.columns));
    MergedRows(batch, bs, Elems(c.columns));
  }

  lemma ConcatShape(stored: Frame, batch: Frame)
    requires WellFormed(stored) && WellFormed(batch)
    ensures var c := DiagonalConcat(Sanitize(stored), Sanitize(batch));
      Laid(c.rows, stored.rows, batch.rows, Elems(c.columns))
  {
    SanitizeFrom(stored);
    SanitizeFrom(batch);
    DiagonalShape(stored, batch, Sanitize(stored), Sanitize(batch));
  }

  lemma SoleShape(batch: Frame)
    requires WellFormed(batch)
    ensures var c := Sanitize(batch);
      Laid(c.rows, [], batch.rows, Elems(c.columns))
  {
    var c := Sanitize(batch);
    var cols := Elems(c.columns);
    SanitizeFrom(batch);
    MergedRows(batch, c, cols);
    forall j | 0 <= j < |batch.rows|
      ensures c.rows[j] == Merged(batch.rows[j], cols)
    {
      assert c.rows[j] in c.rows;
      PadOwnKeys(c.rows[j]);
    }
  }

  /** The combined rows are the stored rows, then the batch rows, each without its
      deprecated cells and widened to the combined columns; identities are kept. */
  lemma CombinedShape(stored: Option<Frame>, batch: Frame)
    requires stored.Some? ==> WellFormed(stored.value)
    requires WellFormed(batch)
    ensures Laid(Combined(stored, batch).rows, StoredRows(stored), batch.rows, Elems(Combined(stored, batch).columns))
  {
    if stored.Some? {
      ConcatShape(stored.value, batch);
    } else {
      SoleShape(batch);
    }
  }

  lemma IdSetConcat(xs: seq<Row>, ys: seq<Row>)
    ensures IdSet(xs + ys) == IdSet(xs) + IdSet(ys)
  {
    assert forall r :: r in xs + ys <==> r in xs || r in ys;
  }

  lemma SameIdsSameIdSet(xs: seq<Row>, ys: seq<Row>)
    requires |xs| == |ys|
    requires forall q :: 0 <= q < |xs| ==> IdOf(xs[q]) == IdOf(ys[q])
    ensures IdSet(xs) == IdSet(ys)
  {
    forall y | y in IdSet(xs) ensures y in IdSet(ys) {
      var q :| 0 <= q < |xs| && IdOf(xs[q]) == y;
      assert ys[q] in ys;
    }
    forall y | y in IdSet(ys) ensures y in IdSet(xs) {
      var q :| 0 <= q < |ys| && IdOf(ys[q]) == y;
      assert xs[q] in xs;
    }
  }

  /** Laid rows carry the identities of both sides. */
  lemma LaidIds(c: seq<Row>, s: seq<Row>, b: seq<Row>, cols: set<Column>)
    requires Laid(c, s, b, cols)
    ensures IdSet(c) == IdSet(s) + IdSet(b)
  {
    var off := |s|;
    SameIdsSameIdSet(c[..off], s);
    assert forall q :: 0 <= q < |b| ==> c[off..][q] == c[off + q];
    SameIdsSameIdSet(c[off..], b);
    assert c == c[..off] + c[off..];
    IdSetConcat(c[..off], c[off..]);
  }

  /** In laid rows, the suffix after the row standing for b[i] carries the
      identities of b's suffix after i. */
  lemma IdSetShifted(c: seq<Row>, s: seq<Row>, b: seq<Row>, cols: set<Column>, i: nat)
    requires Laid(c, s, b, cols) && i < |b|
    ensures IdSet(c[|s| + i + 1..]) == IdSet(b[i + 1..])
  {
    var cs, bs := c[|s| + i + 1..], b[i + 1..];
    forall q | 0 <= q < |cs| ensures IdOf(cs[q]) == IdOf(bs[q]) {
      assert cs[q] == c[|s| + (i + 1 + q)];
      assert bs[q] == b[i + 1 + q];
    }
    SameIdsSameIdSet(cs, bs);
  }

  /** Every row that survives deduplication of laid rows comes from one of the two sides. */
  lemma RowsFromSides(c: seq<Row>, s: seq<Row>, b: seq<Row>, cols: set<Column>)
    requires Laid(c, s, b, cols)
    ensures forall x :: x in DedupLast(c) ==> FromSide(x, s, cols) || FromSide(x, b, cols)
  {
    forall x | x in DedupLast(c) ensures FromSide(x, s, cols) || FromSide(x, b, cols)
    {
      var k :| 0 <= k < |c| && c[k] == x;
      if k < |s| {
        assert x == Merged(s[k], cols);
      } else {
        assert c[|s| + (k - |s|)] == x;
        assert x == Merged(b[k - |s|], cols);
      }
    }
  }

  /** The row standing for the last row of its identity in b survives deduplication. */
  lemma TailSurvivors(c: seq<Row>, s: seq<Row>, b: seq<Row>, cols: set<Column>)
    requires Laid(c, s, b, cols)
    ensures forall i :: 0 <= i < |b| && LastOfId(b, i) ==> Merged(b[i], cols) in DedupLast(c)
  {
    forall i | 0 <= i < |b| && LastOfId(b, i) ensures Merged(b[i], cols) in DedupLast(c) {
      IdSetShifted(c, s, b, cols, i);
      assert LastOfId(c, |s| + i);
      DedupLastMember(c, c[|s| + i]);
      assert c[|s| + i] in DedupLast(c);
      assert c[|s| + i] == Merged(b[i], cols);
    }
  }

  /** A survivor whose identity b carries stands for a row of b. */
  lemma TailReplaces(c: seq<Row>, s: seq<Row>, b: seq<Row>, cols: set<Column>)
    requires Laid(c, s, b, cols)
    ensures forall x :: x in DedupLast(c) && IdOf(x) in IdSet(b) ==>
              exists i :: 0 <= i < |b| && x == Merged(b[i], cols)
  {
    forall x | x in DedupLast(c) && IdOf(x) in IdSet(b)
      ensures exists i :: 0 <= i < |b| && x == Merged(b[i], cols)
    {
      DedupLastMember(c, x);
      var k :| 0 <= k < |c| && c[k] == x && LastOfId(c, k);
      var q :| 0 <= q < |b| && IdOf(b[q]) == IdOf(x);
      if k < |s| {
        assert false;
      }
      assert c[|s| + (k - |s|)] == x;
      assert x == Merged(b[k - |s|], cols);
    }
  }

  /** The row standing for the last row of its identity in s survives
      deduplication when b lacks that identity. */
  lemma HeadSurvivors(c: seq<Row>, s: seq<Row>, b: seq<Row>, cols: set<Column>)
    requires Laid(c, s, b, cols)
    ensures forall i :: 0 <= i < |s| && LastOfId(s, i) && IdOf(s[i]) !in IdSet(b) ==>
              Merged(s[i], cols) in DedupLast(c)
  {
    forall i | 0 <= i < |s| && LastOfId(s, i) && IdOf(s[i]) !in IdSet(b)
      ensures Merged(s[i], cols) in DedupLast(c)
    {
      forall p | i < p < |c| ensures IdOf(c[p]) != IdOf(c[i]) {
        if p < |s| {
          assert s[i + 1..][p - i - 1] == s[p];
        } else {
          assert c[|s| + (p - |s|)] == c[p];
          assert b[p - |s|] in b;
        }
      }
      assert LastOfId(c, i);
      DedupLastMember(c, c[i]);
      assert c[i] == Merged(s[i], cols);
    }
  }

  /** After a merge, no two rows share an identity, and the identities are exactly
      those of the stored history and of the batch. */
  lemma MergeIdentities(stored: Option<Frame>, batch: Frame, m: Frame)
    requires stored.Some? ==> WellFormed(stored.value)
    requires WellFormed(batch)
    requires MergeHistorical(stored, batch) == Some(m)
    ensures DistinctIds(m.rows)
    ensures IdSet(m.rows) == IdSet(StoredRows(stored)) + IdSet(batch.rows)
  {
    var c := Combined(stored, batch);
    assert m.rows == DedupLast(c.rows);
    CombinedShape(stored, batch);
    LaidIds(c.rows, StoredRows(stored), batch.rows, Elems(c.columns));
  }

  /** The merged columns are those of both sides, less the deprecated ones. */
  lemma MergeColumns(stored: Option<Frame>, batch: Frame, m: Frame)
    requires stored.Some? ==> WellFormed(stored.value)
    requires WellFormed(batch)
    requires MergeHistorical(stored, batch) == Some(m)
    ensures Elems(m.columns)
         == ((if stored.Some? then Elems(stored.value.columns) else {}) + Elems(batch.columns)) - Deprecated
  {
    var c := Combined(stored, batch);
    assert m.columns == c.columns;
    if stored.Some? {
      ConcatColumns(stored.value, batch, Sanitize(stored.value), Sanitize(batch));
    }
  }

  lemma ConcatColumns(stored: Frame, batch: Frame, hs: Frame, bs: Frame)
    requires WellFormed(stored) && WellFormed(batch)
    requires hs == Sanitize(stored) && bs == Sanitize(batch)
    ensures Elems(DiagonalConcat(hs, bs).columns) == (Elems(stored.columns) + Elems(batch.columns)) - Deprecated
  {
    SanitizeFrom(stored);
    SanitizeFrom(batch);
    UnionMinus(Elems(stored.columns), Elems(batch.columns), Deprecated);
  }

  lemma UnionMinus(a: set<Column>, b: set<Column>, d: set<Column>)
    ensures (a - d) + (b - d) == (a + b) - d
  {
  }

  /** Every merged row is a row of one side widened with nulls to the merged
      columns, so a cell whose side lacked the column is null. */
  lemma MergeRowsOrigin(stored: Option<Frame>, batch: Frame, m: Frame)
    requires stored.Some? ==> WellFormed(stored.value)
    requires WellFormed(batch)
    requires MergeHistorical(stored, batch) == Some(m)
    ensures forall x :: x in m.rows ==>
              FromSide(x, StoredRows(stored), Elems(m.columns)) || FromSide(x, batch.rows, Elems(m.columns))
  {
    var c := Combined(stored, batch);
    assert m.columns == c.columns && m.rows == DedupLast(c.rows);
    CombinedShape(stored, batch);
    RowsFromSides(c.rows, StoredRows(stored), batch.rows, Elems(c.columns));
  }

  /** On an identity collision the incoming row wins: the last batch row of every
      identity is in the merge. */
  lemma MergeIncomingWins(stored: Option<Frame>, batch: Frame, m: Frame)
    requires stored.Some? ==> WellFormed(stored.value)
    requires WellFormed(batch)
    requires MergeHistorical(stored, batch) == Some(m)
    ensures forall i :: 0 <= i < |batch.rows| && LastOfId(batch.rows, i) ==>
              Merged(batch.rows[i], Elems(m.columns)) in m.rows
  {
    var c := Combined(stored, batch);
    assert m.columns == c.columns && m.rows == DedupLast(c.rows);
    CombinedShape(stored, batch);
    TailSurvivors(c.rows, StoredRows(stored), batch.rows, Elems(c.columns));
  }

  /** A merged row whose identity the batch carries is a batch row: no stored
      row survives beside an incoming row of its identity. */
  lemma MergeReplacesStored(stored: Option<Frame>, batch: Frame, m: Frame)
    requires stored.Some? ==> WellFormed(stored.value)
    requires WellFormed(batch)
    requires MergeHistorical(stored, batch) == Some(m)
    ensures forall x :: x in m.rows && IdOf(x) in IdSet(batch.rows) ==>
              exists i :: 0 <= i < |batch.rows| && x == Merged(batch.rows[i], Elems(m.columns))
  {
    var c := Combined(stored, batch);
    assert m.columns == c.columns && m.rows == DedupLast(c.rows);
    CombinedShape(stored, batch);
    TailReplaces(c.rows, StoredRows(stored), batch.rows, Elems(c.columns));
  }

  /** A stored row is kept when it is the last stored row of its identity and the
      batch does not carry that identity. */
  lemma MergeKeepsStored(stored: Frame, batch: Frame, m: Frame)
    requires WellFormed(stored) && WellFormed(batch)
    requires MergeHistorical(Some(stored), batch) == Some(m)
    ensures forall i :: 0 <= i < |stored.rows| && LastOfId(stored.rows, i) && IdOf(stored.rows[i]) !in IdSet(batch.rows) ==>
              Merged(stored.rows[i], Elems(m.columns)) in m.rows
  {
    var c := Combined(Some(stored), batch);
    assert m.columns == c.columns && m.rows == DedupLast(c.rows);
    CombinedShape(Some(stored), batch);
    HeadSurvivors(c.rows, stored.rows, batch.rows, Elems(c.columns));
  }

  /** The merge fails exactly when neither side has an `extraction_id` column. */
  lemma MergeDefined(stored: Option<Frame>, batch: Frame)
    requires stored.Some? ==> WellFormed(stored.value)
    requires WellFormed(batch)
    ensures MergeHistorical(stored, batch).Some?
        <==> IdColumn in batch.columns || (stored.Some? && IdColumn in stored.value.columns)
  {
    KeyColumnsKept();
    var c := Combined(stored, batch);
    assert IdColumn in c.columns <==> IdColumn in Elems(c.columns);
    assert IdColumn in batch.columns <==> IdColumn in Elems(batch.columns);
    if stored.Some? {
      assert IdColumn in stored.value.columns <==> IdColumn in Elems(stored.value.columns);
    }
  }

  /** Appending a batch whose identities the history already holds, each once,
      keeps the history's identities and its height. */
  lemma MergeKnownIds(stored: Frame, batch: Frame, m: Frame)
    requires WellFormed(stored) && WellFormed(batch)
    requires DistinctIds(stored.rows) && IdSet(batch.rows) <= IdSet(stored.rows)
    requires MergeHistorical(Some(stored), batch) == Some(m)
    ensures IdSet(m.rows) == IdSet(stored.rows)
    ensures |m.rows| == |stored.rows|
  {
    MergeIdentities(Some(stored), batch, m);
    SameDistinctIds(stored.rows, m.rows, IdSet(batch.rows));
  }

  lemma SameDistinctIds(xs: seq<Row>, ys: seq<Row>, extra: set<Cell>)
    requires DistinctIds(xs) && DistinctIds(ys)
    requires IdSet(ys) == IdSet(xs) + extra && extra <= IdSet(xs)
    ensures IdSet(ys) == IdSet(xs)
    ensures |ys| == |xs|
  {
    DistinctIdsCount(xs);
    DistinctIdsCount(ys);
  }

  /** Merging the same batch again adds no row: the height and the identities stay. */
  lemma MergeSameBatchTwice(batch: Frame, once: Frame, twice: Frame)
    requires WellFormed(batch)
    requires MergeHistorical(None, batch) == Some(once)
    requires MergeHistorical(Some(once), batch) == Some(twice)
    ensures IdSet(twice.rows) == IdSet(once.rows)
    ensures |twice.rows| == |once.rows| == |IdSet(batch.rows)|
  {
    MergeIdentities(None, batch, once);
    DistinctIdsCount(once.rows);
    MergeKnownIds(once, batch, twice);
  }

  lemma OneRowOneId(rows: seq<Row>)
    requires |rows| == 1
    ensures |IdSet(rows)| == 1
  {
    assert IdSet(rows) == {IdOf(rows[0])};
  }

  /** The concrete case: a one-row batch appended twice leaves one row. */
  lemma MergeOneRowTwice(batch: Frame, once: Frame, twice: Frame)
    requires WellFormed(batch) && |batch.rows| == 1
    requires MergeHistorical(None, batch) == Some(once)
    requires MergeHistorical(Some(once), batch) == Some(twice)
    ensures |twice.rows| == 1
  {
    MergeSameBatchTwice(batch, once, twice);
    OneRowOneId(batch.rows);
  }
}
