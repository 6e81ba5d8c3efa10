/** `WeatherLoader` (src/load.py) as a class over in-memory stores: the
    processed directory (each file's path relative to it, and the frame it
    holds) and the DuckDB database (its schemas and tables). Each public method
    returns false where the source catches an exception or rejects its input,
    and then leaves every store as it was, except where the source has already
    changed the database. */
module Loader {
  import opened Frames
  import opened Processed
  import opened Warehouse

  /** A table's place in the database: its schema and its relation name. */
  type TableKey = (string, string)

  /** Every stored frame and table is well formed, and every table lives in a
      schema that exists. */
  predicate Consistent(processed: map<string, Frame>, schemas: set<string>, tables: map<TableKey, Table>)
  {
    && (forall p :: p in processed ==> WellFormed(processed[p]))
    && (forall k :: k in tables ==> WellFormed(tables[k]) && k.0 in schemas)
  }

  lemma PutFrame(processed: map<string, Frame>, schemas: set<string>, tables: map<TableKey, Table>, path: string, f: Frame)
    requires Consistent(processed, schemas, tables) && WellFormed(f)
    ensures Consistent(processed[path := f], schemas, tables)
  {
  }

  lemma PutTable(processed: map<string, Frame>, schemas: set<string>, tables: map<TableKey, Table>, key: TableKey, t: Table)
    requires Consistent(processed, schemas, tables) && WellFormed(t) && key.0 in schemas
    ensures Consistent(processed, schemas, tables[key := t])
  {
  }

  lemma AddSchema(processed: map<string, Frame>, schemas: set<string>, tables: map<TableKey, Table>, schema: string)
    requires Consistent(processed, schemas, tables)
    ensures Consistent(processed, schemas + {schema}, tables)
  {
  }

  lemma Overwrite<K, V>(m: map<K, V>, k: K, a: V, b: V)
    ensures m[k := a][k := b] == m[k := b]
  {
  }

  /** The table after the schema loop's first i passes over the batch columns. */
  function EvolvedPrefix(t: Table, batch: Frame, i: nat): Table
    requires WellFormed(batch) && i <= |batch.columns|
  {
    assert forall x :: x in batch.columns[..i] ==> x in batch.columns;
    Extend(t, batch.columns[..i], batch.types, Elems(t.columns))
  }

  /** One more pass of the schema loop, over batch column i. */
  lemma EvolveStep(t: Table, batch: Frame, i: nat)
    requires WellFormed(batch) && i < |batch.columns|
    ensures var c := batch.columns[i];
      EvolvedPrefix(t, batch, i + 1)
        == if c in Elems(t.columns) then EvolvedPrefix(t, batch, i)
           else AddColumn(EvolvedPrefix(t, batch, i), c, ToDuckDbType(batch.types[c]))
  {
    assert batch.columns[..i + 1][..i] == batch.columns[..i];
  }

  /** The schema loop starts from the table itself and ends at the evolved table. */
  lemma EvolveEnds(t: Table, batch: Frame)
    requires WellFormed(t) && WellFormed(batch)
    ensures EvolvedPrefix(t, batch, 0) == t
    ensures EvolvedPrefix(t, batch, |batch.columns|) == Evolved(t, batch)
    ensures WellFormed(Evolved(t, batch))
  {
    assert batch.columns[..0] == [];
    assert batch.columns[..|batch.columns|] == batch.columns;
    EvolvedShape(t, batch);
  }

  /** The table after the purge loop's first i passes. */
  function PurgedPrefix(t: Table, i: nat): Table
    requires i <= |DeprecatedColumns|
  {
    DropColumns(t, Elems(DeprecatedColumns[..i]))
  }

  /** One more pass of the purge loop, over deprecated column i. */
  lemma PurgeStep(t: Table, i: nat)
    requires WellFormed(t) && i < |DeprecatedColumns|
    ensures var c := DeprecatedColumns[i];
      PurgedPrefix(t, i + 1)
        == if c in Elems(t.columns) then DropColumns(PurgedPrefix(t, i), {c}) else PurgedPrefix(t, i)
  {
    var c := DeprecatedColumns[i];
    var done := Elems(DeprecatedColumns[..i]);
    assert DeprecatedColumns[..i + 1] == DeprecatedColumns[..i] + [c];
    assert Elems(DeprecatedColumns[..i + 1]) == done + {c};
    if c in Elems(t.columns) {
      DropColumnsTwice(t, done, {c});
    } else {
      DropColumnsSameOn(t, done + {c}, done);
    }
  }

  /** The purge loop starts from the table itself and ends at the purged table. */
  lemma PurgeEnds(t: Table)
    requires WellFormed(t)
    ensures PurgedPrefix(t, 0) == t
    ensures PurgedPrefix(t, |DeprecatedColumns|) == Purged(t)
    ensures WellFormed(Purged(t))
  {
    assert Elems(DeprecatedColumns[..0]) == {};
    DropAbsentColumns(t, {});
    assert DeprecatedColumns[..|DeprecatedColumns|] == DeprecatedColumns;
    DeprecatedListed();
    PurgedShape(t);
  }

  class WeatherLoader {
    var processed: map<string, Frame>
    var schemas: set<string>
    var tables: map<TableKey, Table>

    predicate Valid()
      reads this
    {
      Consistent(processed, schemas, tables)
    }

    /** A loader over the given directory and database contents. */
    constructor (processed0: map<string, Frame>, schemas0: set<string>, tables0: map<TableKey, Table>)
      requires forall p :: p in processed0 ==> WellFormed(processed0[p])
      requires forall k :: k in tables0 ==> WellFormed(tables0[k]) && k.0 in schemas0
      ensures Valid()
      ensures processed == processed0 && schemas == schemas0 && tables == tables0
    {
      processed := processed0;
      schemas := schemas0;
      tables := tables0;
    }

    /** `save_processed_data`: a non-empty batch in a supported format, with the
        partition and identity columns, is written, sanitised, to its snapshot
        path (overwriting a file of the same name); otherwise nothing changes.
        The timestamp is the caller's. */
    method SaveProcessedData(df: Option<Frame>, fileFormat: string, timestamp: string) returns (ok: bool)
      requires Valid()
      requires df.Some? ==> WellFormed(df.value)
      modifies this
      ensures Valid()
      ensures schemas == old(schemas) && tables == old(tables)
      ensures ok <==> && df.Some? && |df.value.rows| > 0 && IsSupportedFormat(fileFormat)
                      && EventDateColumn in df.value.columns && IdColumn in df.value.columns
      ensures ok ==> var path := SnapshotPath(Sanitize(df.value), fileFormat, timestamp);
        path.Some? && processed == old(processed)[path.value := Sanitize(df.value)]
      ensures !ok ==> processed == old(processed)
    {
      if df.None? || |df.value.rows| == 0 {
        return false;
      }
      if !IsSupportedFormat(fileFormat) {
        return false;
      }
      var clean := Sanitize(df.value);
      KeyColumnsKept();
      SanitizeKeeps(df.value, EventDateColumn);
      SanitizeKeeps(df.value, IdColumn);
      var path := SnapshotPath(clean, fileFormat, timestamp);
      if path.None? {
        return false;
      }
      PutFrame(processed, schemas, tables, path.value, clean);
      processed := processed[path.value := clean];
      ok := true;
    }

    /** The frame stored under a name, if any. */
    function Stored(name: string): Option<Frame>
      reads this
    {
      if name in processed then Some(processed[name]) else None
    }

    /** `append_to_historical`: a non-empty batch in a supported format is merged
        into the historical file of that name (created when absent); it fails,
        changing nothing, when neither side has an identity column. */
    method AppendToHistorical(df: Option<Frame>, historicalFilename: string, fileFormat: string) returns (ok: bool)
      requires Valid()
      requires df.Some? ==> WellFormed(df.value)
      modifies this
      ensures Valid()
      ensures schemas == old(schemas) && tables == old(tables)
      ensures ok <==> && df.Some? && |df.value.rows| > 0 && IsSupportedFormat(fileFormat)
                      && (IdColumn in df.value.columns
                          || (historicalFilename in old(processed) && IdColumn in old(processed)[historicalFilename].columns))
      ensures ok ==> var merged := MergeHistorical(old(Stored(historicalFilename)), df.value);
        merged.Some? && processed == old(processed)[historicalFilename := merged.value]
      ensures !ok ==> processed == old(processed)
    {
      if df.None? || |df.value.rows| == 0 {
        return false;
      }
      if !IsSupportedFormat(fileFormat) {
        return false;
      }
      var stored := Stored(historicalFilename);
      MergeDefined(stored, df.value);
      var merged := MergeHistorical(stored, df.value);
      if merged.None? {
        return false;
      }
      PutFrame(processed, schemas, tables, historicalFilename, merged.value);
      processed := processed[historicalFilename := merged.value];
      ok := true;
    }

    /** `_ensure_duckdb_schema`: the schema exists afterwards; a missing table is
        left alone; otherwise each batch column the table lacked before the loop
        is added, in batch order, with its mapped type. */
    method EnsureDuckDbSchema(tableName: string, batch: Frame)
      requires Valid()
      requires '.' in tableName && WellFormed(batch)
      modifies this
      ensures Valid()
      ensures var key := SplitQualified(tableName).value;
        && schemas == old(schemas) + {key.0}
        && processed == old(processed)
        && tables == if key in old(tables) then old(tables)[key := Evolved(old(tables)[key], batch)] else old(tables)
    {
      var key := SplitQualified(tableName).value;
      AddSchema(processed, schemas, tables, key.0);
      schemas := schemas + {key.0};
      if key !in tables {
        return;
      }
      ghost var t0 := tables[key];
      var t := tables[key];
      var existing := Elems(t.columns);
      EvolveEnds(t0, batch);
      var i := 0;
      while i < |batch.columns|
        invariant 0 <= i <= |batch.columns|
        invariant t == EvolvedPrefix(t0, batch, i)
        modifies {}
      {
        var c := batch.columns[i];
        EvolveStep(t0, batch, i);
        if c !in existing {
          t := AddColumn(t, c, ToDuckDbType(batch.types[c]));
        }
        i := i + 1;
      }
      PutTable(processed, schemas, tables, key, t);
      tables := tables[key := t];
    }

    /** `_drop_deprecated_duckdb_columns`: each deprecated column the table had
        before the loop is dropped, in the order the source lists them. */
    method DropDeprecatedDuckDbColumns(tableName: string)
      requires Valid()
      requires '.' in tableName && SplitQualified(tableName).value in tables
      modifies this
      ensures Valid()
      ensures var key := SplitQualified(tableName).value;
        && schemas == old(schemas) && processed == old(processed)
        && tables == old(tables)[key := Purged(old(tables)[key])]
    {
      var key := SplitQualified(tableName).value;
      ghost var t0 := tables[key];
      var t := tables[key];
      var existing := Elems(t.columns);
      PurgeEnds(t0);
      for i := 0 to |DeprecatedColumns|
        invariant t == PurgedPrefix(t0, i)
        modifies {}
      {
        var c := DeprecatedColumns[i];
        PurgeStep(t0, i);
        if c in existing {
          t := DropColumns(t, {c});
        }
      }
      PutTable(processed, schemas, tables, key, t);
      tables := tables[key := t];
    }

    /** `load_into_duckdb`: for a non-empty batch and a `schema.relation` name,
        creates the schema and (if missing) the table from the sanitised batch,
        evolves the table's columns and drops the deprecated ones; then, when the
        batch has an identity column, deletes the rows it names and inserts it,
        and otherwise fails with the schema changes already made. */
    method LoadIntoDuckDb(df: Option<Frame>, tableName: string) returns (ok: bool)
      requires Valid()
      requires df.Some? ==> WellFormed(df.value)
      modifies this
      ensures Valid()
      ensures processed == old(processed)
      ensures ok <==> df.Some? && |df.value.rows| > 0 && '.' in tableName && IdColumn in df.value.columns
      ensures (df.None? || |df.value.rows| == 0 || '.' !in tableName) ==>
        schemas == old(schemas) && tables == old(tables)
      ensures df.Some? && |df.value.rows| > 0 && '.' in tableName ==>
        var key := SplitQualified(tableName).value;
        var clean := Sanitize(df.value);
        var base := if key in old(tables) then old(tables)[key] else Created(clean);
        && schemas == old(schemas) + {key.0}
        && tables == old(tables)[key := if ok then Loaded(base, clean) else Reconciled(base, clean)]
    {
      if df.None? || |df.value.rows| == 0 {
        return false;
      }
      var clean := Sanitize(df.value);
      var split := SplitQualified(tableName);
      if split.None? {
        return false;
      }
      var key := split.value;
      AddSchema(processed, schemas, tables, key.0);
      schemas := schemas + {key.0};
      if key !in tables {
        PutTable(processed, schemas, tables, key, Created(clean));
        tables := tables[key := Created(clean)];
      }
      ghost var base := tables[key];
      ghost var before := tables;
      assert base == if key in old(tables) then old(tables)[key] else Created(clean);
      assert before == old(tables)[key := base];
      ghost var evolved := Evolved(base, clean);
      ghost var reconciled := Purged(evolved);
      EvolveEnds(base, clean);
      PurgeEnds(evolved);
      PutTable(processed, schemas, before, key, reconciled);
      ghost var reconciledTables := before[key := reconciled];
      EnsureDuckDbSchema(tableName, clean);
      AddSchema(old(processed), schemas, reconciledTables, key.0);
      DropDeprecatedDuckDbColumns(tableName);
      Overwrite(before, key, evolved, reconciled);
      Overwrite(old(tables), key, base, reconciled);
      assert reconciled == Reconciled(base, clean);
      KeyColumnsKept();
      SanitizeKeeps(df.value, IdColumn);
      if IdColumn !in clean.columns {
        return false;
      }
      var t := tables[key];
      var kept := t.(rows := Unmatched(t.rows, BatchKeys(clean.rows)));
      tables := tables[key := kept];
      var inserted := kept.(rows := kept.rows + PadAll(clean.rows, Elems(kept.columns)));
      tables := tables[key := inserted];
      assert inserted == Upserted(t, clean);
      UpsertedShape(t, clean);
      PutTable(processed, schemas, reconciledTables, key, inserted);
      Overwrite(reconciledTables, key, kept, inserted);
      Overwrite(old(tables), key, reconciled, inserted);
      ok := true;
    }
  }
}
