/**
 The SQLite-backed URL store.

 The `url` table is modelled as an immutable sequence of records in
 insertion order. Every operation is a pure function of the table, its
 arguments and a record of how each driver call went (a prepared statement
 may fail to compile, a query or exec may fail with an I/O error); the
 operations that write return the new table alongside their result.
 */
module Sqlite {
  import opened Options
  import opened StoreErrors

  /** One row of `url(ID INTEGER PRIMARY KEY, alias TEXT NOT NULL UNIQUE,
      url TEXT NOT NULL UNIQUE)`. Go strings are never NULL, so NOT NULL
      rules out nothing; empty strings are accepted. */
  datatype Record = Record(id: int, alias: string, url: string)

  datatype Table = Table(rows: seq<Record>)

  /** How one driver call went. */
  datatype Step = Done | Failed(reason: string)

  /** The driver calls `SaveURL` makes, in order. */
  datatype SaveDriver = SaveDriver(
    prepareCount: Step,   // preparing SELECT COUNT(*) ... WHERE alias = ?
    scanCount: Step,      // running it and scanning the count
    prepareInsert: Step,  // preparing INSERT INTO url(url, alias)
    execInsert: Step)     // an I/O failure of the insert itself

  /** The driver calls `GetURL` makes, in order. */
  datatype GetDriver = GetDriver(prepare: Step, query: Step)

  /** The driver calls `DeleteURL` makes, in order. */
  datatype DeleteDriver = DeleteDriver(prepare: Step, exec: Step)

  /** Result of `SaveURL`: the new row id or an error, and the table after. */
  datatype Saved = Saved(result: Result<int>, table: Table)

  /** Result of `DeleteURL`: success or an error, and the table after. */
  datatype Deleted = Deleted(result: Result<()>, table: Table)

  const SaveOp := "storage.sqlite.SaveURL"
  const GetOp := "storage.sqlite.GetURL"
  const DeleteOp := "storage.sqlite.DeleteURL"
  const GetScanContext := GetOp + ": execute statement"

  const NoSaveFaults := SaveDriver(Done, Done, Done, Done)
  const NoGetFaults := GetDriver(Done, Done)
  const NoDeleteFaults := DeleteDriver(Done, Done)

  // ---------------------------------------------------------------------
  // The table and its constraints

  predicate HasAlias(t: Table, alias: string) {
    exists i :: 0 <= i < |t.rows| && t.rows[i].alias == alias
  }

  predicate HasUrl(t: Table, url: string) {
    exists i :: 0 <= i < |t.rows| && t.rows[i].url == url
  }

  /** No two rows share an id, an alias or a url; every id is positive
      (SQLite assigns rowids from 1 upward). */
  predicate Distinct(rows: seq<Record>) {
    && (forall i :: 0 <= i < |rows| ==> rows[i].id >= 1)
    && (forall i, j :: 0 <= i < j < |rows| ==>
          && rows[i].id != rows[j].id
          && rows[i].alias != rows[j].alias
          && rows[i].url != rows[j].url)
  }

  /** The schema's invariant on the whole table. */
  predicate Valid(t: Table) {
    Distinct(t.rows)
  }

  /** The table the schema creates: empty. */
  function Empty(): (t: Table)
    ensures Valid(t)
    ensures forall a :: !HasAlias(t, a)
  {
    Table([])
  }

  /** Would inserting `(alias, url)` violate a UNIQUE constraint? */
  predicate ViolatesUnique(t: Table, alias: string, url: string) {
    HasAlias(t, alias) || HasUrl(t, url)
  }

  /** Largest id in use, 0 for an empty table. */
  function MaxId(rows: seq<Record>): (m: int)
    ensures m >= 0
    ensures forall i :: 0 <= i < |rows| ==> rows[i].id <= m
    ensures |rows| > 0 && (forall i :: 0 <= i < |rows| ==> rows[i].id >= 1) ==>
              exists i :: 0 <= i < |rows| && rows[i].id == m
  {
    if |rows| == 0 then 0
    else
      var rest := MaxId(rows[1..]);
      if rows[0].id >= rest then rows[0].id else rest
  }

  /** The rowid SQLite gives a row inserted without one: one more than the
      largest rowid in the table, or 1 in an empty table. */
  function NextId(t: Table): (id: int)
    ensures id >= 1
    ensures forall i :: 0 <= i < |t.rows| ==> t.rows[i].id < id
  {
    MaxId(t.rows) + 1
  }

  /** `SELECT COUNT(*) FROM url WHERE alias = ?`. */
  function CountAlias(rows: seq<Record>, alias: string): (n: nat)
    ensures n == 0 <==> !HasAlias(Table(rows), alias)
    ensures n <= |rows|
  {
    if |rows| == 0 then 0
    else
      (if rows[0].alias == alias then 1 else 0) + CountAlias(rows[1..], alias)
  }

  /** The first row with the given alias, as `QueryRow` would return it. */
  function Find(rows: seq<Record>, alias: string): (r: Option<Record>)
    ensures r.Some? ==> r.value in rows && r.value.alias == alias
    ensures r.None? <==> !HasAlias(Table(rows), alias)
  {
    if |rows| == 0 then None
    else if rows[0].alias == alias then Some(rows[0])
    else Find(rows[1..], alias)
  }

  /** `DELETE FROM url WHERE alias = ?`: keep every other row, in order. */
  function RemoveAlias(rows: seq<Record>, alias: string): (r: seq<Record>)
    ensures forall x :: x in r <==> x in rows && x.alias != alias
    ensures |r| <= |rows|
    ensures !HasAlias(Table(rows), alias) ==> r == rows
  {
    if |rows| == 0 then []
    else if rows[0].alias == alias then RemoveAlias(rows[1..], alias)
    else [rows[0]] + RemoveAlias(rows[1..], alias)
  }

  /** Deleting rows keeps the table's constraints. */
  lemma {:induction false} RemoveAliasKeepsDistinct(rows: seq<Record>, alias: string)
    requires Distinct(rows)
    ensures Distinct(RemoveAlias(rows, alias))
  {
    if |rows| > 0 {
      RemoveAliasKeepsDistinct(rows[1..], alias);
      if rows[0].alias != alias {
        var rest := RemoveAlias(rows[1..], alias);
        assert forall x :: x in rest ==> x in rows[1..];
        DistinctCons(rows, rest);
      }
    }
  }

  /** Helper for `RemoveAlias`: putting the head of a distinct sequence in
      front of a distinct selection of its tail keeps it distinct. */
  lemma DistinctCons(rows: seq<Record>, rest: seq<Record>)
    requires |rows| > 0
    requires forall x :: x in rest ==> x in rows[1..]
    ensures Distinct(rows) && Distinct(rest) ==> Distinct([rows[0]] + rest)
  {
    if Distinct(rows) && Distinct(rest) {
      var r := [rows[0]] + rest;
      forall i, j | 0 <= i < j < |r|
        ensures r[i].id != r[j].id && r[i].alias != r[j].alias && r[i].url != r[j].url
      {
        if i == 0 {
          assert r[j] in rows[1..];
          var k :| 0 <= k < |rows[1..]| && rows[1..][k] == r[j];
          assert rows[k + 1] == r[j];
        }
      }
      forall i | 0 <= i < |r| ensures r[i].id >= 1 {
        if i > 0 {
          assert r[i] in rows[1..];
        }
      }
    }
  }

  // ---------------------------------------------------------------------
  // Operations

  /** `Storage.SaveURL(urlToSave, alias)`.

      A pre-check counts the rows with this alias; a failed scan is ignored
      and leaves the count at Go's zero value. A non-zero count is reported
      as `ErrURLExists`, not `ErrAliasExists`. Then the insert runs; the
      UNIQUE constraints on alias and url are the authoritative guard, and
      their violation is also reported as `ErrURLExists`. An I/O failure of
      the insert is taken to happen before the constraint check. Every
      error carries the operation name. */
  function SaveURL(t: Table, url: string, alias: string, d: SaveDriver): (r: Saved)
    ensures Valid(t) ==> Valid(r.table)
    ensures r.result.Err? ==> r.table == t
    ensures r.result.Err? ==> Contexts(r.result.error) == [SaveOp]
    ensures r.result.Err? ==> Root(r.result.error) == URLExists || Root(r.result.error).Driver?
    ensures r.result.Ok? <==>
              && d.prepareCount.Done? && d.prepareInsert.Done? && d.execInsert.Done?
              && !ViolatesUnique(t, alias, url)
    ensures r.result.Ok? ==>
              && r.table.rows == t.rows + [Record(r.result.value, alias, url)]
              && forall i :: 0 <= i < |t.rows| ==> t.rows[i].id != r.result.value
  {
    if d.prepareCount.Failed? then
      Saved(Err(Wrap(SaveOp, Base(Driver(d.prepareCount.reason)))), t)
    else
      var count := if d.scanCount.Failed? then 0 else CountAlias(t.rows, alias);
      if count != 0 then
        Saved(Err(Wrap(SaveOp, Base(URLExists))), t)
      else if d.prepareInsert.Failed? then
        Saved(Err(Wrap(SaveOp, Base(Driver(d.prepareInsert.reason)))), t)
      else if d.execInsert.Failed? then
        Saved(Err(Wrap(SaveOp, Base(Driver(d.execInsert.reason)))), t)
      else if ViolatesUnique(t, alias, url) then
        Saved(Err(Wrap(SaveOp, Base(URLExists))), t)
      else
        var id := NextId(t);
        var t' := Table(t.rows + [Record(id, alias, url)]);
        assert Valid(t) ==> Valid(t') by {
          if Valid(t) {
            forall i, j | 0 <= i < j < |t'.rows|
              ensures t'.rows[i].alias != t'.rows[j].alias && t'.rows[i].url != t'.rows[j].url
            {
              if j == |t.rows| {
                assert t.rows[i].alias != alias;
                assert t.rows[i].url != url;
              }
            }
          }
        }
        Saved(Ok(id), t')
  }

  /** `Storage.GetURL(alias)`. A missing row gives the bare
      `ErrURLNotFound` sentinel, without the operation name; driver
      failures are wrapped. */
  function GetURL(t: Table, alias: string, d: GetDriver): (r: Result<string>)
    ensures r.Ok? <==> d.prepare.Done? && d.query.Done? && HasAlias(t, alias)
    ensures r.Ok? ==> exists i :: 0 <= i < |t.rows| && t.rows[i] == Record(t.rows[i].id, alias, r.value)
    ensures r.Err? && Is(r.error, URLNotFound) <==>
              d.prepare.Done? && d.query.Done? && !HasAlias(t, alias)
    ensures r.Err? && Is(r.error, URLNotFound) ==> r.error == Base(URLNotFound)
    ensures r.Err? && !Is(r.error, URLNotFound) ==> Root(r.error).Driver?
  {
    if d.prepare.Failed? then
      Err(Wrap(GetOp, Base(Driver(d.prepare.reason))))
    else if d.query.Failed? then
      Err(Wrap(GetScanContext, Base(Driver(d.query.reason))))
    else
      match Find(t.rows, alias)
      case None => Err(Base(URLNotFound))
      case Some(row) => Ok(row.url)
  }

  /** `Storage.DeleteURL(alias)`: an unconditional delete. It succeeds
      whether or not a row matched; only driver failures are errors. */
  function DeleteURL(t: Table, alias: string, d: DeleteDriver): (r: Deleted)
    ensures Valid(t) ==> Valid(r.table)
    ensures r.result.Ok? <==> d.prepare.Done? && d.exec.Done?
    ensures r.result.Err? ==> r.table == t && Contexts(r.result.error) == [DeleteOp]
    ensures r.result.Err? ==> Root(r.result.error).Driver?
    ensures r.result.Ok? ==> !HasAlias(r.table, alias)
    ensures r.result.Ok? ==> forall x :: x in r.table.rows <==> x in t.rows && x.alias != alias
  {
    if d.prepare.Failed? then
      Deleted(Err(Wrap(DeleteOp, Base(Driver(d.prepare.reason)))), t)
    else if d.exec.Failed? then
      Deleted(Err(Wrap(DeleteOp, Base(Driver(d.exec.reason)))), t)
    else
      var rows := RemoveAlias(t.rows, alias);
      assert Valid(t) ==> Valid(Table(rows)) by {
        if Valid(t) { RemoveAliasKeepsDistinct(t.rows, alias); }
      }
      Deleted(Ok(()), Table(rows))
  }

  // ---------------------------------------------------------------------
  // Properties across operations

  /** Looking an alias up after appending one row. */
  lemma {:induction false} FindAppend(rows: seq<Record>, row: Record, alias: string)
    ensures Find(rows + [row], alias) ==
              if HasAlias(Table(rows), alias) then Find(rows, alias)
              else if row.alias == alias then Some(row)
              else None
  {
    if |rows| > 0 {
      assert (rows + [row])[1..] == rows[1..] + [row];
      FindAppend(rows[1..], row, alias);
      if rows[0].alias != alias {
        assert HasAlias(Table(rows), alias) <==> HasAlias(Table(rows[1..]), alias) by {
          if HasAlias(Table(rows), alias) {
            var i :| 0 <= i < |rows| && rows[i].alias == alias;
            assert rows[1..][i - 1].alias == alias;
          }
          if HasAlias(Table(rows[1..]), alias) {
            var i :| 0 <= i < |rows[1..]| && rows[1..][i].alias == alias;
            assert rows[i + 1].alias == alias;
          }
        }
      }
    } else {
      assert rows + [row] == [row];
    }
  }

  /** Looking up any other alias after a delete. */
  lemma {:induction false} FindAfterRemove(rows: seq<Record>, removed: string, alias: string)
    requires removed != alias
    ensures Find(RemoveAlias(rows, removed), alias) == Find(rows, alias)
  {
    if |rows| > 0 {
      FindAfterRemove(rows[1..], removed, alias);
    }
  }

  /** Round trip: once `SaveURL(url, alias)` succeeds, `GetURL(alias)`
      returns `url`. */
  lemma SaveThenGet(t: Table, url: string, alias: string, d: SaveDriver)
    requires SaveURL(t, url, alias, d).result.Ok?
    ensures GetURL(SaveURL(t, url, alias, d).table, alias, NoGetFaults) == Ok(url)
  {
    var id := SaveURL(t, url, alias, d).result.value;
    FindAppend(t.rows, Record(id, alias, url), alias);
  }

  /** A successful save changes no other alias's lookup, whatever the
      driver does on that later lookup. */
  lemma SaveKeepsOtherAliases(t: Table, url: string, alias: string, d: SaveDriver,
                              other: string, g: GetDriver)
    requires other != alias
    ensures GetURL(SaveURL(t, url, alias, d).table, other, g) == GetURL(t, other, g)
  {
    var r := SaveURL(t, url, alias, d);
    if r.result.Ok? {
      FindAppend(t.rows, Record(r.result.value, alias, url), other);
    }
  }

  /** An alias already in the table makes `SaveURL` fail with
      `ErrURLExists` (never `ErrAliasExists`), whatever the url, and leave
      the table unchanged, provided the driver gets far enough to notice:
      the pre-check runs, or the insert does. */
  lemma SaveExistingAlias(t: Table, url: string, alias: string, d: SaveDriver)
    requires HasAlias(t, alias)
    requires d.prepareCount.Done?
    requires d.scanCount.Done? || (d.prepareInsert.Done? && d.execInsert.Done?)
    ensures SaveURL(t, url, alias, d) == Saved(Err(Wrapped(SaveOp, Base(URLExists))), t)
  {
  }

  /** A url already in the table makes a save with a new alias fail with
      `ErrURLExists` and leave the table unchanged. */
  lemma SaveExistingUrl(t: Table, url: string, alias: string)
    requires HasUrl(t, url)
    ensures SaveURL(t, url, alias, NoSaveFaults) == Saved(Err(Wrapped(SaveOp, Base(URLExists))), t)
  {
  }

  /** The failed pre-check scan is ignored: when the insert itself goes
      through, the outcome is the same as if the scan had worked, because
      the UNIQUE constraint catches the duplicate alias instead. */
  lemma ScanFailureIgnored(t: Table, url: string, alias: string, d: SaveDriver)
    requires d.scanCount.Failed?
    requires d.prepareInsert.Done? && d.execInsert.Done?
    ensures SaveURL(t, url, alias, d) == SaveURL(t, url, alias, d.(scanCount := Done))
  {
  }

  /** Where ignoring the failed scan shows: with the alias already taken,
      a working scan would report `ErrURLExists`, but after a failed scan
      the insert runs, and a driver failure there is what the caller sees. */
  lemma ScanFailureSurfacesInsertFault(t: Table, url: string, alias: string, d: SaveDriver)
    requires HasAlias(t, alias)
    requires d.prepareCount.Done? && d.scanCount.Failed?
    requires d.prepareInsert.Failed? || d.execInsert.Failed?
    ensures SaveURL(t, url, alias, d).table == t
    ensures SaveURL(t, url, alias, d).result ==
              Err(Wrapped(SaveOp, Base(Driver(
                if d.prepareInsert.Failed? then d.prepareInsert.reason else d.execInsert.reason))))
    ensures SaveURL(t, url, alias, d.(scanCount := Done)).result ==
              Err(Wrapped(SaveOp, Base(URLExists)))
  {
  }

  /** After a successful delete the alias is gone; deleting it again
      still succeeds and changes nothing. */
  lemma DeleteTwice(t: Table, alias: string, d: DeleteDriver)
    requires DeleteURL(t, alias, d).result.Ok?
    ensures var t' := DeleteURL(t, alias, d).table;
            && GetURL(t', alias, NoGetFaults) == Err(Base(URLNotFound))
            && DeleteURL(t', alias, NoDeleteFaults) == Deleted(Ok(()), t')
  {
  }

  /** A delete changes no other alias's lookup. */
  lemma DeleteKeepsOtherAliases(t: Table, alias: string, d: DeleteDriver,
                                other: string, g: GetDriver)
    requires other != alias
    ensures GetURL(DeleteURL(t, alias, d).table, other, g) == GetURL(t, other, g)
  {
    if DeleteURL(t, alias, d).result.Ok? {
      FindAfterRemove(t.rows, alias, other);
    }
  }
}
