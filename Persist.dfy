/**
 * Turning each scraped inmate into one row of the `inmates` table and
 * writing it with `INSERT OR REPLACE` (`save_to_database`). The table is
 * keyed by its UNIQUE `booking_num` column; `id` is an AUTOINCREMENT key,
 * so a replaced row comes back with a new, larger id.
 */
module Persist {
  import opened PyStr
  import opened Charges
  import opened ListCrawl
  import opened Details

  /** The values bound to one `INSERT OR REPLACE` (the charges are stored
      serialised; here they stay a sequence). */
  datatype InmateRecord = InmateRecord(
    bookingNum: string,
    inmateId: string,
    lastName: string,
    firstName: string,
    middleName: string,
    suffix: string,
    sex: string,
    race: string,
    bookingDate: string,
    releaseDate: string,
    inCustody: string,
    photoLink: string,
    charges: seq<Charge>)

  /** `d.get(key, '')`. */
  function Get(d: map<string, string>, key: string): (v: string)
    ensures key in d ==> v == d[key]
    ensures key !in d ==> v == ""
  {
    if key in d then d[key] else ""
  }

  /** Every booking's charges, in booking order and then row order. */
  function FlatCharges(bookings: seq<Booking>): seq<Charge> {
    if bookings == [] then []
    else FlatCharges(bookings[..|bookings| - 1]) + bookings[|bookings| - 1].charges
  }

  /** The row written for one inmate. Booking number, dates and custody come
      from the first booking (taken to be the most recent); with no booking
      they are empty and the inmate is not in custody. */
  function RecordOf(inmate: DetailedInmate): (r: InmateRecord)
    ensures inmate.bookings == [] ==>
      r.bookingNum == "" && r.bookingDate == "" && r.releaseDate == "" && r.inCustody == "No"
    ensures inmate.bookings != [] ==>
      && r.bookingNum == Get(inmate.bookings[0].fields, BookingNumberKey)
      && r.bookingDate == Get(inmate.bookings[0].fields, "booking_date")
      && r.releaseDate == Get(inmate.bookings[0].fields, "release_date")
    ensures r.inCustody == "Yes" <==> inmate.bookings != [] && r.releaseDate == ""
    ensures r.inCustody == "Yes" || r.inCustody == "No"
    ensures r.charges == FlatCharges(inmate.bookings)
    ensures r.inmateId == inmate.entry.subjectNumber && r.sex == inmate.entry.gender
    ensures r.race == inmate.entry.race && r.photoLink == ""
    ensures r.lastName == inmate.entry.lastName && r.firstName == inmate.entry.firstName
    ensures r.middleName == inmate.entry.middleName && r.suffix == inmate.entry.suffix
  {
    var e := inmate.entry;
    var latest: map<string, string> := if inmate.bookings == [] then map[] else inmate.bookings[0].fields;
    var releaseDate := Get(latest, "release_date");
    var inCustody := if inmate.bookings != [] && releaseDate == "" then "Yes" else "No";
    InmateRecord(Get(latest, BookingNumberKey), e.subjectNumber, e.lastName, e.firstName, e.middleName, e.suffix,
                 e.gender, e.race, Get(latest, "booking_date"), releaseDate, inCustody, "",
                 FlatCharges(inmate.bookings))
  }

  /** The body of the save loop for one inmate: the custody derivation and
      the `all_charges.extend(...)` loop. */
  method DeriveRecord(inmate: DetailedInmate) returns (rec: InmateRecord)
    ensures rec == RecordOf(inmate)
  {
    var bookingDate := "";
    var releaseDate := "";
    var inCustody := "No";
    if inmate.bookings != [] {
      var latest := inmate.bookings[0].fields;
      bookingDate := Get(latest, "booking_date");
      releaseDate := Get(latest, "release_date");
      inCustody := if releaseDate == "" then "Yes" else "No";
    }
    var allCharges: seq<Charge> := [];
    for i := 0 to |inmate.bookings|
      invariant allCharges == FlatCharges(inmate.bookings[..i])
    {
      allCharges := allCharges + inmate.bookings[i].charges;
      assert inmate.bookings[..i + 1][..i] == inmate.bookings[..i];
    }
    assert inmate.bookings[..|inmate.bookings|] == inmate.bookings;
    var bookingNum := if inmate.bookings != [] then Get(inmate.bookings[0].fields, BookingNumberKey) else "";
    var e := inmate.entry;
    rec := InmateRecord(bookingNum, e.subjectNumber, e.lastName, e.firstName, e.middleName, e.suffix,
                        e.gender, e.race, bookingDate, releaseDate, inCustody, "", allCharges);
  }

  /** The rows written for a list of inmates, in order. */
  function RecordsOf(inmates: seq<DetailedInmate>): (rs: seq<InmateRecord>)
    ensures |rs| == |inmates|
    ensures forall i :: 0 <= i < |rs| ==> rs[i] == RecordOf(inmates[i])
  {
    if inmates == [] then []
    else RecordsOf(inmates[..|inmates| - 1]) + [RecordOf(inmates[|inmates| - 1])]
  }

  // ---------------------------------------------------------------------
  // The table, as records by booking number

  /** The table's records after writing `rs` in order into `table`. */
  function Upserted(table: map<string, InmateRecord>, rs: seq<InmateRecord>): map<string, InmateRecord> {
    if rs == [] then table
    else
      var last := rs[|rs| - 1];
      Upserted(table, rs[..|rs| - 1])[last.bookingNum := last]
  }

  /** The index of the last record in `rs` with booking number `key`. */
  function LastWrite(rs: seq<InmateRecord>, key: string): (r: Option<nat>)
    ensures r.Some? ==> r.value < |rs| && rs[r.value].bookingNum == key
    ensures r.Some? ==> forall j :: r.value < j < |rs| ==> rs[j].bookingNum != key
    ensures r.None? ==> forall j :: 0 <= j < |rs| ==> rs[j].bookingNum != key
  {
    if rs == [] then None
    else if rs[|rs| - 1].bookingNum == key then Some(|rs| - 1)
    else LastWrite(rs[..|rs| - 1], key)
  }

  /** After the writes, a booking number is present exactly when it was
      before or some record has it; the last record with it decides its
      row; a booking number no record has keeps its old row. */
  lemma {:induction false} UpsertedAt(table: map<string, InmateRecord>, rs: seq<InmateRecord>, key: string)
    ensures key in Upserted(table, rs) <==> key in table || LastWrite(rs, key).Some?
    ensures LastWrite(rs, key).Some? ==> Upserted(table, rs)[key] == rs[LastWrite(rs, key).value]
    ensures LastWrite(rs, key).None? && key in table ==> Upserted(table, rs)[key] == table[key]
  {
    if rs != [] {
      UpsertedAt(table, rs[..|rs| - 1], key);
    }
  }

  /** Writing `a` and then `b` is writing `a + b`. */
  lemma {:induction false} UpsertedAppend(table: map<string, InmateRecord>, a: seq<InmateRecord>, b: seq<InmateRecord>)
    ensures Upserted(Upserted(table, a), b) == Upserted(table, a + b)
    decreases |b|
  {
    if b == [] {
      assert a + b == a;
    } else {
      assert (a + b)[..|a + b| - 1] == a + b[..|b| - 1];
      UpsertedAppend(table, a, b[..|b| - 1]);
    }
  }

  /** Saving the same records a second time changes no record. */
  lemma UpsertedIdempotent(table: map<string, InmateRecord>, rs: seq<InmateRecord>)
    ensures Upserted(Upserted(table, rs), rs) == Upserted(table, rs)
  {
    var once := Upserted(table, rs);
    var twice := Upserted(once, rs);
    forall key | key in twice || key in once
      ensures key in twice && key in once && twice[key] == once[key]
    {
      UpsertedAt(table, rs, key);
      UpsertedAt(once, rs, key);
    }
  }

  /** Saving one record twice leaves one row under its booking number,
      holding the second write. */
  lemma SaveTwice(table: map<string, InmateRecord>, r: InmateRecord)
    ensures Upserted(table, [r, r]) == Upserted(table, [r])
    ensures r.bookingNum in Upserted(table, [r, r]) && Upserted(table, [r, r])[r.bookingNum] == r
  {
    UpsertedAppend(table, [r], [r]);
    UpsertedIdempotent(table, [r]);
  }

  /** Every inmate without bookings is written under the key "", so among
      several of them only the last one's row remains. */
  lemma NoBookingsShareKey(a: DetailedInmate, b: DetailedInmate, table: map<string, InmateRecord>)
    requires a.bookings == [] && b.bookings == []
    ensures Upserted(table, RecordsOf([a, b]))[""] == RecordOf(b)
  {
    assert [a, b][..1] == [a];
    assert [a][..0] == [];
  }

  /** The charges of consecutive booking lists are concatenated. */
  lemma {:induction false} FlatChargesAppend(a: seq<Booking>, b: seq<Booking>)
    ensures FlatCharges(a + b) == FlatCharges(a) + FlatCharges(b)
    decreases |b|
  {
    if b == [] {
      assert a + b == a;
    } else {
      assert (a + b)[..|a + b| - 1] == a + b[..|b| - 1];
      FlatChargesAppend(a, b[..|b| - 1]);
    }
  }

  /** Two bookings with charges [c1, c2] and [c3] give [c1, c2, c3]. */
  lemma FlatChargesTwo(b1: Booking, b2: Booking)
    ensures FlatCharges([b1, b2]) == b1.charges + b2.charges
  {
    assert [b1, b2][..1] == [b1];
    assert [b1][..0] == [];
    assert FlatCharges([b1]) == b1.charges;
  }

  /** One more write is the last write of its own booking number and of
      no other. */
  lemma LastWriteSnoc(rs: seq<InmateRecord>, r: InmateRecord, key: string)
    ensures LastWrite(rs + [r], key) == if r.bookingNum == key then Some(|rs|) else LastWrite(rs, key)
  {
    assert (rs + [r])[..|rs|] == rs;
  }

  // ---------------------------------------------------------------------
  // The table as stored

  datatype StoredRow = StoredRow(id: nat, record: InmateRecord)

  /** The id facts of a save that wrote `rs` over `oldRows`, with ids
      handed out from `base` on: a row under a new booking number has a new
      id; a booking number that no record has keeps its row, id included;
      every written booking number holds a row with a new id. */
  ghost predicate WrittenIds(oldRows: map<string, StoredRow>, rows: map<string, StoredRow>,
                             rs: seq<InmateRecord>, base: nat)
  {
    && (forall k :: k in rows && k !in oldRows ==> rows[k].id >= base)
    && (forall k :: k in oldRows && LastWrite(rs, k).None? ==> k in rows && rows[k] == oldRows[k])
    && (forall k :: LastWrite(rs, k).Some? ==> k in rows && rows[k].id >= base)
  }

  /** One `INSERT OR REPLACE` with an id of at least `base` keeps them. */
  lemma WriteStep(oldRows: map<string, StoredRow>, prevRows: map<string, StoredRow>,
                  newRows: map<string, StoredRow>, prevRs: seq<InmateRecord>,
                  rec: InmateRecord, id: nat, base: nat)
    requires newRows == prevRows[rec.bookingNum := StoredRow(id, rec)] && id >= base
    requires WrittenIds(oldRows, prevRows, prevRs, base)
    ensures WrittenIds(oldRows, newRows, prevRs + [rec], base)
  {
    forall k | LastWrite(prevRs + [rec], k).Some? || k in oldRows
      ensures k in oldRows && LastWrite(prevRs + [rec], k).None? ==> k in newRows && newRows[k] == oldRows[k]
      ensures LastWrite(prevRs + [rec], k).Some? ==> k in newRows && newRows[k].id >= base
    {
      LastWriteSnoc(prevRs, rec, k);
    }
  }

  /** Each row sits under its own booking number, and ids are distinct
      and below `nextId`. */
  ghost predicate ValidRows(rows: map<string, StoredRow>, nextId: nat) {
    && (forall k :: k in rows ==> rows[k].record.bookingNum == k && rows[k].id < nextId)
    && (forall k1, k2 :: k1 in rows && k2 in rows && k1 != k2 ==> rows[k1].id != rows[k2].id)
  }

  /** The records of the rows, by booking number. */
  function RowRecords(rows: map<string, StoredRow>): map<string, InmateRecord> {
    map k | k in rows :: rows[k].record
  }

  /** Inserting a record with the next id, replacing any row under its
      booking number, keeps the rows valid. */
  lemma InsertRowValid(rows: map<string, StoredRow>, nextId: nat, rec: InmateRecord)
    requires ValidRows(rows, nextId)
    ensures ValidRows(rows[rec.bookingNum := StoredRow(nextId, rec)], nextId + 1)
  {
    var after := rows[rec.bookingNum := StoredRow(nextId, rec)];
    forall k1, k2 | k1 in after && k2 in after && k1 != k2
      ensures after[k1].id != after[k2].id
    {
      if k1 != rec.bookingNum && k2 != rec.bookingNum {
        assert after[k1] == rows[k1] && after[k2] == rows[k2];
      }
    }
  }

  /** That insertion replaces exactly the one record under its booking
      number. */
  lemma InsertRowRecords(rows: map<string, StoredRow>, nextId: nat, rec: InmateRecord)
    ensures RowRecords(rows[rec.bookingNum := StoredRow(nextId, rec)]) == RowRecords(rows)[rec.bookingNum := rec]
  {
    var after := rows[rec.bookingNum := StoredRow(nextId, rec)];
    assert RowRecords(after).Keys == RowRecords(rows).Keys + {rec.bookingNum};
  }

  /** Where a save that has written `rs` over `oldRows`, starting from the
      next id `oldNext`, stands. */
  ghost predicate SavedSoFar(oldRows: map<string, StoredRow>, oldNext: nat,
                             rows: map<string, StoredRow>, nextId: nat, rs: seq<InmateRecord>)
  {
    && ValidRows(rows, nextId)
    && RowRecords(rows) == Upserted(RowRecords(oldRows), rs)
    && nextId == oldNext + |rs|
    && WrittenIds(oldRows, rows, rs, oldNext)
  }

  /** One more `INSERT OR REPLACE` advances a save by one record. */
  lemma SaveStep(oldRows: map<string, StoredRow>, oldNext: nat,
                 rows: map<string, StoredRow>, nextId: nat, rs: seq<InmateRecord>, rec: InmateRecord)
    requires SavedSoFar(oldRows, oldNext, rows, nextId, rs)
    ensures SavedSoFar(oldRows, oldNext, rows[rec.bookingNum := StoredRow(nextId, rec)], nextId + 1, rs + [rec])
  {
    InsertRowValid(rows, nextId, rec);
    InsertRowRecords(rows, nextId, rec);
    WriteStep(oldRows, rows, rows[rec.bookingNum := StoredRow(nextId, rec)], rs, rec, nextId, oldNext);
    assert (rs + [rec])[..|rs|] == rs;
  }

  /** The `inmates` table: rows by booking number, and the next value of
      the AUTOINCREMENT `id`. A new `InmateDb` stands for a fresh database
      file, whose `CREATE TABLE IF NOT EXISTS` makes an empty table. */
  class InmateDb {
    var rows: map<string, StoredRow>
    var nextId: nat

    ghost predicate Valid()
      reads this
    {
      ValidRows(rows, nextId)
    }

    function Records(): map<string, InmateRecord>
      reads this
    {
      RowRecords(rows)
    }

    /** A freshly created, empty table. */
    constructor ()
      ensures Valid() && rows == map[] && nextId == 1
    {
      rows := map[];
      nextId := 1;
    }

    /** `INSERT OR REPLACE`: any row with the same booking number is
        removed and the record is inserted with the next id. */
    method InsertOrReplace(rec: InmateRecord)
      requires Valid()
      modifies this
      ensures Valid()
      ensures rows == old(rows)[rec.bookingNum := StoredRow(old(nextId), rec)]
      ensures nextId == old(nextId) + 1
      ensures Records() == old(Records())[rec.bookingNum := rec]
    {
      InsertRowValid(rows, nextId, rec);
      InsertRowRecords(rows, nextId, rec);
      rows := rows[rec.bookingNum := StoredRow(nextId, rec)];
      nextId := nextId + 1;
    }

    /** `save_to_database`: one upsert per inmate, in order. Rows under
        booking numbers that none of the inmates has keep their id and
        record; every row written gets an id not used before. */
    method SaveToDatabase(inmates: seq<DetailedInmate>)
      requires Valid()
      modifies this
      ensures Valid()
      ensures Records() == Upserted(old(Records()), RecordsOf(inmates))
      ensures nextId == old(nextId) + |inmates|
      ensures forall k :: k in rows && k !in old(rows) ==> rows[k].id >= old(nextId)
      ensures forall k :: k in old(rows) && LastWrite(RecordsOf(inmates), k).None? ==>
        k in rows && rows[k] == old(rows)[k]
      ensures forall k :: LastWrite(RecordsOf(inmates), k).Some? ==>
        k in rows && rows[k].id >= old(nextId)
    {
      for i := 0 to |inmates|
        invariant SavedSoFar(old(rows), old(nextId), rows, nextId, RecordsOf(inmates[..i]))
      {
        ghost var prevRows, prevNext := rows, nextId;
        var rec := DeriveRecord(inmates[i]);
        InsertOrReplace(rec);
        assert inmates[..i + 1][..i] == inmates[..i];
        assert RecordsOf(inmates[..i + 1]) == RecordsOf(inmates[..i]) + [rec];
        SaveStep(old(rows), old(nextId), prevRows, prevNext, RecordsOf(inmates[..i]), rec);
      }
      assert inmates[..|inmates|] == inmates;
    }
  }
}
