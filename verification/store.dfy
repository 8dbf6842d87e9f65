/**
 * The three tables of the booking script's SQLite store and the statements
 * run against them.
 *
 * - moniki_specialties(name PRIMARY KEY, count_talons): free cells per specialty;
 * - moniki_data(date_adding, name -> moniki_specialties, count_talons): the log
 *   of significant openings;
 * - moniki_records(date_adding, number_direct, name -> moniki_specialties,
 *   is_recorded, date_direct, time_direct, date_changes, specific, comment,
 *   notified): the referrals to book.
 *
 * Every mutating statement runs in its own transaction (open, execute,
 * commit, close); a statement the store rejects raises before the commit,
 * so the tables are left exactly as they were. Timestamps are whole seconds
 * passed in by the caller.
 */
module Store {
  import opened Wrappers
  import opened Text

  /** A row of moniki_specialties. */
  datatype SpecialtyRow = SpecialtyRow(name: string, countTalons: int)

  /** A row of moniki_data: when a specialty's count jumped, and the (negative) change. */
  datatype Opening = Opening(dateAdding: int, name: string, countTalons: int)

  /** A row of moniki_records. `isRecorded` is 0 (not booked) or 1 (booked) in practice. */
  datatype Referral = Referral(
    dateAdding: int,
    numberDirect: string,
    name: string,
    isRecorded: int,
    dateDirect: Option<string>,
    timeDirect: Option<string>,
    dateChanges: Option<int>,
    specific: Option<string>,
    comment: Option<string>,
    notified: bool)

  /** `(number_direct, name, specific)`, one row of `get_not_recorder`'s answer. */
  datatype PendingRow = PendingRow(numberDirect: string, name: string, specific: Option<string>)

  /** Thirty days, in seconds. */
  const ThirtyDays: int := 30 * 24 * 60 * 60

  // ---------------------------------------------------------------- specialties

  /** The primary key: no two rows of moniki_specialties share a name. */
  ghost predicate UniqueNames(rows: seq<SpecialtyRow>) {
    forall i, j :: 0 <= i < j < |rows| ==> rows[i].name != rows[j].name
  }

  /**
   * `get_data_all_specialty`: the dict comprehension over the rows. Every
   * name of the table is a key, and under a unique key its row's count.
   */
  function SpecialtyMap(rows: seq<SpecialtyRow>): (m: map<string, int>)
    ensures m.Keys == set i | 0 <= i < |rows| :: rows[i].name
  {
    if rows == [] then map[]
    else
      var init := rows[..|rows| - 1];
      var last := rows[|rows| - 1];
      var m := SpecialtyMap(init)[last.name := last.countTalons];
      assert forall i :: 0 <= i < |init| ==> init[i] == rows[i];
      assert (set i | 0 <= i < |rows| :: rows[i].name) == (set i | 0 <= i < |init| :: init[i].name) + {last.name};
      m
  }

  /** Under the primary key, each row's name maps to that row's count. */
  lemma {:induction false} SpecialtyMapRows(rows: seq<SpecialtyRow>)
    requires UniqueNames(rows)
    ensures forall i :: 0 <= i < |rows| ==> SpecialtyMap(rows)[rows[i].name] == rows[i].countTalons
  {
    if rows != [] {
      var init := rows[..|rows| - 1];
      SpecialtyMapRows(init);
      forall i | 0 <= i < |rows| - 1
        ensures SpecialtyMap(rows)[rows[i].name] == rows[i].countTalons
      {
        assert init[i] == rows[i];
      }
    }
  }

  /** `UPDATE moniki_specialties SET count_talons = value WHERE name = name`. */
  function SetCount(rows: seq<SpecialtyRow>, name: string, value: int): (r: seq<SpecialtyRow>)
    ensures |r| == |rows|
    ensures forall i :: 0 <= i < |rows| ==>
              r[i] == if rows[i].name == name then SpecialtyRow(name, value) else rows[i]
  {
    if rows == [] then []
    else
      var last := rows[|rows| - 1];
      SetCount(rows[..|rows| - 1], name, value) + [if last.name == name then SpecialtyRow(name, value) else last]
  }

  /** Seen through `get_data_all_specialty`, the update is a map update of a known key and nothing else. */
  lemma {:induction false} SetCountMap(rows: seq<SpecialtyRow>, name: string, value: int)
    ensures SpecialtyMap(SetCount(rows, name, value))
            == if name in SpecialtyMap(rows) then SpecialtyMap(rows)[name := value] else SpecialtyMap(rows)
  {
    if rows != [] {
      var n := |rows|;
      var init, last := rows[..n - 1], rows[n - 1];
      var newLast := if last.name == name then SpecialtyRow(name, value) else last;
      var rInit := SetCount(init, name, value);
      var m0, m1 := SpecialtyMap(init), SpecialtyMap(rInit);
      assert SpecialtyMap(rows) == m0[last.name := last.countTalons];
      assert SpecialtyMap(SetCount(rows, name, value)) == m1[newLast.name := newLast.countTalons] by {
        var r := SetCount(rows, name, value);
        assert r == rInit + [newLast];
        assert r[..n - 1] == rInit;
      }
      SetCountMap(init, name, value);
      UpdateAfterUpdate(m0, m1, name, value, last);
    }
  }

  /** The map step behind `SetCountMap`, on plain maps. */
  lemma UpdateAfterUpdate(m0: map<string, int>, m1: map<string, int>, name: string, value: int, last: SpecialtyRow)
    requires m1 == if name in m0 then m0[name := value] else m0
    ensures var newLast := if last.name == name then SpecialtyRow(name, value) else last;
            var m := m0[last.name := last.countTalons];
            m1[newLast.name := newLast.countTalons] == if name in m then m[name := value] else m
  {
  }

  /** The update keeps every row's name, so it keeps the primary key. */
  lemma SetCountUnique(rows: seq<SpecialtyRow>, name: string, value: int)
    requires UniqueNames(rows)
    ensures UniqueNames(SetCount(rows, name, value))
  {
    var r := SetCount(rows, name, value);
    assert forall i :: 0 <= i < |rows| ==> r[i].name == rows[i].name;
  }

  /** Appending a row with a new name adds that one key to the map. */
  lemma AppendSpecialtyMap(rows: seq<SpecialtyRow>, name: string, value: int)
    requires UniqueNames(rows) && name !in SpecialtyMap(rows)
    ensures UniqueNames(rows + [SpecialtyRow(name, value)])
    ensures SpecialtyMap(rows + [SpecialtyRow(name, value)]) == SpecialtyMap(rows)[name := value]
  {
    var r := rows + [SpecialtyRow(name, value)];
    assert r[..|r| - 1] == rows;
    forall i, j | 0 <= i < j < |r|
      ensures r[i].name != r[j].name
    {
      if j < |rows| {
        assert r[i] == rows[i] && r[j] == rows[j];
      } else {
        assert r[i] == rows[i];
      }
    }
  }

  // ---------------------------------------------------------------- generic filter

  /** The rows a `DELETE ... WHERE` keeps, in table order. */
  function Keep<T>(s: seq<T>, keep: T -> bool): (r: seq<T>)
    ensures |r| <= |s|
    ensures forall i :: 0 <= i < |r| ==> r[i] in s && keep(r[i])
    ensures forall i :: 0 <= i < |s| && keep(s[i]) ==> s[i] in r
    ensures (forall i :: 0 <= i < |s| ==> keep(s[i])) ==> r == s
  {
    if s == [] then []
    else (if keep(s[0]) then [s[0]] else []) + Keep(s[1..], keep)
  }

  /** A `DELETE ... WHERE` keeps every copy of a kept row and no copy of any other. */
  lemma {:induction false} KeepCounts<T>(s: seq<T>, keep: T -> bool)
    ensures forall x :: multiset(Keep(s, keep))[x] == if keep(x) then multiset(s)[x] else 0
  {
    if s != [] {
      KeepCounts(s[1..], keep);
      assert s == [s[0]] + s[1..];
    }
  }

  /** A second identical delete removes nothing more. */
  lemma KeepIdempotent<T>(s: seq<T>, keep: T -> bool)
    ensures Keep(Keep(s, keep), keep) == Keep(s, keep)
  {
    var r := Keep(s, keep);
    assert forall i :: 0 <= i < |r| ==> r[i] in r;
  }

  // ---------------------------------------------------------------- records

  /** The three UPDATE statements run on moniki_records, by their SET lists. */
  datatype RecordUpdate =
    | SetStatus(isRecorded: int)
    | SetBooking(isRecorded: int, dateDirect: string, timeDirect: string, changedAt: int)
    | SetNotified

  /** Columns no UPDATE of the source touches. */
  predicate SameFixedColumns(a: Referral, b: Referral) {
    a.dateAdding == b.dateAdding && a.numberDirect == b.numberDirect && a.name == b.name
    && a.specific == b.specific && a.comment == b.comment
  }

  /** One row after an UPDATE's SET list: the listed columns take the new values, the others keep theirs. */
  function ApplyUpdate(u: RecordUpdate, row: Referral): (r: Referral)
    ensures SameFixedColumns(r, row)
    ensures u.SetStatus? ==> r.isRecorded == u.isRecorded && r.notified == row.notified
                             && r.dateDirect == row.dateDirect && r.timeDirect == row.timeDirect
                             && r.dateChanges == row.dateChanges
    ensures u.SetBooking? ==> r.isRecorded == u.isRecorded && r.notified == row.notified
                              && r.dateDirect == Some(u.dateDirect) && r.timeDirect == Some(u.timeDirect)
                              && r.dateChanges == Some(u.changedAt)
    ensures u.SetNotified? ==> r.notified && r.isRecorded == row.isRecorded
                               && r.dateDirect == row.dateDirect && r.timeDirect == row.timeDirect
                               && r.dateChanges == row.dateChanges
  {
    match u
    case SetStatus(v) => row.(isRecorded := v)
    case SetBooking(v, d, t, c) => row.(isRecorded := v, dateDirect := Some(d), timeDirect := Some(t), dateChanges := Some(c))
    case SetNotified => row.(notified := true)
  }

  /** `UPDATE moniki_records SET ... WHERE number_direct = number`: every matching row, and only those. */
  function UpdateWhere(rows: seq<Referral>, number: string, u: RecordUpdate): (r: seq<Referral>)
    ensures |r| == |rows|
    ensures forall i :: 0 <= i < |rows| ==>
              r[i] == if rows[i].numberDirect == number then ApplyUpdate(u, rows[i]) else rows[i]
  {
    if rows == [] then []
    else [if rows[0].numberDirect == number then ApplyUpdate(u, rows[0]) else rows[0]]
         + UpdateWhere(rows[1..], number, u)
  }

  /** Running one of the source's UPDATEs twice leaves the table as running it once. */
  lemma {:induction false} UpdateWhereIdempotent(rows: seq<Referral>, number: string, u: RecordUpdate)
    ensures UpdateWhere(UpdateWhere(rows, number, u), number, u) == UpdateWhere(rows, number, u)
  {
    if rows != [] {
      UpdateWhereIdempotent(rows[1..], number, u);
      assert UpdateWhere(rows, number, u)[1..] == UpdateWhere(rows[1..], number, u);
    }
  }

  /** An UPDATE for a number no row carries changes nothing. */
  lemma {:induction false} UpdateWhereAbsent(rows: seq<Referral>, number: string, u: RecordUpdate)
    requires forall i :: 0 <= i < |rows| ==> rows[i].numberDirect != number
    ensures UpdateWhere(rows, number, u) == rows
  {
    if rows != [] {
      UpdateWhereAbsent(rows[1..], number, u);
    }
  }

  /** What `get_not_recorder` selects from one row. */
  function Pending(row: Referral): PendingRow {
    PendingRow(row.numberDirect, row.name, row.specific)
  }

  /**
   * `get_not_recorder`: `(number_direct, name, specific)` of exactly the rows
   * with `is_recorded = 0`, in table order.
   */
  function NotRecorded(rows: seq<Referral>): (r: seq<PendingRow>)
    ensures |r| <= |rows|
  {
    if rows == [] then []
    else (if rows[0].isRecorded == 0 then [Pending(rows[0])] else []) + NotRecorded(rows[1..])
  }

  /**
   * `get_not_recorder` returns only rows with `is_recorded = 0`, and every
   * such row.
   */
  lemma {:induction false} NotRecordedExact(rows: seq<Referral>)
    ensures forall i :: 0 <= i < |NotRecorded(rows)| ==>
              exists j :: 0 <= j < |rows| && rows[j].isRecorded == 0 && NotRecorded(rows)[i] == Pending(rows[j])
    ensures forall j :: 0 <= j < |rows| && rows[j].isRecorded == 0 ==> Pending(rows[j]) in NotRecorded(rows)
  {
    if rows != [] {
      NotRecordedExact(rows[1..]);
      var rest := NotRecorded(rows[1..]);
      var head := if rows[0].isRecorded == 0 then [Pending(rows[0])] else [];
      var r := NotRecorded(rows);
      assert r == head + rest;
      forall i | 0 <= i < |NotRecorded(rows)|
        ensures exists j :: 0 <= j < |rows| && rows[j].isRecorded == 0 && NotRecorded(rows)[i] == Pending(rows[j])
      {
        if i < |head| {
          assert r[i] == Pending(rows[0]) && rows[0].isRecorded == 0;
        } else {
          var k := i - |head|;
          assert r[i] == rest[k];
          var j :| 0 <= j < |rows[1..]| && rows[1..][j].isRecorded == 0 && rest[k] == Pending(rows[1..][j]);
          assert rows[j + 1] == rows[1..][j];
          assert rows[j + 1].isRecorded == 0 && r[i] == Pending(rows[j + 1]);
        }
      }
      forall j | 0 <= j < |rows| && rows[j].isRecorded == 0
        ensures Pending(rows[j]) in NotRecorded(rows)
      {
        if j > 0 {
          assert rows[1..][j - 1] == rows[j];
          assert Pending(rows[j]) in rest;
        }
      }
    } else {
      assert NotRecorded(rows) == [];
    }
  }

  /** The rows with `is_recorded = 0`, in table order. */
  function Unrecorded(rows: seq<Referral>): seq<Referral> {
    Keep(rows, (x: Referral) => x.isRecorded == 0)
  }

  /**
   * `get_not_recorder` keeps table order and multiplicity: its i-th row is the
   * selection from the i-th row with `is_recorded = 0`.
   */
  lemma {:induction false} NotRecordedSelects(rows: seq<Referral>)
    ensures |NotRecorded(rows)| == |Unrecorded(rows)|
    ensures forall i :: 0 <= i < |NotRecorded(rows)| ==> NotRecorded(rows)[i] == Pending(Unrecorded(rows)[i])
  {
    if rows != [] {
      NotRecordedSelects(rows[1..]);
      var head := if rows[0].isRecorded == 0 then [rows[0]] else [];
      assert Unrecorded(rows) == head + Unrecorded(rows[1..]);
      assert NotRecorded(rows) == (if rows[0].isRecorded == 0 then [Pending(rows[0])] else []) + NotRecorded(rows[1..]);
    }
  }

  /** Every row of moniki_data and moniki_records names a row of moniki_specialties. */
  ghost predicate ForeignKeysHold(specialties: seq<SpecialtyRow>, data: seq<Opening>, records: seq<Referral>) {
    var known := SpecialtyMap(specialties);
    (forall o :: o in data ==> o.name in known)
    && (forall r :: r in records ==> r.name in known)
  }

  /** The store, one field per table; each method is one committed statement of the source. */
  class Database {
    var specialties: seq<SpecialtyRow>
    var data: seq<Opening>
    var records: seq<Referral>

    /** The primary key and both foreign keys. */
    ghost predicate Valid()
      reads this
    {
      UniqueNames(specialties) && ForeignKeysHold(specialties, data, records)
    }

    constructor ()
      ensures Valid()
      ensures specialties == [] && data == [] && records == []
    {
      specialties, data, records := [], [], [];
    }

    /** `get_data_all_specialty`. */
    function SpecialtyCounts(): map<string, int>
      reads this
    {
      SpecialtyMap(specialties)
    }

    /** `get_not_recorder`. */
    function NotRecorderRows(): seq<PendingRow>
      reads this
    {
      NotRecorded(records)
    }

    /**
     * `put_specialty`: inserts `(name, value)`. A name already in the table
     * violates the primary key: the statement raises and nothing changes.
     */
    method PutSpecialty(name: string, value: int) returns (ok: bool)
      requires Valid()
      modifies this
      ensures Valid()
      ensures ok <==> name !in old(SpecialtyCounts())
      ensures specialties == if ok then old(specialties) + [SpecialtyRow(name, value)] else old(specialties)
      ensures ok ==> SpecialtyCounts() == old(SpecialtyCounts())[name := value]
      ensures data == old(data) && records == old(records)
    {
      ok := name !in SpecialtyMap(specialties);
      if ok {
        AppendSpecialtyMap(specialties, name, value);
        specialties := specialties + [SpecialtyRow(name, value)];
      }
    }

    /**
     * `change_value_specialty`: sets the count of the row with that name;
     * every other row is unchanged, and an unknown name changes nothing.
     */
    method ChangeValueSpecialty(name: string, value: int)
      requires Valid()
      modifies this
      ensures Valid()
      ensures specialties == SetCount(old(specialties), name, value)
      ensures SpecialtyCounts() == if name in old(SpecialtyCounts()) then old(SpecialtyCounts())[name := value]
                                   else old(SpecialtyCounts())
      ensures data == old(data) && records == old(records)
    {
      SetCountMap(specialties, name, value);
      SetCountUnique(specialties, name, value);
      specialties := SetCount(specialties, name, value);
    }

    /**
     * `_change_status_record`: the status, once stripped of white space, must
     * be "0" or "1"; then every row with that number gets it, otherwise
     * nothing is written.
     */
    method ChangeStatusRecord(numberDirect: string, value: string)
      requires Valid()
      modifies this
      ensures Valid()
      ensures records == if Strip(value) == "0" then UpdateWhere(old(records), numberDirect, SetStatus(0))
                         else if Strip(value) == "1" then UpdateWhere(old(records), numberDirect, SetStatus(1))
                         else old(records)
      ensures specialties == old(specialties) && data == old(data)
    {
      var v := Strip(value);
      if v == "0" || v == "1" {
        var status := if v == "0" then 0 else 1;
        records := UpdateWhere(records, numberDirect, SetStatus(status));
        assert forall r :: r in records ==> exists i :: 0 <= i < |records| && r == records[i];
      }
    }

    /**
     * `put_change_data`: appends `(now, name, value)` to moniki_data; a name
     * missing from moniki_specialties violates the foreign key and changes nothing.
     */
    method PutChangeData(name: string, value: int, now: int) returns (ok: bool)
      requires Valid()
      modifies this
      ensures Valid()
      ensures ok <==> name in old(SpecialtyCounts())
      ensures data == if ok then old(data) + [Opening(now, name, value)] else old(data)
      ensures specialties == old(specialties) && records == old(records)
    {
      ok := name in SpecialtyMap(specialties);
      if ok {
        data := data + [Opening(now, name, value)];
      }
    }

    /**
     * `put_record`: appends one referral with the given columns (`notified`
     * false unless given); a specialty missing from moniki_specialties
     * violates the foreign key and changes nothing.
     */
    method PutRecord(numberDirect: string, name: string, isRecorded: int, now: int,
                     dateDirect: Option<string> := None, timeDirect: Option<string> := None,
                     dateChanges: Option<int> := None, specific: Option<string> := None,
                     comment: Option<string> := None, notified: bool := false)
      returns (ok: bool)
      requires Valid()
      modifies this
      ensures Valid()
      ensures ok <==> name in old(SpecialtyCounts())
      ensures records == if ok then old(records) + [Referral(now, numberDirect, name, isRecorded, dateDirect,
                                                             timeDirect, dateChanges, specific, comment, notified)]
                         else old(records)
      ensures specialties == old(specialties) && data == old(data)
    {
      ok := name in SpecialtyMap(specialties);
      if ok {
        records := records + [Referral(now, numberDirect, name, isRecorded, dateDirect,
                                       timeDirect, dateChanges, specific, comment, notified)];
      }
    }

    /**
     * `change_datetime_record`: every row with that number gets the status,
     * the date and time of the visit and `now` as its change time; no other
     * row and no other column changes.
     */
    method ChangeDatetimeRecord(isRecorded: int, dateDirect: string, timeDirect: string,
                                numberDirect: string, now: int)
      requires Valid()
      modifies this
      ensures Valid()
      ensures records == UpdateWhere(old(records), numberDirect, SetBooking(isRecorded, dateDirect, timeDirect, now))
      ensures specialties == old(specialties) && data == old(data)
    {
      records := UpdateWhere(records, numberDirect, SetBooking(isRecorded, dateDirect, timeDirect, now));
      assert forall r :: r in records ==> exists i :: 0 <= i < |records| && r == records[i];
    }

    /** `_delete_data_over_30_days`: removes exactly the openings logged more than thirty days before `now`. */
    method DeleteDataOver30Days(now: int)
      requires Valid()
      modifies this
      ensures Valid()
      ensures data == Keep(old(data), (o: Opening) => !(o.dateAdding < now - ThirtyDays))
      ensures specialties == old(specialties) && records == old(records)
    {
      data := Keep(data, (o: Opening) => !(o.dateAdding < now - ThirtyDays));
    }

    /** `_delete_row_record`: removes exactly the rows with that number. */
    method DeleteRowRecord(numberDirect: string)
      requires Valid()
      modifies this
      ensures Valid()
      ensures records == Keep(old(records), (r: Referral) => r.numberDirect != numberDirect)
      ensures specialties == old(specialties) && data == old(data)
    {
      records := Keep(records, (r: Referral) => r.numberDirect != numberDirect);
    }

    /** `change_notified_status`: marks every row with that number as notified. */
    method ChangeNotifiedStatus(numberDirect: string)
      requires Valid()
      modifies this
      ensures Valid()
      ensures records == UpdateWhere(old(records), numberDirect, SetNotified)
      ensures specialties == old(specialties) && data == old(data)
    {
      records := UpdateWhere(records, numberDirect, SetNotified);
      assert forall r :: r in records ==> exists i :: 0 <= i < |records| && r == records[i];
    }
  }
}
