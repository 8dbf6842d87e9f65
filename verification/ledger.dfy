/**
 * The polling pass over the portal's specialty list (`Sel.get_talons`):
 * each row shown is a specialty name and a text ending in ": <count>". A new
 * specialty is inserted with its count; a known one whose count changed is
 * overwritten, and when the count grew by more than one an opening is logged
 * with the (negative) difference stored minus observed. The first row whose
 * count cannot be read raises: the rows after it are abandoned and the list
 * is not closed, while the rows before it stay written.
 */
module Ledger {
  import opened Wrappers
  import opened Text
  import opened Store

  /** One row of the portal's list: the specialty and its count text. */
  datatype Observed = Observed(name: string, countText: string)

  const CountSeparator: string := ": "

  /** `count_text.split(': ')[1]`; `None` where the index raises. */
  function CountField(text: string): (r: Option<string>)
    ensures r.Some? <==> Contains(text, CountSeparator)
    ensures r.Some? ==> !Contains(r.value, CountSeparator)
  {
    var parts := Split(text, CountSeparator);
    SplitSingle(text, CountSeparator);
    SplitPiecesFree(text, CountSeparator);
    if |parts| >= 2 then Some(parts[1]) else None
  }

  /** `int(count_text.split(': ')[1])`; `None` where the index or `int` raises. */
  function ParseCount(text: string): (r: Option<int>)
    ensures r.Some? ==> Contains(text, CountSeparator)
  {
    match CountField(text)
    case None => None
    case Some(field) => ParseInt(field)
  }

  /** A text made of `str(n)` and characters other than ':' has no ": " before its end. */
  lemma NoSeparatorInInt(n: int, tail: string)
    ensures forall j :: 0 <= j < |IntToText(n)| ==> !OccursAt(IntToText(n) + tail, CountSeparator, j)
  {
    var t := IntToText(n);
    var u := t + tail;
    forall j | 0 <= j < |t|
      ensures !OccursAt(u, CountSeparator, j)
    {
      assert u[j] == t[j];
      if j + 2 <= |u| {
        assert u[j..j + 2][0] == u[j];
      }
    }
  }

  /**
   * The count is the text between the first ": " and the next one (or the
   * end): a heading without ": ", then ": ", then `str(n)`, then nothing or
   * another ": ..." part, reads back as `n`.
   */
  lemma ParseCountRoundTrip(heading: string, n: int, tail: string)
    requires !Contains(heading, CountSeparator)
    requires tail == "" || (|tail| >= 2 && tail[..2] == CountSeparator)
    ensures ParseCount(heading + CountSeparator + (IntToText(n) + tail)) == Some(n)
  {
    var t := IntToText(n);
    var s := heading + CountSeparator + (t + tail);
    forall j | 0 <= j < |heading|
      ensures !OccursAt(s, CountSeparator, j)
    {
      if j + 2 <= |heading| {
        assert heading[j..j + 2] == s[j..j + 2];
        assert !OccursAt(heading, CountSeparator, j);
      } else {
        assert j + 1 == |heading| && s[j + 1] == ':';
        assert j + 2 <= |s| && s[j..j + 2][1] == s[j + 1];
      }
    }
    SplitAfterHead(heading, CountSeparator, t + tail);
    NoSeparatorInInt(n, tail);
    if tail == "" {
      assert t + tail == t;
      assert !Contains(t, CountSeparator);
      SplitSingle(t, CountSeparator);
    } else {
      var rest := tail[2..];
      assert tail == CountSeparator + rest;
      assert t + tail == t + CountSeparator + rest;
      SplitAfterHead(t, CountSeparator, rest);
    }
    ParseIntRoundTrip(n);
  }

  /**
   * The effect of one readable row on the stored counts and the openings log.
   * Afterwards the stored count of `name` is the observed one and no other
   * count changes; an opening, carrying stored minus observed, is appended
   * exactly when the specialty was known and that difference is below -1.
   */
  function ReconcileRow(counts: map<string, int>, openings: seq<Opening>,
                        name: string, observed: int, now: int): (r: (map<string, int>, seq<Opening>))
    ensures r.0 == counts[name := observed]
    ensures var logged := name in counts && counts[name] - observed < -1;
            r.1 == if logged then openings + [Opening(now, name, counts[name] - observed)] else openings
  {
    if name in counts then
      var change := counts[name] - observed;
      if change != 0 then
        (counts[name := observed], if change < -1 then openings + [Opening(now, name, change)] else openings)
      else (counts, openings)
    else (counts[name := observed], openings)
  }

  /** A row as the pass reads it: the name and the count, if the text yields one. */
  datatype Reading = Reading(name: string, count: Option<int>)

  /** The readings of the rows, in order. */
  function Readings(rows: seq<Observed>): (r: seq<Reading>)
    ensures |r| == |rows|
    ensures forall i :: 0 <= i < |rows| ==> r[i] == Reading(rows[i].name, ParseCount(rows[i].countText))
  {
    if rows == [] then [] else [Reading(rows[0].name, ParseCount(rows[0].countText))] + Readings(rows[1..])
  }

  /** The state after a pass, and how many rows were applied before it stopped. */
  datatype PassResult = PassResult(counts: map<string, int>, openings: seq<Opening>, processed: nat)

  /** The names of a list of readings. */
  function Names(rows: seq<Reading>): (names: set<string>)
    ensures names == set i | 0 <= i < |rows| :: rows[i].name
  {
    if rows == [] then {}
    else
      var rest := Names(rows[1..]);
      assert (set i | 0 <= i < |rows| :: rows[i].name)
             == {rows[0].name} + (set i | 0 <= i < |rows[1..]| :: rows[1..][i].name) by {
        forall i | 0 < i < |rows|
          ensures rows[i].name in (set i | 0 <= i < |rows[1..]| :: rows[1..][i].name)
        {
          assert rows[1..][i - 1].name == rows[i].name;
        }
      }
      {rows[0].name} + rest
  }

  /**
   * A whole pass: readings are applied in order until the first one without
   * a count; `processed` says how many were applied.
   */
  function ReconcilePass(counts: map<string, int>, openings: seq<Opening>,
                         rows: seq<Reading>, now: int): (r: PassResult)
    ensures r.processed <= |rows|
    ensures forall i :: 0 <= i < r.processed ==> rows[i].count.Some?
    ensures r.processed < |rows| ==> rows[r.processed].count.None?
    decreases |rows|
  {
    if rows == [] || rows[0].count.None? then PassResult(counts, openings, 0)
    else
      var step := ReconcileRow(counts, openings, rows[0].name, rows[0].count.value, now);
      var rest := ReconcilePass(step.0, step.1, rows[1..], now);
      assert forall i :: 1 <= i <= rest.processed ==> rows[i] == rows[1..][i - 1];
      PassResult(rest.counts, rest.openings, rest.processed + 1)
  }

  /** One step of a pass: a readable first row is applied, then the rest of the pass runs. */
  lemma PassStep(counts: map<string, int>, openings: seq<Opening>, rows: seq<Reading>, now: int)
    requires rows != [] && rows[0].count.Some?
    ensures var step := ReconcileRow(counts, openings, rows[0].name, rows[0].count.value, now);
            var rest := ReconcilePass(step.0, step.1, rows[1..], now);
            ReconcilePass(counts, openings, rows, now) == PassResult(rest.counts, rest.openings, rest.processed + 1)
  {
  }

  /**
   * The openings log only grows during a pass, and every opening the pass
   * adds records a count that grew by more than one.
   */
  lemma {:induction false} PassOnlyAppendsOpenings(counts: map<string, int>, openings: seq<Opening>,
                                                   rows: seq<Reading>, now: int)
    ensures var r := ReconcilePass(counts, openings, rows, now);
            openings <= r.openings
            && forall k :: |openings| <= k < |r.openings| ==> r.openings[k].countTalons < -1
    decreases |rows|
  {
    if rows != [] && rows[0].count.Some? {
      var step := ReconcileRow(counts, openings, rows[0].name, rows[0].count.value, now);
      PassOnlyAppendsOpenings(step.0, step.1, rows[1..], now);
    }
  }

  /** The names known after a pass are the old ones plus those of the readings applied. */
  lemma {:induction false} PassKnownNames(counts: map<string, int>, openings: seq<Opening>,
                                          rows: seq<Reading>, now: int)
    ensures var r := ReconcilePass(counts, openings, rows, now);
            r.counts.Keys == counts.Keys + Names(rows[..r.processed])
    decreases |rows|
  {
    if rows != [] && rows[0].count.Some? {
      var step := ReconcileRow(counts, openings, rows[0].name, rows[0].count.value, now);
      var rest := ReconcilePass(step.0, step.1, rows[1..], now);
      PassKnownNames(step.0, step.1, rows[1..], now);
      var applied := rows[..rest.processed + 1];
      assert applied[1..] == rows[1..][..rest.processed];
      assert Names(applied) == {rows[0].name} + Names(applied[1..]);
    }
  }

  /**
   * After a pass, a specialty's stored count is the count of the last
   * reading naming it among those applied, whatever the earlier readings or
   * the old stored value said.
   */
  lemma {:induction false} LastObservationWins(counts: map<string, int>, openings: seq<Opening>,
                                               rows: seq<Reading>, now: int, i: nat)
    requires i < ReconcilePass(counts, openings, rows, now).processed
    requires forall j :: i < j < ReconcilePass(counts, openings, rows, now).processed ==> rows[j].name != rows[i].name
    ensures rows[i].count.Some?
    ensures rows[i].name in ReconcilePass(counts, openings, rows, now).counts
    ensures ReconcilePass(counts, openings, rows, now).counts[rows[i].name] == rows[i].count.value
    decreases |rows|
  {
    var step := ReconcileRow(counts, openings, rows[0].name, rows[0].count.value, now);
    var rest := ReconcilePass(step.0, step.1, rows[1..], now);
    if i == 0 {
      StableWhenNotNamed(step.0, step.1, rows[1..], now, rows[0].name);
    } else {
      assert forall j :: i - 1 < j < rest.processed ==> rows[1..][j] == rows[j + 1];
      LastObservationWins(step.0, step.1, rows[1..], now, i - 1);
    }
  }

  /** A pass leaves the count of a name no applied reading mentions as it was. */
  lemma {:induction false} StableWhenNotNamed(counts: map<string, int>, openings: seq<Opening>,
                                              rows: seq<Reading>, now: int, name: string)
    requires name in counts
    requires forall j :: 0 <= j < ReconcilePass(counts, openings, rows, now).processed ==> rows[j].name != name
    ensures name in ReconcilePass(counts, openings, rows, now).counts
    ensures ReconcilePass(counts, openings, rows, now).counts[name] == counts[name]
    decreases |rows|
  {
    if rows != [] && rows[0].count.Some? {
      var step := ReconcileRow(counts, openings, rows[0].name, rows[0].count.value, now);
      var rest := ReconcilePass(step.0, step.1, rows[1..], now);
      assert forall j :: 0 <= j < rest.processed ==> rows[1..][j] == rows[j + 1];
      StableWhenNotNamed(step.0, step.1, rows[1..], now, name);
    }
  }

  /**
   * The store side of one readable row of `get_talons`: reload the counts,
   * then insert a new specialty, or log the opening and overwrite a changed
   * count.
   */
  method StoreCount(db: Database, name: string, observed: int, now: int)
    requires db.Valid()
    modifies db
    ensures db.Valid()
    ensures db.SpecialtyCounts() == ReconcileRow(old(db.SpecialtyCounts()), old(db.data), name, observed, now).0
    ensures db.data == ReconcileRow(old(db.SpecialtyCounts()), old(db.data), name, observed, now).1
    ensures db.records == old(db.records)
  {
    var known := db.SpecialtyCounts();
    if name !in known {
      var _ := db.PutSpecialty(name, observed);
      return;
    }
    var change := known[name] - observed;
    if change == 0 {
      assert known[name := observed] == known;
      return;
    }
    if change < -1 {
      var _ := db.PutChangeData(name, change, now);
    }
    db.ChangeValueSpecialty(name, observed);
  }

  /**
   * `get_talons` against the store: for each row, split the count text,
   * reload the specialty counts, then insert, or log and overwrite. Returns
   * how many rows were applied and whether the list was closed (only when
   * every row could be read).
   */
  method GetTalons(db: Database, rows: seq<Observed>, now: int) returns (processed: nat, closed: bool)
    requires db.Valid()
    modifies db
    ensures db.Valid()
    ensures var r := ReconcilePass(old(db.SpecialtyCounts()), old(db.data), Readings(rows), now);
            db.SpecialtyCounts() == r.counts && db.data == r.openings && processed == r.processed
    ensures closed <==> processed == |rows|
    ensures db.records == old(db.records)
  {
    ghost var readings := Readings(rows);
    ghost var spec := ReconcilePass(db.SpecialtyCounts(), db.data, readings, now);
    var i := 0;
    while i < |rows|
      invariant 0 <= i <= |rows|
      invariant db.Valid()
      invariant db.records == old(db.records)
      invariant var r := ReconcilePass(db.SpecialtyCounts(), db.data, readings[i..], now);
                spec == PassResult(r.counts, r.openings, r.processed + i)
    {
      var row := rows[i];
      var field := CountField(row.countText);
      if field.None? {
        return i, false;
      }
      var count := ParseInt(field.value);
      if count.None? {
        return i, false;
      }
      assert readings[i..][0] == Reading(row.name, count);
      PassStep(db.SpecialtyCounts(), db.data, readings[i..], now);
      assert readings[i..][1..] == readings[i + 1..];
      StoreCount(db, row.name, count.value, now);
      i := i + 1;
    }
    return i, true;
  }
}
