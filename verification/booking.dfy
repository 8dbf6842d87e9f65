/**
 * The booking part of `main`: for every referral not yet booked whose
 * specialty has tickets, the portal's schedule is searched week by week
 * (three weeks at most) with the search built from the referral's
 * specificity. In a week the matching free cells are tried in order; a cell
 * whose date falls in the excluded window or that offers no time is put
 * back, the first other one is booked at its last time and the booking is
 * written to the store. A week without a booking ends with a click on
 * "next week". A booking is followed by a click on "close" in its dialog,
 * and the search ends with a click on "close" in every case.
 */
module Booking {
  import opened Wrappers
  import opened Text
  import opened Dates
  import opened Locator
  import opened Store
  import opened Ledger

  /** A free cell of the schedule grid: its label, the date the portal shows for it, its bookable times. */
  datatype Cell = Cell(caption: string, date: string, times: seq<string>)

  /** One week of the schedule as the portal shows it. */
  datatype WeekView = NoSchedule | Grid(cells: seq<Cell>)

  /** A booked date and time. */
  datatype Slot = Slot(date: string, time: string)

  /** How many weeks a referral's search looks at. */
  const WeeksSearched: nat := 3

  /**
   * Whether a cell label satisfies the search's `contains(text(), ...)`
   * tests: any cell, the one physician's name, one of several names, or the
   * specialty as written or upper-cased.
   */
  predicate Matches(search: SearchPredicate, heading: string) {
    match search
    case AnyFreeCell => true
    case OnePhysician(name) => Contains(heading, name)
    case SeveralPhysicians(names, _) => exists i :: 0 <= i < |names| && Contains(heading, names[i])
    case SpecialtyLabel(original, upper) => Contains(heading, original) || Contains(heading, upper)
  }

  /** The cells of a grid the search selects, in grid order. */
  function Matching(cells: seq<Cell>, search: SearchPredicate): (r: seq<Cell>)
    ensures |r| <= |cells|
  {
    if cells == [] then []
    else (if Matches(search, cells[0].caption) then [cells[0]] else []) + Matching(cells[1..], search)
  }

  /** Every cell the search selects is a cell of the grid that it matches. */
  lemma {:induction false} MatchingSound(cells: seq<Cell>, search: SearchPredicate)
    ensures forall i :: 0 <= i < |Matching(cells, search)| ==>
              Matching(cells, search)[i] in cells && Matches(search, Matching(cells, search)[i].caption)
  {
    if cells != [] {
      MatchingSound(cells[1..], search);
      var head := if Matches(search, cells[0].caption) then [cells[0]] else [];
      var rest := Matching(cells[1..], search);
      assert Matching(cells, search) == head + rest;
      forall i | 0 <= i < |Matching(cells, search)|
        ensures Matching(cells, search)[i] in cells && Matches(search, Matching(cells, search)[i].caption)
      {
        if i >= |head| {
          assert Matching(cells, search)[i] == rest[i - |head|];
        }
      }
    }
  }

  /** Every position moved one cell to the right. */
  ghost function Shifted(p: seq<nat>): (q: seq<nat>)
    ensures |q| == |p| && forall k :: 0 <= k < |p| ==> q[k] == p[k] + 1
  {
    seq(|p|, k requires 0 <= k < |p| => p[k] + 1)
  }

  /** The grid positions of the cells the search selects, in the order `Matching` lists them. */
  ghost function MatchingPositions(cells: seq<Cell>, search: SearchPredicate): seq<nat> {
    if cells == [] then []
    else (if Matches(search, cells[0].caption) then [0] else []) + Shifted(MatchingPositions(cells[1..], search))
  }

  /** Shifting every position by one puts `j` in the list exactly when `j - 1` was there. */
  lemma ShiftedMembers(later: seq<nat>, j: nat)
    ensures j in Shifted(later) <==> j > 0 && j - 1 in later
  {
    var shifted := Shifted(later);
    if j in shifted {
      var k :| 0 <= k < |shifted| && shifted[k] == j;
      assert later[k] == j - 1;
    }
    if j > 0 && j - 1 in later {
      var k :| 0 <= k < |later| && later[k] == j - 1;
      assert shifted[k] == j;
    }
  }

  /** `r` lists the cells of `cells` at positions `p`, in that order. */
  predicate CellsAt(r: seq<Cell>, cells: seq<Cell>, p: seq<nat>) {
    |p| == |r| && forall k :: 0 <= k < |p| ==> p[k] < |cells| && r[k] == cells[p[k]]
  }

  /** Cells found at positions of the grid's tail sit one position further in the whole grid. */
  lemma CellsAtTail(r: seq<Cell>, cells: seq<Cell>, p: seq<nat>)
    requires cells != [] && CellsAt(r, cells[1..], p)
    ensures CellsAt(r, cells, Shifted(p))
  {
    forall k | 0 <= k < |p|
      ensures Shifted(p)[k] < |cells| && r[k] == cells[Shifted(p)[k]]
    {
      assert r[k] == cells[1..][p[k]];
    }
  }

  /** The first cell at position 0 can be put in front. */
  lemma CellsAtFront(r: seq<Cell>, cells: seq<Cell>, p: seq<nat>)
    requires cells != [] && CellsAt(r, cells, p)
    ensures CellsAt([cells[0]] + r, cells, [0] + p)
  {
    forall k | 0 <= k < |p| + 1
      ensures ([0] + p)[k] < |cells| && ([cells[0]] + r)[k] == cells[([0] + p)[k]]
    {
      if k > 0 {
        assert ([0] + p)[k] == p[k - 1] && ([cells[0]] + r)[k] == r[k - 1];
      }
    }
  }

  /** The k-th selected cell is the cell at the k-th selected position. */
  lemma {:induction false} MatchingPositionsCells(cells: seq<Cell>, search: SearchPredicate)
    ensures CellsAt(Matching(cells, search), cells, MatchingPositions(cells, search))
  {
    if cells != [] {
      var later := MatchingPositions(cells[1..], search);
      var rest := Matching(cells[1..], search);
      MatchingPositionsCells(cells[1..], search);
      CellsAtTail(rest, cells, later);
      if Matches(search, cells[0].caption) {
        CellsAtFront(rest, cells, Shifted(later));
        assert Matching(cells, search) == [cells[0]] + rest;
        assert MatchingPositions(cells, search) == [0] + Shifted(later);
      } else {
        assert Matching(cells, search) == rest;
        assert MatchingPositions(cells, search) == Shifted(later);
      }
    }
  }

  /** Positions that rise strictly. */
  predicate Rising(p: seq<nat>) {
    forall k, l :: 0 <= k < l < |p| ==> p[k] < p[l]
  }

  /** Shifting keeps positions rising. */
  lemma RisingShifted(p: seq<nat>)
    requires Rising(p)
    ensures Rising(Shifted(p))
  {
    var q := Shifted(p);
    forall k, l | 0 <= k < l < |q|
      ensures q[k] < q[l]
    {
      assert q[k] == p[k] + 1 && q[l] == p[l] + 1;
    }
  }

  /** Position 0 can go in front of shifted positions. */
  lemma RisingFront(p: seq<nat>)
    requires Rising(p)
    ensures Rising([0] + Shifted(p))
  {
    var q := [0] + Shifted(p);
    RisingShifted(p);
    forall k, l | 0 <= k < l < |q|
      ensures q[k] < q[l]
    {
      assert q[l] == Shifted(p)[l - 1];
      if k > 0 {
        assert q[k] == Shifted(p)[k - 1];
      }
    }
  }

  /** The selected positions rise strictly. */
  lemma {:induction false} MatchingPositionsRise(cells: seq<Cell>, search: SearchPredicate)
    ensures Rising(MatchingPositions(cells, search))
  {
    if cells != [] {
      var later := MatchingPositions(cells[1..], search);
      MatchingPositionsRise(cells[1..], search);
      if Matches(search, cells[0].caption) {
        RisingFront(later);
        assert MatchingPositions(cells, search) == [0] + Shifted(later);
      } else {
        RisingShifted(later);
        assert MatchingPositions(cells, search) == Shifted(later);
      }
    }
  }

  /** The selected positions are exactly those of the matching cells. */
  lemma {:induction false} MatchingPositionsExact(cells: seq<Cell>, search: SearchPredicate)
    ensures var p := MatchingPositions(cells, search);
            forall j :: 0 <= j < |cells| ==> (j in p <==> Matches(search, cells[j].caption))
  {
    if cells != [] {
      MatchingPositionsExact(cells[1..], search);
      var later := MatchingPositions(cells[1..], search);
      var head: seq<nat> := if Matches(search, cells[0].caption) then [0] else [];
      var p := head + Shifted(later);
      assert MatchingPositions(cells, search) == p;
      forall j | 0 <= j < |cells|
        ensures j in p <==> Matches(search, cells[j].caption)
      {
        ShiftedMembers(later, j);
        if j > 0 {
          assert cells[j] == cells[1..][j - 1];
        }
      }
    }
  }

  /**
   * The search keeps grid order: the k-th selected cell sits at the k-th
   * position of a strictly rising list, and that list holds exactly the
   * positions of the matching cells.
   */
  lemma MatchingInGridOrder(cells: seq<Cell>, search: SearchPredicate)
    ensures var r := Matching(cells, search);
            var p := MatchingPositions(cells, search);
            CellsAt(r, cells, p)
            && Rising(p)
            && (forall j :: 0 <= j < |cells| ==> (j in p <==> Matches(search, cells[j].caption)))
  {
    MatchingPositionsCells(cells, search);
    MatchingPositionsRise(cells, search);
    MatchingPositionsExact(cells, search);
  }

  /** The search selects every cell it matches, and so every cell when it asks for any free cell. */
  lemma {:induction false} MatchingComplete(cells: seq<Cell>, search: SearchPredicate)
    ensures forall i :: 0 <= i < |cells| && Matches(search, cells[i].caption) ==> cells[i] in Matching(cells, search)
    ensures search.AnyFreeCell? ==> Matching(cells, search) == cells
  {
    if cells != [] {
      MatchingComplete(cells[1..], search);
      assert forall i :: 1 <= i < |cells| ==> cells[i] == cells[1..][i - 1];
    }
  }

  /** The cells `finding_free_cells` returns for a week, in grid order. */
  function Candidates(week: WeekView, search: SearchPredicate): (r: seq<Cell>)
    ensures week.NoSchedule? ==> r == []
  {
    match week
    case NoSchedule => []
    case Grid(cells) => Matching(cells, search)
  }

  /** The week the portal shows after `w` clicks on "next week"; beyond the script, no schedule. */
  function WeekAt(weeks: seq<WeekView>, w: nat): WeekView {
    if w < |weeks| then weeks[w] else NoSchedule
  }

  /** A cell is booked when its date is not excluded and it offers at least one time. */
  predicate Acceptable(cell: Cell, forbidden: seq<string>) {
    !IsForbidden(cell.date, forbidden) && |cell.times| > 0
  }

  /** The index of the first acceptable cell, if any. */
  function FirstAcceptable(cells: seq<Cell>, forbidden: seq<string>): (r: Option<nat>)
    ensures r.Some? ==> r.value < |cells| && |cells[r.value].times| > 0
    decreases |cells|
  {
    if cells == [] then None
    else if Acceptable(cells[0], forbidden) then Some(0)
    else
      match FirstAcceptable(cells[1..], forbidden)
      case None => None
      case Some(i) => Some(i + 1)
  }

  /** The index found is acceptable and none before it is; with none found, no cell is acceptable. */
  lemma {:induction false} FirstAcceptableSpec(cells: seq<Cell>, forbidden: seq<string>)
    ensures var r := FirstAcceptable(cells, forbidden);
            (r.Some? ==> Acceptable(cells[r.value], forbidden)
                         && forall j :: 0 <= j < r.value ==> !Acceptable(cells[j], forbidden))
            && (r.None? ==> forall j :: 0 <= j < |cells| ==> !Acceptable(cells[j], forbidden))
    decreases |cells|
  {
    if cells != [] && !Acceptable(cells[0], forbidden) {
      FirstAcceptableSpec(cells[1..], forbidden);
      forall j | 1 <= j < |cells| ensures cells[j] == cells[1..][j - 1] {
      }
    }
  }

  /** An acceptable cell with none acceptable before it is the one `FirstAcceptable` finds. */
  lemma {:induction false} FirstAcceptableIs(cells: seq<Cell>, forbidden: seq<string>, k: nat)
    requires k < |cells| && Acceptable(cells[k], forbidden)
    requires forall j :: 0 <= j < k ==> !Acceptable(cells[j], forbidden)
    ensures FirstAcceptable(cells, forbidden) == Some(k)
  {
    FirstAcceptableSpec(cells, forbidden);
    var r := FirstAcceptable(cells, forbidden);
    assert r.Some?;
    if r.value < k {
    } else if r.value > k {
    }
  }

  /** The last time a cell offers (`select_last_time`). */
  function LastTime(cell: Cell): (t: string)
    requires |cell.times| > 0
    ensures t in cell.times
  {
    cell.times[|cell.times| - 1]
  }

  /** The outcome of one referral's search: the booking made, if any, and the "next week" clicks. */
  datatype WalkResult = WalkResult(booking: Option<Slot>, nextWeekClicks: nat)

  /** The booking a week yields: the last time of its first acceptable cell, if it has one. */
  function WeekPick(week: WeekView, search: SearchPredicate, forbidden: seq<string>): (r: Option<Slot>)
    ensures week.NoSchedule? ==> r.None?
  {
    var cells := Candidates(week, search);
    match FirstAcceptable(cells, forbidden)
    case Some(i) => Some(Slot(cells[i].date, LastTime(cells[i])))
    case None => None
  }

  /** The booking each of the first `n` weeks would yield, week by week. */
  function Picks(weeks: seq<WeekView>, search: SearchPredicate, forbidden: seq<string>, n: nat): (p: seq<Option<Slot>>)
    ensures |p| == n
    ensures forall w :: 0 <= w < n ==> p[w] == WeekPick(WeekAt(weeks, w), search, forbidden)
  {
    if n == 0 then []
    else
      var earlier := Picks(weeks, search, forbidden, n - 1);
      var p := earlier + [WeekPick(WeekAt(weeks, n - 1), search, forbidden)];
      assert forall w :: 0 <= w < n - 1 ==> p[w] == earlier[w];
      p
  }

  /** From week `w` on: the first week's pick that is a booking, and the "next week" clicks before it. */
  function FirstPick(picks: seq<Option<Slot>>, w: nat): WalkResult
    decreases |picks| - w
  {
    if w >= |picks| then WalkResult(None, 0)
    else if picks[w].Some? then WalkResult(picks[w], 0)
    else
      var rest := FirstPick(picks, w + 1);
      WalkResult(rest.booking, rest.nextWeekClicks + 1)
  }

  /** One referral's search over the weeks the portal shows. */
  function Walk(weeks: seq<WeekView>, search: SearchPredicate, forbidden: seq<string>): (r: WalkResult)
    ensures r.nextWeekClicks <= WeeksSearched
    ensures r.booking.None? ==> r.nextWeekClicks == WeeksSearched
  {
    var picks := Picks(weeks, search, forbidden, WeeksSearched);
    FirstPickOutcome(picks, 0);
    FirstPick(picks, 0)
  }

  /** Week `w` yields no booking. */
  predicate NothingInWeek(weeks: seq<WeekView>, search: SearchPredicate, forbidden: seq<string>, w: nat) {
    WeekPick(WeekAt(weeks, w), search, forbidden).None?
  }

  /**
   * A week yields no booking exactly when none of its matching cells is
   * acceptable; a week without a schedule never yields one.
   */
  lemma NothingInWeekMeans(weeks: seq<WeekView>, search: SearchPredicate, forbidden: seq<string>, w: nat)
    ensures var cells := Candidates(WeekAt(weeks, w), search);
            NothingInWeek(weeks, search, forbidden, w) <==> forall j :: 0 <= j < |cells| ==> !Acceptable(cells[j], forbidden)
    ensures WeekAt(weeks, w).NoSchedule? ==> NothingInWeek(weeks, search, forbidden, w)
  {
    FirstAcceptableSpec(Candidates(WeekAt(weeks, w), search), forbidden);
  }

  /**
   * The loop over one week's cells in `main`: the date check is
   * `check_data_record`, a cell without times is put back, and the loop
   * stops at the first other cell.
   */
  method FindBookable(cells: seq<Cell>, forbidden: seq<string>) returns (found: Option<nat>)
    ensures found == FirstAcceptable(cells, forbidden)
  {
    for k := 0 to |cells|
      invariant forall j :: 0 <= j < k ==> !Acceptable(cells[j], forbidden)
    {
      var excluded := CheckDataRecord(cells[k].date, forbidden);
      if excluded {
        continue;
      }
      if |cells[k].times| == 0 {
        continue;
      }
      FirstAcceptableIs(cells, forbidden, k);
      return Some(k);
    }
    FirstAcceptableSpec(cells, forbidden);
    return None;
  }

  /** One week of `main`'s search: the found cell is booked at its last time (`select_last_time`). */
  method ScanWeek(week: WeekView, search: SearchPredicate, forbidden: seq<string>) returns (pick: Option<Slot>)
    ensures pick == WeekPick(week, search, forbidden)
  {
    if week.NoSchedule? {
      return None;
    }
    var cells := Candidates(week, search);
    var found := FindBookable(cells, forbidden);
    if found.Some? {
      var cell := cells[found.value];
      pick := Some(Slot(cell.date, LastTime(cell)));
    } else {
      pick := None;
    }
  }

  /**
   * The loop over weeks in `main`: a week that yields no booking ends with a
   * "next week" click, and the first booking ends the search.
   */
  method SearchWeeks(weeks: seq<WeekView>, search: SearchPredicate, forbidden: seq<string>)
    returns (booking: Option<Slot>, nextWeekClicks: nat)
    ensures WalkResult(booking, nextWeekClicks) == Walk(weeks, search, forbidden)
  {
    ghost var picks := Picks(weeks, search, forbidden, WeeksSearched);
    nextWeekClicks := 0;
    for w := 0 to WeeksSearched
      invariant nextWeekClicks == w
      invariant var rest := FirstPick(picks, w);
                FirstPick(picks, 0) == WalkResult(rest.booking, rest.nextWeekClicks + w)
    {
      var pick := ScanWeek(WeekAt(weeks, w), search, forbidden);
      if pick.Some? {
        return pick, nextWeekClicks;
      }
      nextWeekClicks := nextWeekClicks + 1;
    }
    booking := None;
  }

  /**
   * Bounds of the search from week `w`: at most one "next week" click per
   * remaining week, exactly one per remaining week when nothing is booked,
   * and nothing is booked exactly when no remaining week yields a booking.
   */
  lemma {:induction false} FirstPickOutcome(picks: seq<Option<Slot>>, w: nat)
    requires w <= |picks|
    ensures var r := FirstPick(picks, w);
            r.nextWeekClicks <= |picks| - w
            && (r.booking.None? ==> r.nextWeekClicks == |picks| - w)
            && (r.booking.None? <==> forall v :: w <= v < |picks| ==> picks[v].None?)
    decreases |picks| - w
  {
    if w < |picks| && picks[w].None? {
      FirstPickOutcome(picks, w + 1);
    }
  }

  /** A booking found from week `w` is the pick of the week reached after its clicks; the weeks before yield none. */
  lemma {:induction false} FirstPickBooking(picks: seq<Option<Slot>>, w: nat)
    requires FirstPick(picks, w).booking.Some?
    ensures var r := FirstPick(picks, w);
            var v := w + r.nextWeekClicks;
            v < |picks| && r.booking == picks[v]
            && forall u :: w <= u < v ==> picks[u].None?
    decreases |picks| - w
  {
    if w < |picks| && picks[w].None? {
      FirstPickBooking(picks, w + 1);
    }
  }

  /**
   * A referral's search clicks "next week" at most three times, exactly
   * three times when it books nothing, and books nothing exactly when none
   * of the three weeks holds an acceptable matching cell.
   */
  lemma WalkOutcome(weeks: seq<WeekView>, search: SearchPredicate, forbidden: seq<string>)
    ensures var r := Walk(weeks, search, forbidden);
            r.nextWeekClicks <= WeeksSearched
            && (r.booking.None? ==> r.nextWeekClicks == WeeksSearched)
            && (r.booking.None? <==> forall v :: 0 <= v < WeeksSearched ==> NothingInWeek(weeks, search, forbidden, v))
  {
    var picks := Picks(weeks, search, forbidden, WeeksSearched);
    FirstPickOutcome(picks, 0);
    assert forall v :: 0 <= v < WeeksSearched ==> (picks[v].None? <==> NothingInWeek(weeks, search, forbidden, v));
  }

  /**
   * A booking is the last time of the first acceptable matching cell of the
   * week reached after the "next week" clicks, and every week before it
   * yielded nothing.
   */
  lemma WalkBooking(weeks: seq<WeekView>, search: SearchPredicate, forbidden: seq<string>)
    requires Walk(weeks, search, forbidden).booking.Some?
    ensures var r := Walk(weeks, search, forbidden);
            var cells := Candidates(WeekAt(weeks, r.nextWeekClicks), search);
            r.nextWeekClicks < WeeksSearched
            && FirstAcceptable(cells, forbidden).Some?
            && r.booking.value == Slot(cells[FirstAcceptable(cells, forbidden).value].date,
                                       LastTime(cells[FirstAcceptable(cells, forbidden).value]))
            && forall u :: 0 <= u < r.nextWeekClicks ==> NothingInWeek(weeks, search, forbidden, u)
  {
    FirstPickBooking(Picks(weeks, search, forbidden, WeeksSearched), 0);
  }

  /**
   * Whatever the portal shows, a booked cell matches the search, lies in
   * the schedule grid of its week, offers the booked time as its last one,
   * and its date contains none of the excluded entries.
   */
  lemma BookedCellIsSound(weeks: seq<WeekView>, search: SearchPredicate, forbidden: seq<string>)
    requires Walk(weeks, search, forbidden).booking.Some?
    ensures var r := Walk(weeks, search, forbidden);
            var week := WeekAt(weeks, r.nextWeekClicks);
            week.Grid?
            && exists c :: c in week.cells && Matches(search, c.caption) && |c.times| > 0
                           && r.booking.value == Slot(c.date, c.times[|c.times| - 1])
                           && forall k :: 0 <= k < |forbidden| ==> !Contains(c.date, forbidden[k])
  {
    WalkBooking(weeks, search, forbidden);
    var r := Walk(weeks, search, forbidden);
    var week := WeekAt(weeks, r.nextWeekClicks);
    var cells := Candidates(week, search);
    var i := FirstAcceptable(cells, forbidden).value;
    FirstAcceptableSpec(cells, forbidden);
    if week.Grid? {
      MatchingSound(week.cells, search);
    }
    var c := cells[i];
    assert c in week.cells && Matches(search, c.caption);
    assert r.booking.value == Slot(c.date, c.times[|c.times| - 1]);
  }

  /**
   * With the exclusion list of `create_forbitten_dates`, a booked date never
   * names today, tomorrow or the day after, in digits or in words.
   */
  lemma BookingOutsideWindow(weeks: seq<WeekView>, search: SearchPredicate, today: Date)
    requires ValidDate(today)
    requires Walk(weeks, search, ForbiddenDates(today)).booking.Some?
    ensures var date := Walk(weeks, search, ForbiddenDates(today)).booking.value.date;
            (forall k :: 0 <= k < 3 ==> !Contains(date, FormatDate(AddDays(today, k))))
            && forall k :: 0 <= k < |ForbiddenWords| ==> !Contains(date, ForbiddenWords[k])
  {
    var forbidden := ForbiddenDates(today);
    var date := Walk(weeks, search, forbidden).booking.value.date;
    BookedCellIsSound(weeks, search, forbidden);
    ForbiddenDatesEntries(today);
    forall k | 0 <= k < 3
      ensures !Contains(date, FormatDate(AddDays(today, k))) && !Contains(date, ForbiddenWords[k])
    {
      assert !Contains(date, forbidden[k]) && !Contains(date, forbidden[k + 3]);
    }
  }

  /**
   * What happened to one pending referral. The close clicks are the one
   * after a booking is written (`click_close_after_write`) and the one that
   * ends the search (`click_close_after_search_all_weeks`).
   */
  datatype Attempt =
    | Skipped
    | Attempted(search: SearchPredicate, booking: Option<Slot>, nextWeekClicks: nat, closeClicks: nat)

  /** The attempt `main` makes for a pending referral, given the specialty counts and the weeks shown. */
  function AttemptFor(row: PendingRow, info: map<string, int>, weeks: seq<WeekView>, forbidden: seq<string>): (a: Attempt)
    requires row.name in info
    ensures a.Skipped? <==> info[row.name] <= 0
    ensures a.Attempted? ==> a.closeClicks == (if a.booking.Some? then 2 else 1) && a.nextWeekClicks <= WeeksSearched
  {
    if info[row.name] <= 0 then Skipped
    else
      var search := GetLocatorForSearch(CorrectSpecific(row.specific));
      var r := Walk(weeks, search, forbidden);
      Attempted(search, r.booking, r.nextWeekClicks, if r.booking.Some? then 2 else 1)
  }

  /** The records after one attempt: a booking marks every row of its number recorded, at its date and time. */
  function ApplyAttempt(records: seq<Referral>, row: PendingRow, a: Attempt, now: int): seq<Referral> {
    match a
    case Attempted(_, Some(slot), _, _) => UpdateWhere(records, row.numberDirect, SetBooking(1, slot.date, slot.time, now))
    case _ => records
  }

  /** The records after the bookings of `attempts`, applied in order, each to every row of its number. */
  function ApplyBookings(records: seq<Referral>, pending: seq<PendingRow>, attempts: seq<Attempt>, now: int): seq<Referral>
    requires |attempts| == |pending|
    decreases |pending|
  {
    if pending == [] then records
    else
      var n := |pending| - 1;
      ApplyAttempt(ApplyBookings(records, pending[..n], attempts[..n], now), pending[n], attempts[n], now)
  }

  /** Handling one more referral applies its booking after those of the earlier ones. */
  lemma ApplyBookingsSnoc(records: seq<Referral>, pending: seq<PendingRow>, attempts: seq<Attempt>,
                          i: nat, a: Attempt, now: int)
    requires i < |pending| && |attempts| == i
    ensures ApplyBookings(records, pending[..i + 1], attempts + [a], now)
            == ApplyAttempt(ApplyBookings(records, pending[..i], attempts, now), pending[i], a, now)
  {
    assert pending[..i + 1][..i] == pending[..i];
    assert (attempts + [a])[..i] == attempts;
  }

  /** The attempt at index `i` booked a slot. */
  predicate Booked(attempts: seq<Attempt>, i: int) {
    0 <= i < |attempts| && attempts[i].Attempted? && attempts[i].booking.Some?
  }

  /**
   * After the bookings, every row of a booked referral's number is marked
   * recorded, and a row whose number no booking names is untouched.
   */
  lemma {:induction false} BookingsMarkRecorded(records: seq<Referral>, pending: seq<PendingRow>,
                                                attempts: seq<Attempt>, now: int)
    requires |attempts| == |pending|
    ensures var after := ApplyBookings(records, pending, attempts, now);
            |after| == |records|
            && (forall j :: 0 <= j < |after| ==> SameFixedColumns(after[j], records[j]))
            && (forall i, j :: Booked(attempts, i) && 0 <= j < |after| && after[j].numberDirect == pending[i].numberDirect
                  ==> after[j].isRecorded == 1)
            && (forall j :: 0 <= j < |after|
                  && (forall i :: Booked(attempts, i) ==> pending[i].numberDirect != records[j].numberDirect)
                  ==> after[j] == records[j])
    decreases |pending|
  {
    if pending != [] {
      var n := |pending| - 1;
      BookingsMarkRecorded(records, pending[..n], attempts[..n], now);
      forall i | Booked(attempts[..n], i) ensures Booked(attempts, i) && pending[..n][i] == pending[i] {
      }
      forall i | 0 <= i < n && Booked(attempts, i) ensures Booked(attempts[..n], i) {
      }
    }
  }

  /** A referral the pass booked is no longer returned by `get_not_recorder`. */
  lemma BookedLeavesNotRecorded(records: seq<Referral>, pending: seq<PendingRow>,
                                attempts: seq<Attempt>, now: int, i: nat)
    requires |attempts| == |pending|
    requires Booked(attempts, i)
    ensures forall p :: p in NotRecorded(ApplyBookings(records, pending, attempts, now))
              ==> p.numberDirect != pending[i].numberDirect
  {
    BookingsMarkRecorded(records, pending, attempts, now);
    NotRecordedExact(ApplyBookings(records, pending, attempts, now));
  }

  /**
   * One referral of `main`'s loop: skipped when its specialty has no
   * tickets; otherwise the search is built, the weeks are walked, a booking
   * is followed by a click on "close" and written with
   * `change_datetime_record`, and "close" is clicked at the end.
   */
  method BookReferral(db: Database, row: PendingRow, info: map<string, int>, weeks: seq<WeekView>,
                      today: Date, now: int) returns (a: Attempt)
    requires db.Valid() && row.name in info && ValidDate(today)
    modifies db
    ensures db.Valid()
    ensures a == AttemptFor(row, info, weeks, ForbiddenDates(today))
    ensures db.records == ApplyAttempt(old(db.records), row, a, now)
    ensures db.specialties == old(db.specialties) && db.data == old(db.data)
  {
    if !(info[row.name] > 0) {
      return Skipped;
    }
    var specific := CorrectSpecific(row.specific);
    var search := GetLocatorForSearch(specific);
    var forbidden := ForbiddenDates(today);
    var booking, clicks := SearchWeeks(weeks, search, forbidden);
    if booking.Some? {
      // "close" after writing, then "close" at the end of the search
      db.ChangeDatetimeRecord(1, booking.value.date, booking.value.time, row.numberDirect, now);
      a := Attempted(search, booking, clicks, 2);
    } else {
      a := Attempted(search, booking, clicks, 1);
    }
  }

  /** What the portal shows for the referral at index `i`; nothing when the script is shorter. */
  function WeeksFor(scripts: seq<seq<WeekView>>, i: nat): seq<WeekView> {
    if i < |scripts| then scripts[i] else []
  }

  /** The attempts for a list of pending referrals, the one at index `i` seeing `WeeksFor(scripts, i)`. */
  function AttemptsFor(pending: seq<PendingRow>, info: map<string, int>, scripts: seq<seq<WeekView>>,
                       forbidden: seq<string>): (r: seq<Attempt>)
    requires forall i :: 0 <= i < |pending| ==> pending[i].name in info
    ensures |r| == |pending|
    decreases |pending|
  {
    if pending == [] then []
    else
      var n := |pending| - 1;
      AttemptsFor(pending[..n], info, scripts, forbidden) + [AttemptFor(pending[n], info, WeeksFor(scripts, n), forbidden)]
  }

  /** Each referral is handled on its own: its attempt depends only on its row, the counts and its weeks. */
  lemma {:induction false} AttemptsForEach(pending: seq<PendingRow>, info: map<string, int>,
                                           scripts: seq<seq<WeekView>>, forbidden: seq<string>)
    requires forall i :: 0 <= i < |pending| ==> pending[i].name in info
    ensures forall i :: 0 <= i < |pending| ==>
              AttemptsFor(pending, info, scripts, forbidden)[i] == AttemptFor(pending[i], info, WeeksFor(scripts, i), forbidden)
    decreases |pending|
  {
    if pending != [] {
      var n := |pending| - 1;
      AttemptsForEach(pending[..n], info, scripts, forbidden);
      var all := AttemptsFor(pending, info, scripts, forbidden);
      var prefix := AttemptsFor(pending[..n], info, scripts, forbidden);
      assert all == prefix + [AttemptFor(pending[n], info, WeeksFor(scripts, n), forbidden)];
      forall i | 0 <= i < |pending|
        ensures all[i] == AttemptFor(pending[i], info, WeeksFor(scripts, i), forbidden)
      {
        if i < n {
          assert all[i] == prefix[i] && pending[..n][i] == pending[i];
        }
      }
    }
  }

  /** The attempts for one more referral are those before it followed by its own. */
  lemma AttemptsForSnoc(pending: seq<PendingRow>, info: map<string, int>, scripts: seq<seq<WeekView>>,
                        forbidden: seq<string>, i: nat)
    requires forall k :: 0 <= k < |pending| ==> pending[k].name in info
    requires i < |pending|
    ensures AttemptsFor(pending[..i + 1], info, scripts, forbidden)
            == AttemptsFor(pending[..i], info, scripts, forbidden) + [AttemptFor(pending[i], info, WeeksFor(scripts, i), forbidden)]
  {
    assert pending[..i + 1][..i] == pending[..i];
  }

  /** `main`'s loop over the pending referrals, in the order `get_not_recorder` returned them. */
  method BookAll(db: Database, pending: seq<PendingRow>, info: map<string, int>,
                 scripts: seq<seq<WeekView>>, today: Date, now: int) returns (attempts: seq<Attempt>)
    requires db.Valid() && ValidDate(today)
    requires forall i :: 0 <= i < |pending| ==> pending[i].name in info
    modifies db
    ensures db.Valid()
    ensures attempts == AttemptsFor(pending, info, scripts, ForbiddenDates(today))
    ensures db.records == ApplyBookings(old(db.records), pending, attempts, now)
    ensures db.specialties == old(db.specialties) && db.data == old(db.data)
  {
    ghost var forbidden := ForbiddenDates(today);
    attempts := [];
    for i := 0 to |pending|
      invariant db.Valid()
      invariant attempts == AttemptsFor(pending[..i], info, scripts, forbidden)
      invariant db.records == ApplyBookings(old(db.records), pending[..i], attempts, now)
      invariant db.specialties == old(db.specialties) && db.data == old(db.data)
    {
      var a := BookReferral(db, pending[i], info, WeeksFor(scripts, i), today, now);
      AttemptsForSnoc(pending, info, scripts, forbidden, i);
      ApplyBookingsSnoc(old(db.records), pending, attempts, i, a, now);
      attempts := attempts + [a];
    }
    assert pending[..|pending|] == pending;
  }

  /** Every referral `get_not_recorder` returns names a known specialty, so `main`'s dictionary lookup succeeds. */
  lemma PendingNamesKnown(db: Database)
    requires db.Valid()
    ensures forall p :: p in db.NotRecorderRows() ==> p.name in db.SpecialtyCounts()
  {
    var rows := db.records;
    var pending := NotRecorded(rows);
    NotRecordedExact(rows);
    forall p | p in pending
      ensures p.name in db.SpecialtyCounts()
    {
      var i :| 0 <= i < |pending| && pending[i] == p;
      assert exists j :: 0 <= j < |rows| && rows[j].isRecorded == 0 && pending[i] == Pending(rows[j]);
      var j :| 0 <= j < |rows| && rows[j].isRecorded == 0 && p == Pending(rows[j]);
      assert rows[j] in db.records;
    }
  }

  /**
   * One run of `main` after logging in: the ticket pass over the portal's
   * list, then the specialty counts and the pending referrals are read and
   * each pending referral is handled in turn.
   */
  method RunPass(db: Database, rows: seq<Observed>, scripts: seq<seq<WeekView>>, today: Date, now: int)
    returns (attempts: seq<Attempt>)
    requires db.Valid() && ValidDate(today)
    modifies db
    ensures db.Valid()
    ensures var r := ReconcilePass(old(db.SpecialtyCounts()), old(db.data), Readings(rows), now);
            db.SpecialtyCounts() == r.counts && db.data == r.openings
    ensures var info := ReconcilePass(old(db.SpecialtyCounts()), old(db.data), Readings(rows), now).counts;
            var pending := NotRecorded(old(db.records));
            (forall i :: 0 <= i < |pending| ==> pending[i].name in info)
            && attempts == AttemptsFor(pending, info, scripts, ForbiddenDates(today))
            && db.records == ApplyBookings(old(db.records), pending, attempts, now)
  {
    var _, _ := GetTalons(db, rows, now);
    var info := db.SpecialtyCounts();
    var pending := db.NotRecorderRows();
    PendingNamesKnown(db);
    attempts := BookAll(db, pending, info, scripts, today, now);
  }
}
