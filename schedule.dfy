/** The attendance-window rule of absensi.py (`is_absen_time`).
    The wall clock is not modelled: the hour and minute of Jakarta time
    are parameters. */
module Schedule {
  import opened Wrappers

  /** The labels `is_absen_time` can return: "jadwal_1", "jadwal_2",
      "jadwal_3" and "test_mode". Python's `None` is `Option.None`. */
  datatype Jadwal = Jadwal1 | Jadwal2 | Jadwal3 | TestMode

  /** The fields of a Python `datetime`: hour in 0..23, minute in 0..59. */
  type Hour = h: int | 0 <= h < 24
  type Minute = m: int | 0 <= m < 60

  /** The check-in windows as closed intervals of minutes since midnight,
      an independent statement of the rule: window 1 is 09:30 to 10:00,
      window 2 is 12:30 to 13:00, window 3 is 13:30 to 14:00, both ends
      included. */
  datatype Window = Window(slot: Jadwal, first: nat, last: nat)

  const Windows: seq<Window> :=
    [Window(Jadwal1, 570, 600), Window(Jadwal2, 750, 780), Window(Jadwal3, 810, 840)]

  function MinuteOfDay(hour: Hour, minute: Minute): (t: nat)
    ensures t < 24 * 60
  {
    60 * hour + minute
  }

  predicate InWindow(w: Window, t: nat)
  {
    w.first <= t <= w.last
  }

  /** `is_absen_time(test_mode)` at the given time: test mode wins over the
      clock; otherwise the hour-and-minute conditions are tried in order. */
  function IsAbsenTime(testMode: bool, hour: Hour, minute: Minute): (r: Option<Jadwal>)
    ensures testMode ==> r == Some(TestMode)
    ensures !testMode ==> r != Some(TestMode)
    ensures !testMode ==>
      (r == Some(Jadwal1) <==> InWindow(Windows[0], MinuteOfDay(hour, minute)))
    ensures !testMode ==>
      (r == Some(Jadwal2) <==> InWindow(Windows[1], MinuteOfDay(hour, minute)))
    ensures !testMode ==>
      (r == Some(Jadwal3) <==> InWindow(Windows[2], MinuteOfDay(hour, minute)))
    ensures !testMode ==>
      (r == None <==> forall k :: 0 <= k < |Windows| ==> !InWindow(Windows[k], MinuteOfDay(hour, minute)))
  {
    if testMode then Some(TestMode)
    else if (hour == 9 && minute >= 30) || (hour == 10 && minute == 0) then Some(Jadwal1)
    else if (hour == 12 && minute >= 30) || (hour == 13 && minute == 0) then Some(Jadwal2)
    else if (hour == 13 && minute >= 30) || (hour == 14 && minute == 0) then Some(Jadwal3)
    else None
  }

  /** No minute of the day lies in two windows. */
  lemma WindowsDisjoint(t: nat, i: nat, j: nat)
    requires i < |Windows| && j < |Windows| && i != j
    ensures !(InWindow(Windows[i], t) && InWindow(Windows[j], t))
  {
  }

  /** Because the windows are disjoint, the order of the if/elif chain does
      not matter: whichever window contains the time is the answer. */
  lemma AnyContainingWindowIsTheAnswer(hour: Hour, minute: Minute, k: nat)
    requires k < |Windows| && InWindow(Windows[k], MinuteOfDay(hour, minute))
    ensures IsAbsenTime(false, hour, minute) == Some(Windows[k].slot)
  {
  }

  /** The window ends of absensi.py:31-36. */
  lemma BoundaryTimes()
    ensures IsAbsenTime(false, 9, 30) == Some(Jadwal1)
    ensures IsAbsenTime(false, 10, 0) == Some(Jadwal1)
    ensures IsAbsenTime(false, 10, 1) == None
    ensures IsAbsenTime(false, 9, 29) == None
    ensures IsAbsenTime(false, 13, 0) == Some(Jadwal2)
    ensures IsAbsenTime(false, 13, 1) == None
    ensures IsAbsenTime(false, 13, 30) == Some(Jadwal3)
    ensures IsAbsenTime(false, 14, 0) == Some(Jadwal3)
    ensures IsAbsenTime(false, 14, 1) == None
  {
  }
}
