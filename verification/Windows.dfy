/** Recurring time windows of a temporal scope: the minute-set comparison of the token issuer and the
    meaning the scope evaluator gives to a window. */
module Windows {
  import opened Common

  const DAY := 1440

  /** A time as written. Only hours up to 23 and minutes up to 59 have the accepted format; any other
      text still parses to a number of minutes, or to none at all. */
  datatype TimeText = HhMm(hour: nat, minute: nat) | Malformed(parsed: Option<int>)

  predicate WellFormedTime(t: TimeText) {
    t.HhMm? && t.hour <= 23 && t.minute <= 59
  }

  function ParseHHMM(t: TimeText): Option<int> {
    match t
    case HhMm(h, m) => Some(h * 60 + m)
    case Malformed(parsed) => parsed
  }

  predicate Within(lo: int, hi: int, m: int) {
    lo <= m < hi
  }

  function Range(lo: int, hi: int): set<int> {
    set m | lo <= m < hi && Within(lo, hi, m)
  }

  /** Minutes of [start, end), crossing midnight when start is not before end. */
  function MinuteSet(start: Option<int>, end: Option<int>): set<int> {
    if start.Some? && end.Some? && start.value <= end.value then Range(start.value, end.value)
    else (if start.Some? then Range(start.value, DAY) else {}) + (if end.Some? then Range(0, end.value) else {})
  }

  method AddRange(minutes: set<int>, lo: int, hi: int) returns (r: set<int>)
    ensures r == minutes + Range(lo, hi)
  {
    r := minutes;
    var m := lo;
    while m < hi
      invariant lo <= m <= hi || (hi < lo && m == lo)
      invariant r == minutes + Range(lo, m)
    {
      r := r + {m};
      m := m + 1;
    }
  }

  method ExpandToMinuteSet(start: Option<int>, end: Option<int>) returns (minutes: set<int>)
    ensures minutes == MinuteSet(start, end)
  {
    minutes := {};
    if start.Some? && end.Some? && start.value <= end.value {
      minutes := AddRange(minutes, start.value, end.value);
    } else {
      if start.Some? { minutes := AddRange(minutes, start.value, DAY); }
      if end.Some? { minutes := AddRange(minutes, 0, end.value); }
    }
  }

  method IsTimeRangeSubset(
    childStart: Option<int>, childEnd: Option<int>, parentStart: Option<int>, parentEnd: Option<int>)
    returns (r: bool)
    ensures r <==> MinuteSet(childStart, childEnd) <= MinuteSet(parentStart, parentEnd)
  {
    var child := ExpandToMinuteSet(childStart, childEnd);
    var parent := ExpandToMinuteSet(parentStart, parentEnd);
    var rest := child;
    while rest != {}
      invariant rest <= child && child - rest <= parent
      decreases |rest|
    {
      assert (forall x :: x !in rest) ==> rest == {};
      var m :| m in rest;
      if m !in parent { return false; }
      rest := rest - {m};
    }
    r := true;
  }

  // ------------------------------------------------------------------ arcs of the clock face

  predicate MinuteOfDay(m: int) {
    0 <= m < DAY
  }

  /** How many minutes ahead of `a` the clock shows `b`. */
  function Ahead(a: int, b: int): int {
    if a <= b then b - a else b - a + DAY
  }

  /** `m` lies on the arc that starts at `start` and runs forward up to `end`, exclusive. */
  predicate OnArc(start: int, end: int, m: int) {
    Ahead(start, m) < Ahead(start, end)
  }

  /** The minute set is the arc. */
  lemma MinuteSetIsArc(start: int, end: int, m: int)
    requires MinuteOfDay(start) && MinuteOfDay(end)
    ensures m in MinuteSet(Some(start), Some(end)) <==> MinuteOfDay(m) && OnArc(start, end, m)
  {
  }

  /** The minute-set check decides containment of wrap-around intervals: the child arc is empty or
      starts and ends within the parent arc. */
  lemma SubsetIsArcContainment(cs: int, ce: int, ps: int, pe: int)
    requires MinuteOfDay(cs) && MinuteOfDay(ce) && MinuteOfDay(ps) && MinuteOfDay(pe)
    ensures MinuteSet(Some(cs), Some(ce)) <= MinuteSet(Some(ps), Some(pe)) <==>
      cs == ce || Ahead(ps, cs) + Ahead(cs, ce) <= Ahead(ps, pe)
  {
    var child, parent := MinuteSet(Some(cs), Some(ce)), MinuteSet(Some(ps), Some(pe));
    if cs == ce || Ahead(ps, cs) + Ahead(cs, ce) <= Ahead(ps, pe) {
      forall m | m in child ensures m in parent {
        MinuteSetIsArc(cs, ce, m);
        MinuteSetIsArc(ps, pe, m);
      }
    } else {
      MinuteSetIsArc(cs, ce, cs);
      MinuteSetIsArc(ps, pe, cs);
      MinuteSetIsArc(cs, ce, pe);
      MinuteSetIsArc(ps, pe, pe);
    }
  }

  // ------------------------------------------------------------------ recurring windows

  datatype RecurringWindow = RecurringWindow(start: TimeText, end: TimeText, days: Option<seq<int>>, timezone: string)

  function StartOf(w: RecurringWindow): Option<int> {
    ParseHHMM(w.start)
  }

  function EndOf(w: RecurringWindow): Option<int> {
    ParseHHMM(w.end)
  }

  predicate DaysSubset(child: Option<seq<int>>, parent: Option<seq<int>>) {
    parent.Some? ==> child.Some? && forall d :: d in child.value ==> d in parent.value
  }

  /** What the issuer accepts as a narrower window. */
  predicate WindowSubset(child: RecurringWindow, parent: RecurringWindow) {
    && child.timezone == parent.timezone
    && DaysSubset(child.days, parent.days)
    && MinuteSet(StartOf(child), EndOf(child)) <= MinuteSet(StartOf(parent), EndOf(parent))
  }

  /** Weekday (1 is Monday, 7 is Sunday) and minute of the day in the window's time zone. */
  datatype LocalTime = LocalTime(day: int, minute: int)

  predicate ValidLocal(t: LocalTime) {
    1 <= t.day <= 7 && MinuteOfDay(t.minute)
  }

  predicate WellFormed(w: RecurringWindow) {
    WellFormedTime(w.start) && WellFormedTime(w.end)
  }

  predicate Crosses(w: RecurringWindow)
    requires WellFormed(w)
  {
    StartOf(w).value > EndOf(w).value
  }

  function PreviousDay(d: int): int {
    if d == 1 then 7 else d - 1
  }

  predicate InHours(w: RecurringWindow, m: int)
    requires WellFormed(w)
  {
    if Crosses(w) then m >= StartOf(w).value || m < EndOf(w).value else StartOf(w).value <= m < EndOf(w).value
  }

  /** The day a moment counts for: after midnight it is still the day on which the window opened. */
  function EffectiveDay(w: RecurringWindow, t: LocalTime): int
    requires WellFormed(w)
  {
    if Crosses(w) && t.minute < EndOf(w).value then PreviousDay(t.day) else t.day
  }

  /** The evaluator's verdict; no local time means that the time zone name was rejected. */
  predicate Active(w: RecurringWindow, local: Option<LocalTime>) {
    && WellFormed(w) && local.Some?
    && InHours(w, local.value.minute)
    && (w.days.Some? ==> EffectiveDay(w, local.value) in w.days.value)
  }

  /** An earlier time of day. */
  predicate Precedes(a: TimeText, b: TimeText)
    requires a.HhMm? && b.HhMm?
  {
    a.hour < b.hour || (a.hour == b.hour && a.minute < b.minute)
  }

  predicate OnDay(w: RecurringWindow, day: int) {
    w.days.Some? ==> day in w.days.value
  }

  /** The verdict on the clock face: from start until end on a listed day, and past midnight until end on the
      day after a listed one. */
  lemma ActiveMeaning(w: RecurringWindow, day: int, now: TimeText)
    requires WellFormed(w) && WellFormedTime(now)
    ensures Active(w, Some(LocalTime(day, 60 * now.hour + now.minute))) <==>
      if Precedes(w.end, w.start) then
        || (!Precedes(now, w.start) && OnDay(w, day))
        || (Precedes(now, w.end) && OnDay(w, if day == 1 then 7 else day - 1))
      else !Precedes(now, w.start) && Precedes(now, w.end) && OnDay(w, day)
  {
  }

  ghost predicate Contained(child: RecurringWindow, parent: RecurringWindow) {
    forall t :: ValidLocal(t) && Active(child, Some(t)) ==> Active(parent, Some(t))
  }

  /** The issuer's comparison on the clock face: same zone, no new day, and every minute of the child on the
      parent's arc. */
  lemma WindowSubsetMeaning(child: RecurringWindow, parent: RecurringWindow)
    requires WellFormed(child) && WellFormed(parent)
    ensures WindowSubset(child, parent) <==>
      && child.timezone == parent.timezone
      && (parent.days.Some? ==> child.days.Some? && forall d :: d in child.days.value ==> d in parent.days.value)
      && forall m :: MinuteOfDay(m) && OnArc(StartOf(child).value, EndOf(child).value, m) ==>
          OnArc(StartOf(parent).value, EndOf(parent).value, m)
  {
    WindowInRange(child);
    WindowInRange(parent);
    forall m ensures m in MinuteSet(StartOf(child), EndOf(child)) <==>
        MinuteOfDay(m) && OnArc(StartOf(child).value, EndOf(child).value, m)
    {
      MinuteSetIsArc(StartOf(child).value, EndOf(child).value, m);
    }
    forall m ensures m in MinuteSet(StartOf(parent), EndOf(parent)) <==>
        MinuteOfDay(m) && OnArc(StartOf(parent).value, EndOf(parent).value, m)
    {
      MinuteSetIsArc(StartOf(parent).value, EndOf(parent).value, m);
    }
  }

  // ------------------------------------------------------------------ when acceptance is containment

  predicate Inhabited(w: RecurringWindow)
    requires WellFormed(w)
  {
    StartOf(w) != EndOf(w) && (w.days.Some? ==> exists d :: d in w.days.value && 1 <= d <= 7)
  }

  /** The child lies in the parent's hours after midnight, which count for the day before. */
  predicate InTail(child: RecurringWindow, parent: RecurringWindow)
    requires WellFormed(child) && WellFormed(parent)
  {
    Crosses(parent) && !Crosses(child) && EndOf(child).value <= EndOf(parent).value
  }

  predicate DayBeforeMissing(child: RecurringWindow, parent: RecurringWindow, d: int)
    requires child.days.Some? && parent.days.Some?
  {
    d in child.days.value && 1 <= d <= 7 && PreviousDay(d) !in parent.days.value
  }

  /** The windows that the issuer accepts and the evaluator does not contain. */
  predicate Leaks(child: RecurringWindow, parent: RecurringWindow) {
    && WellFormed(child) && Inhabited(child)
    && (!WellFormed(parent) || (
          && InTail(child, parent) && child.days.Some? && parent.days.Some?
          && exists d :: d in child.days.value && DayBeforeMissing(child, parent, d)))
  }

  lemma TimeInRange(t: TimeText)
    requires WellFormedTime(t)
    ensures ParseHHMM(t).Some? && MinuteOfDay(ParseHHMM(t).value)
  {
  }

  lemma WindowInRange(w: RecurringWindow)
    requires WellFormed(w)
    ensures StartOf(w).Some? && EndOf(w).Some? && MinuteOfDay(StartOf(w).value) && MinuteOfDay(EndOf(w).value)
  {
    TimeInRange(w.start);
    TimeInRange(w.end);
  }

  lemma HoursAreMinutes(w: RecurringWindow, m: int)
    requires WellFormed(w) && MinuteOfDay(m)
    ensures InHours(w, m) <==> m in MinuteSet(StartOf(w), EndOf(w))
  {
    WindowInRange(w);
  }

  /** Which part of the parent a minute of the child falls in. */
  lemma SamePart(child: RecurringWindow, parent: RecurringWindow, t: LocalTime)
    requires WellFormed(child) && WellFormed(parent) && ValidLocal(t) && InHours(child, t.minute)
    requires MinuteSet(StartOf(child), EndOf(child)) <= MinuteSet(StartOf(parent), EndOf(parent))
    ensures InHours(parent, t.minute)
    ensures EffectiveDay(child, t) == EffectiveDay(parent, t) ||
      (InTail(child, parent) && EffectiveDay(parent, t) == PreviousDay(EffectiveDay(child, t)))
  {
    WindowInRange(child);
    WindowInRange(parent);
    HoursAreMinutes(child, t.minute);
    HoursAreMinutes(parent, t.minute);
    PartsMatch(StartOf(child).value, EndOf(child).value, StartOf(parent).value, EndOf(parent).value, t.minute);
  }

  lemma PartsMatch(cs: int, ce: int, ps: int, pe: int, m: int)
    requires MinuteOfDay(cs) && MinuteOfDay(ce) && MinuteOfDay(ps) && MinuteOfDay(pe)
    requires MinuteSet(Some(cs), Some(ce)) <= MinuteSet(Some(ps), Some(pe)) && m in MinuteSet(Some(cs), Some(ce))
    ensures cs > ce ==> ps > pe && (m < ce <==> m < pe)
    ensures cs <= ce && ps > pe && m < pe ==> ce <= pe
  {
    SubsetIsArcContainment(cs, ce, ps, pe);
    MinuteSetIsArc(cs, ce, m);
  }

  lemma ActiveIsInhabited(w: RecurringWindow, t: LocalTime)
    requires ValidLocal(t) && Active(w, Some(t))
    ensures Inhabited(w)
  {
    WindowInRange(w);
    if w.days.Some? {
      assert EffectiveDay(w, t) in w.days.value && 1 <= EffectiveDay(w, t) <= 7;
    }
  }

  /** An inhabited window is active when it opens on one of its days. */
  lemma InhabitedIsActive(w: RecurringWindow) returns (t: LocalTime)
    requires WellFormed(w) && Inhabited(w)
    ensures ValidLocal(t) && Active(w, Some(t))
  {
    WindowInRange(w);
    var d: int := 1;
    if w.days.Some? { d :| d in w.days.value && 1 <= d <= 7; }
    t := LocalTime(d, StartOf(w).value);
  }

  lemma LeakFree(child: RecurringWindow, parent: RecurringWindow, t: LocalTime)
    requires WindowSubset(child, parent) && !Leaks(child, parent) && ValidLocal(t) && Active(child, Some(t))
    ensures Active(parent, Some(t))
  {
    ActiveIsInhabited(child, t);
    SamePart(child, parent, t);
    if child.days.Some? && parent.days.Some? && InTail(child, parent) {
      assert !DayBeforeMissing(child, parent, EffectiveDay(child, t));
    }
  }

  /** A moment at which a leaking child is active and its parent is not. */
  lemma LeakWitness(child: RecurringWindow, parent: RecurringWindow) returns (t: LocalTime)
    requires Leaks(child, parent)
    ensures ValidLocal(t) && Active(child, Some(t)) && !Active(parent, Some(t))
  {
    if WellFormed(parent) {
      WindowInRange(child);
      WindowInRange(parent);
      var d :| d in child.days.value && DayBeforeMissing(child, parent, d);
      t := LocalTime(d, StartOf(child).value);
    } else {
      t := InhabitedIsActive(child);
    }
  }

  /** Acceptance implies containment exactly when the pair does not leak. */
  lemma AcceptedIsContained(child: RecurringWindow, parent: RecurringWindow)
    requires WindowSubset(child, parent)
    ensures Contained(child, parent) <==> !Leaks(child, parent)
  {
    if Leaks(child, parent) {
      var t := LeakWitness(child, parent);
    } else {
      forall t | ValidLocal(t) && Active(child, Some(t)) ensures Active(parent, Some(t)) {
        LeakFree(child, parent, t);
      }
    }
  }

  /** 01:00 to 02:00 on Mondays is accepted under 22:00 to 06:00 on Mondays, and is active on Monday at
      01:30, when the parent's Sunday night is not. */
  lemma LeakExample()
    ensures var child := RecurringWindow(HhMm(1, 0), HhMm(2, 0), Some([1]), "UTC");
            var parent := RecurringWindow(HhMm(22, 0), HhMm(6, 0), Some([1]), "UTC");
            && WindowSubset(child, parent) && Active(child, Some(LocalTime(1, 90)))
            && !Active(parent, Some(LocalTime(1, 90)))
  {
  }
}
