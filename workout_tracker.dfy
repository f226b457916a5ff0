/**
 * The home screen's choice of today's workout and the schedule caption shown
 * on each day's card (components/WorkoutTracker.tsx). The weekday is a
 * parameter instead of being read from the clock.
 */
module WorkoutTracker {
  import opened Wrappers
  import opened Decimal
  import opened WorkoutTypes

  /** `day.weekDay === dayOfWeek`; an absent `weekDay` never matches. */
  predicate ScheduledOn(day: WorkoutDay, dayOfWeek: int) {
    day.weekDay == Some(dayOfWeek)
  }

  /**
   * Position of the day `days.find(day => day.weekDay === dayOfWeek)` returns:
   * the first day whose `weekDay` is `dayOfWeek`, whatever its `scheduleType`.
   */
  function FirstScheduledIndex(days: seq<WorkoutDay>, dayOfWeek: int): (r: Option<nat>)
    ensures r.Some? ==> r.value < |days| && ScheduledOn(days[r.value], dayOfWeek)
    ensures r.Some? ==> forall j :: 0 <= j < r.value ==> !ScheduledOn(days[j], dayOfWeek)
    ensures r.None? <==> forall j :: 0 <= j < |days| ==> !ScheduledOn(days[j], dayOfWeek)
  {
    if |days| == 0 then None
    else if ScheduledOn(days[0], dayOfWeek) then Some(0)
    else match FirstScheduledIndex(days[1..], dayOfWeek)
      case None => None
      case Some(i) => Some(i + 1)
  }

  /** `days.filter(day => day.scheduleType === "rotation")`. */
  function RotationDays(days: seq<WorkoutDay>): (r: seq<WorkoutDay>)
    ensures |r| <= |days|
    ensures forall d :: d in r <==> d in days && d.scheduleType == Rotation
  {
    if |days| == 0 then []
    else (if days[0].scheduleType == Rotation then [days[0]] else []) + RotationDays(days[1..])
  }

  /** The filter keeps list order: filtering a concatenation concatenates the filtered parts. */
  lemma {:induction false} RotationDaysAppend(a: seq<WorkoutDay>, b: seq<WorkoutDay>)
    ensures RotationDays(a + b) == RotationDays(a) + RotationDays(b)
    decreases |a|
  {
    if |a| > 0 {
      assert (a + b)[1..] == a[1..] + b;
      RotationDaysAppend(a[1..], b);
    } else {
      assert a + b == b;
    }
  }

  /**
   * The inputs on which the source's resolver returns at all: no program, no
   * `days`, a day scheduled on this weekday, or at least one rotation day.
   * Otherwise its wrap loop subtracts zero forever (see WrapSpinsWithoutRotation).
   */
  predicate Resolves(program: Option<WorkoutProgram>, dayOfWeek: int)
    ensures program.None? ==> Resolves(program, dayOfWeek)
    ensures program.Some? && program.value.days == Some([]) ==> !Resolves(program, dayOfWeek)
  {
    || program.None?
    || program.value.days.None?
    || FirstScheduledIndex(program.value.days.value, dayOfWeek).Some?
    || |RotationDays(program.value.days.value)| >= 1
  }

  /**
   * What today's workout is, stated without the loop: the first day scheduled
   * on this weekday, else rotation day number `dayOfWeek mod n` (0-based) in
   * list order, where `n` is the number of rotation days.
   */
  function TodaysWorkout(program: Option<WorkoutProgram>, dayOfWeek: int): (r: Option<WorkoutDay>)
    requires Resolves(program, dayOfWeek)
    ensures r.Some? ==> program.Some? && program.value.days.Some? && r.value in program.value.days.value
    ensures r.Some? && !ScheduledOn(r.value, dayOfWeek) ==> r.value.scheduleType == Rotation
  {
    if program.None? || program.value.days.None? then None
    else
      var days := program.value.days.value;
      match FirstScheduledIndex(days, dayOfWeek)
      case Some(i) => Some(days[i])
      case None =>
        var rotation := RotationDays(days);
        assert rotation[dayOfWeek % |rotation|] in rotation;
        Some(rotation[dayOfWeek % |rotation|])
  }

  /** `getTodaysWorkout`, with its repeated-subtraction wrap loop. */
  method GetTodaysWorkout(workouts: Option<WorkoutProgram>, dayOfWeek: int) returns (r: Option<WorkoutDay>)
    requires IsWeekday(dayOfWeek)
    requires Resolves(workouts, dayOfWeek)
    ensures r == TodaysWorkout(workouts, dayOfWeek)
  {
    if workouts.None? || workouts.value.days.None? {
      return None;
    }
    var days := workouts.value.days.value;
    var todaysWorkout := FirstScheduledIndex(days, dayOfWeek);
    if todaysWorkout.Some? {
      return Some(days[todaysWorkout.value]);
    }
    var rotationWorkouts := RotationDays(days);
    var n := |rotationWorkouts|;
    var dayIndex := dayOfWeek + 1;
    ghost var passes: nat := 0;
    while true
      invariant 1 <= dayIndex
      invariant (dayIndex - 1) % n == dayOfWeek % n
      invariant WrapRun(dayOfWeek + 1, n, passes) == Looping(dayIndex)
      decreases dayIndex
    {
      WrapRunLast(dayOfWeek + 1, n, passes);
      if dayIndex <= n {
        FirstPassQuotient(dayIndex, n);
        assert WrapRun(dayOfWeek + 1, n, passes + 1) == Returned(dayIndex - 1);
        return Some(rotationWorkouts[dayIndex - 1]);
      } else {
        NextPassQuotient(dayIndex, n);
        dayIndex := dayIndex - n;
        passes := passes + 1;
      }
    }
  }

  // ---------------------------------------------------------------------------
  // Properties of the resolver

  /** No program, or a program document without `days`, makes the resolver return null. */
  lemma NoProgramNoWorkout(program: Option<WorkoutProgram>, dayOfWeek: int)
    requires program.None? || program.value.days.None?
    ensures Resolves(program, dayOfWeek)
    ensures TodaysWorkout(program, dayOfWeek) == None
  {
  }

  /**
   * Any day whose `weekDay` is today wins, and the first one in list order is
   * returned; its `scheduleType` is not looked at.
   */
  lemma ScheduledDayWins(program: WorkoutProgram, dayOfWeek: int, i: nat)
    requires program.days.Some? && i < |program.days.value|
    requires ScheduledOn(program.days.value[i], dayOfWeek)
    requires forall j :: 0 <= j < i ==> !ScheduledOn(program.days.value[j], dayOfWeek)
    ensures Resolves(Some(program), dayOfWeek)
    ensures TodaysWorkout(Some(program), dayOfWeek) == Some(program.days.value[i])
  {
  }

  /**
   * With no day scheduled on this weekday the result is rotation day
   * `dayOfWeek mod n` of the rotation days in list order; it is a rotation day.
   */
  lemma RotationFallback(program: WorkoutProgram, dayOfWeek: int)
    requires program.days.Some?
    requires forall j :: 0 <= j < |program.days.value| ==> !ScheduledOn(program.days.value[j], dayOfWeek)
    requires |RotationDays(program.days.value)| >= 1
    ensures Resolves(Some(program), dayOfWeek)
    ensures var rotation := RotationDays(program.days.value);
      && TodaysWorkout(Some(program), dayOfWeek) == Some(rotation[dayOfWeek % |rotation|])
      && TodaysWorkout(Some(program), dayOfWeek).value.scheduleType == Rotation
  {
    var rotation := RotationDays(program.days.value);
    assert rotation[dayOfWeek % |rotation|] in rotation;
  }

  /** Whenever the resolver returns, it returns no workout exactly when the program or its days are absent. */
  lemma NoneOnlyWithoutDays(program: Option<WorkoutProgram>, dayOfWeek: int)
    requires Resolves(program, dayOfWeek)
    ensures TodaysWorkout(program, dayOfWeek).None? <==> program.None? || program.value.days.None?
  {
  }

  // ---------------------------------------------------------------------------
  // The wrap loop as a transition system, to state when it terminates

  /** Where the loop stands: returned `rotationWorkouts[index]`, or still looping at `dayIndex`. */
  datatype WrapState = Returned(index: int) | Looping(dayIndex: int)

  /**
   * One pass of the loop body with `n` rotation days: it returns exactly when
   * `dayIndex` fits, at an in-bounds index; otherwise it moves down by `n`,
   * which is progress only when `n >= 1`.
   */
  function WrapStep(dayIndex: int, n: nat): (r: WrapState)
    ensures r.Returned? <==> dayIndex <= n
    ensures r.Returned? && dayIndex >= 1 ==> 0 <= r.index < n
    ensures r.Looping? ==> r.dayIndex >= 1 && r.dayIndex + n == dayIndex
  {
    if dayIndex <= n then Returned(dayIndex - 1) else Looping(dayIndex - n)
  }

  /**
   * The loop's state after at most `k` passes from `dayIndex >= 1`: a return
   * is always in bounds and a loop that goes on stays at a positive index no
   * larger than where it started.
   */
  function WrapRun(dayIndex: int, n: nat, k: nat): (r: WrapState)
    requires dayIndex >= 1
    ensures r.Returned? ==> 0 <= r.index < n
    ensures r.Looping? ==> 1 <= r.dayIndex <= dayIndex
  {
    if k == 0 then Looping(dayIndex)
    else match WrapStep(dayIndex, n)
      case Returned(i) => Returned(i)
      case Looping(next) => WrapRun(next, n, k - 1)
  }

  /** One more pass extends a run by one step of the loop body. */
  lemma {:induction false} WrapRunLast(dayIndex: int, n: nat, k: nat)
    requires dayIndex >= 1
    ensures WrapRun(dayIndex, n, k + 1) ==
      match WrapRun(dayIndex, n, k)
      case Returned(i) => Returned(i)
      case Looping(d) => WrapStep(d, n)
    decreases k
  {
    if k > 0 {
      match WrapStep(dayIndex, n)
      case Returned(i) =>
      case Looping(next) => WrapRunLast(next, n, k - 1);
    }
  }

  /** With no rotation days the loop never leaves `dayIndex` and never returns. */
  lemma {:induction false} WrapSpinsWithoutRotation(dayIndex: int, k: nat)
    requires dayIndex >= 1
    ensures WrapRun(dayIndex, 0, k) == Looping(dayIndex)
    decreases k
  {
    if k > 0 {
      WrapSpinsWithoutRotation(dayIndex, k - 1);
    }
  }

  /**
   * With `n >= 1` rotation days the loop returns after `(dayIndex - 1) / n + 1`
   * passes, at the in-bounds index `(dayIndex - 1) mod n`.
   */
  lemma {:induction false} WrapReturns(dayIndex: int, n: nat)
    requires dayIndex >= 1 && n >= 1
    ensures 0 <= (dayIndex - 1) % n < n
    ensures WrapRun(dayIndex, n, (dayIndex - 1) / n + 1) == Returned((dayIndex - 1) % n)
    decreases dayIndex
  {
    if dayIndex <= n {
      FirstPassQuotient(dayIndex, n);
      assert WrapRun(dayIndex, n, 1) == WrapStep(dayIndex, n);
    } else {
      var next := dayIndex - n;
      WrapReturns(next, n);
      NextPassQuotient(dayIndex, n);
      assert WrapStep(dayIndex, n) == Looping(next);
    }
  }

  /** Where `dayIndex` already fits, no pass is skipped and the index is `dayIndex - 1`. */
  lemma FirstPassQuotient(dayIndex: int, n: nat)
    requires 1 <= dayIndex <= n
    ensures (dayIndex - 1) / n == 0 && (dayIndex - 1) % n == dayIndex - 1
  {
    ModUnique(dayIndex - 1, n, 0, dayIndex - 1);
    DivUnique(dayIndex - 1, n, 0, dayIndex - 1);
  }

  /** Subtracting `n` takes one pass off and keeps the residue. */
  lemma NextPassQuotient(dayIndex: int, n: nat)
    requires n >= 1 && dayIndex > n
    ensures (dayIndex - 1) / n == (dayIndex - 1 - n) / n + 1
    ensures (dayIndex - 1) % n == (dayIndex - 1 - n) % n
  {
    var q, r := (dayIndex - 1 - n) / n, (dayIndex - 1 - n) % n;
    ModUnique(dayIndex - 1, n, q + 1, r);
    DivUnique(dayIndex - 1, n, q + 1, r);
  }

  /**
   * The inputs `Resolves` excludes are exactly those where the program has
   * days, none is scheduled on this weekday and none is a rotation day; there
   * the loop starts at `dayOfWeek + 1 >= 1` and after any number `k` of
   * passes is still looping there.
   */
  lemma ResolverSpins(program: Option<WorkoutProgram>, dayOfWeek: int, k: nat)
    requires IsWeekday(dayOfWeek)
    requires !Resolves(program, dayOfWeek)
    ensures program.Some? && program.value.days.Some?
    ensures forall j :: 0 <= j < |program.value.days.value| ==> !ScheduledOn(program.value.days.value[j], dayOfWeek)
    ensures |RotationDays(program.value.days.value)| == 0
    ensures WrapRun(dayOfWeek + 1, |RotationDays(program.value.days.value)|, k) == Looping(dayOfWeek + 1)
  {
    WrapSpinsWithoutRotation(dayOfWeek + 1, k);
  }

  /** An empty day list on any weekday is such an input: the source hangs rather than returning null. */
  lemma EmptyDaysSpin(program: WorkoutProgram, dayOfWeek: int)
    requires IsWeekday(dayOfWeek) && program.days == Some([])
    ensures !Resolves(Some(program), dayOfWeek)
  {
  }

  /** A rotation day that also carries a matching `weekDay` is picked by the weekly search. */
  lemma MatchIgnoresScheduleType()
    ensures var d := WorkoutDay("a", "A", [], Rotation, Some(2), Some(0));
      TodaysWorkout(Some(WorkoutProgram("p", "u", Some([d]))), 2) == Some(d)
  {
    var d := WorkoutDay("a", "A", [], Rotation, Some(2), Some(0));
    assert FirstScheduledIndex([d], 2) == Some(0);
  }

  /** Rotation days are taken in list order, not sorted by `order`. */
  lemma RotationIgnoresOrder()
    ensures var second := WorkoutDay("b", "B", [], Rotation, None, Some(1));
      var first := WorkoutDay("a", "A", [], Rotation, None, Some(0));
      TodaysWorkout(Some(WorkoutProgram("p", "u", Some([second, first]))), 0) == Some(second)
  {
    var second := WorkoutDay("b", "B", [], Rotation, None, Some(1));
    var first := WorkoutDay("a", "A", [], Rotation, None, Some(0));
    var days := [second, first];
    assert FirstScheduledIndex(days[1..], 0) == None;
    assert FirstScheduledIndex(days, 0) == None;
    assert days[1..][1..] == [];
    assert RotationDays(days) == days;
  }

  // ---------------------------------------------------------------------------
  // The schedule caption on each day's card

  const WeekdayNames: seq<string> :=
    ["Sunday", "Monday", "Tuesday", "Wednesday", "Thursday", "Friday", "Saturday"]

  /**
   * `"Every " + names[day.weekDay || 0]` for a weekly day (an index outside the
   * table reads as `undefined`), `"Day " + (day.order! + 1)` otherwise (an
   * absent `order` gives `undefined + 1`, which is `NaN`).
   */
  function ScheduleLabel(day: WorkoutDay): (caption: string)
    ensures day.scheduleType == Weekly ==> |caption| > 6 && caption[..6] == "Every "
    ensures day.scheduleType == Rotation ==> |caption| > 4 && caption[..4] == "Day "
  {
    if day.scheduleType == Weekly then
      var i := day.weekDay.GetOr(0);
      "Every " + (if 0 <= i < |WeekdayNames| then WeekdayNames[i] else "undefined")
    else
      "Day " + (if day.order.Some? then IntToString(day.order.value + 1) else "NaN")
  }

  /**
   * A weekly day scheduled on weekday `k` is captioned with that weekday's
   * name, a weekly day without `weekDay` with Sunday's, and the caption tells
   * the weekday back: two weekly days on valid weekdays share a caption
   * exactly when they share a weekday.
   */
  lemma WeeklyLabel(day: WorkoutDay, other: WorkoutDay)
    requires day.scheduleType == Weekly && other.scheduleType == Weekly
    requires IsWeekday(day.weekDay.GetOr(0)) && IsWeekday(other.weekDay.GetOr(0))
    ensures ScheduleLabel(day) == "Every " + WeekdayNames[day.weekDay.GetOr(0)]
    ensures day.weekDay.None? ==> ScheduleLabel(day) == "Every Sunday"
    ensures ScheduleLabel(day) == ScheduleLabel(other) <==> day.weekDay.GetOr(0) == other.weekDay.GetOr(0)
  {
    var i, j := day.weekDay.GetOr(0), other.weekDay.GetOr(0);
    if ScheduleLabel(day) == ScheduleLabel(other) {
      assert ScheduleLabel(day)[6..] == WeekdayNames[i];
      assert ScheduleLabel(other)[6..] == WeekdayNames[j];
    }
  }

  /** A weekly day whose `weekDay` lies outside 0..6 shows "Every undefined". */
  lemma WeeklyLabelOutOfRange(day: WorkoutDay)
    requires day.scheduleType == Weekly && !IsWeekday(day.weekDay.GetOr(0))
    ensures ScheduleLabel(day) == "Every undefined"
  {
  }

  /**
   * A rotation day with a non-negative `order` shows "Day " followed by the
   * canonical decimal of `order + 1`, so reading the number back gives the
   * one-based position; `order` 0 shows "Day 1".
   */
  lemma RotationLabel(day: WorkoutDay)
    requires day.scheduleType == Rotation && day.order.Some? && day.order.value >= 0
    ensures var caption := ScheduleLabel(day);
      && |caption| >= 5 && caption[..4] == "Day "
      && Canonical(caption[4..]) && ParseDigits(caption[4..]) == day.order.value + 1
    ensures day.order.value == 0 ==> ScheduleLabel(day) == "Day 1"
  {
    var caption := ScheduleLabel(day);
    var s := NatToString(day.order.value + 1);
    ParseNatToString(day.order.value + 1);
    assert caption == "Day " + s;
    assert caption[4..] == s;
  }

  /** A rotation day without `order` shows "Day NaN". */
  lemma RotationLabelWithoutOrder(day: WorkoutDay)
    requires day.scheduleType == Rotation && day.order.None?
    ensures ScheduleLabel(day) == "Day NaN"
  {
  }

  /** Euclidean remainder is determined by any quotient/remainder decomposition. */
  lemma ModUnique(x: int, n: int, q: int, r: int)
    requires n >= 1 && 0 <= r < n && x == n * q + r
    ensures x % n == r
  {
    var q' := x / n;
    assert n * (q - q') == x % n - r;
    MulBounds(n, q - q');
  }

  /** Euclidean quotient is determined by any quotient/remainder decomposition. */
  lemma DivUnique(x: int, n: int, q: int, r: int)
    requires n >= 1 && 0 <= r < n && x == n * q + r
    ensures x / n == q
  {
    var q' := x / n;
    assert n * (q - q') == x % n - r;
    MulBounds(n, q - q');
  }

  /** A non-zero multiple of `n` is at least `n` away from zero. */
  lemma {:induction false} MulBounds(n: int, d: int)
    requires n >= 1
    ensures d >= 1 ==> n * d >= n
    ensures d <= -1 ==> n * d <= -n
    decreases if d < 0 then -d else d
  {
    if d > 1 {
      MulBounds(n, d - 1);
      assert n * d == n * (d - 1) + n;
    } else if d < -1 {
      MulBounds(n, d + 1);
      assert n * d == n * (d + 1) - n;
    }
  }
}
