# Workout tracker: today's workout, timer text and sign-in guard

A verified Dafny model of the three pieces of self-contained logic in a React
Native fitness client:

- **Today's workout** (`getTodaysWorkout` and the schedule caption in
  components/WorkoutTracker.tsx). Given the user's program and the weekday
  (0 = Sunday … 6 = Saturday), the first day whose `weekDay` equals today is
  chosen. Otherwise the rotation days, in list order, are indexed by a loop
  that subtracts the rotation length until the index fits. The model keeps
  that loop (`GetTodaysWorkout`) and proves it returns rotation day
  `dayOfWeek mod n` with an index that is always in bounds. It also proves
  that with zero rotation days and no weekly match the loop never exits
  (`WrapRun`, `ResolverSpins`), which is why `GetTodaysWorkout` requires
  `Resolves`. Each day's card shows "Every <weekday>" or "Day <order + 1>"
  (`ScheduleLabel`).
- **Timer text** (`formatTime` in components/CircularTimer.tsx): seconds become
  `M:SS`, with unpadded minutes and two-digit seconds. The model has a decimal
  printer and parser (module `Decimal`) and proves the round trip in both
  directions.
- **Sign-in guard** (the effect in `RootLayoutNav`, app/_layout.tsx): from
  `loading`, whether a user is signed in, and the first route segment, it
  decides whether to replace the route with "/login", with "/", or not at all.

Modules: `Wrappers` (Option), `Decimal`, `WorkoutTypes` (the data model of
types/workout.ts), `WorkoutTracker`, `CircularTimer`, `RootLayout`.

Three behaviours of the code are easy to miss, and the model keeps them:
- The code keeps rotation days in list order; it never sorts them by `order`
  (`RotationIgnoresOrder`).
- With no weekly match and no rotation day the code loops for ever; it never
  returns null (`ResolverSpins`, `EmptyDaysSpin`).
- The weekday search looks at every day, whatever its `scheduleType`
  (`MatchIgnoresScheduleType`).

## Model

| member | source | states |
|---|---|---|
| Decimal.NatToString | components/CircularTimer.tsx:21 | `toString()` of a natural below 10^21 is a non-empty digit string without a superfluous leading zero; it has one character exactly below 10 |
| Decimal.IntToString | components/WorkoutTracker.tsx:149 | `toString()` of an integer is canonical digits that read back as the integer, with a leading "-" before negatives whose digits read back as the magnitude |
| Decimal.ParseNatToString | components/CircularTimer.tsx:21 | reading back the decimal text of `n` gives `n` |
| Decimal.NatToStringParse | components/CircularTimer.tsx:21 | printing the value of a canonical digit string gives that string back |
| Decimal.NatToStringInjective | components/CircularTimer.tsx:21 | distinct numbers print differently |
| Decimal.CanonicalValueBound | components/CircularTimer.tsx:21 | a canonical string of two or more digits is worth at least 10 |
| CircularTimer.PadStart | components/CircularTimer.tsx:21 | `padStart` leaves strings of at least the width alone; otherwise it reaches the width with fill characters followed by the original text |
| CircularTimer.SecondsText | components/CircularTimer.tsx:20-21 | the padded seconds field has at least two characters, all digits, and from 10 on is the plain decimal text |
| CircularTimer.Clock | components/CircularTimer.tsx:21 | the minutes text is followed by ':' and at least two more characters |
| CircularTimer.FormatTime | components/CircularTimer.tsx:18-22 | `formatTime`: the unpadded minutes `secs / 60` are followed by ':' and the seconds field (full round trip in FormatTimeRoundTrip) |
| CircularTimer.SecondsDigits | components/CircularTimer.tsx:20-21 | the seconds part is exactly two digits worth `secs % 60`, starting with '0' exactly below 10, and unpadded from 10 on |
| CircularTimer.FormatTimeRoundTrip | components/CircularTimer.tsx:18-22 | parsing the text gives minutes `secs / 60` and seconds `secs % 60 < 60`, and M * 60 + S = secs |
| CircularTimer.FormatTimeShape | components/CircularTimer.tsx:19-21 | the text is the unpadded minutes, ":", then two digits; the first is '0' exactly when the seconds are below 10, and from 10 on the seconds are printed as they are |
| CircularTimer.FormatParse | components/CircularTimer.tsx:18-22 | every canonical `M:SS` with SS < 60 is the text of M * 60 + SS, so the format is onto its image and has no two readings |
| CircularTimer.ClockRoundTrip | components/CircularTimer.tsx:21 | minutes and seconds below 60 are read back from the printed `M:SS` |
| CircularTimer.TwoDigitsUnique | components/CircularTimer.tsx:21 | two two-digit strings of equal value are equal |
| CircularTimer.FormatTimeExamples | components/CircularTimer.tsx:18-22 | 5 gives "0:05", 65 gives "1:05", 600 gives "10:00" |
| WorkoutTracker.FirstScheduledIndex | components/WorkoutTracker.tsx:56-58 | `find` picks the least index whose `weekDay` equals the weekday, and finds nothing exactly when no day matches |
| WorkoutTracker.RotationDays | components/WorkoutTracker.tsx:65-67 | the filter keeps exactly the rotation days and never grows the list |
| WorkoutTracker.RotationDaysAppend | components/WorkoutTracker.tsx:65-67 | the filter keeps list order: filtering a concatenation concatenates the filtered parts |
| WorkoutTracker.Resolves | components/WorkoutTracker.tsx:53-77 | the inputs on which the resolver returns: an absent program always does, a program with an empty `days` list never does |
| WorkoutTracker.TodaysWorkout | components/WorkoutTracker.tsx:53-77 | the loop-free reference result: always one of the program's own days, and a rotation day whenever it is not scheduled on this weekday |
| WorkoutTracker.GetTodaysWorkout | components/WorkoutTracker.tsx:53-77 | the wrap loop keeps `dayIndex >= 1` and `dayIndex - 1` congruent to the weekday modulo n, decreases `dayIndex`, indexes in bounds, its ghost pass count follows `WrapRun` step by step, and the method returns `TodaysWorkout` |
| WorkoutTracker.NoProgramNoWorkout | components/WorkoutTracker.tsx:54 | an absent program, or one without `days`, yields no workout |
| WorkoutTracker.ScheduledDayWins | components/WorkoutTracker.tsx:56-62 | if some day's `weekDay` is today, the first such day in list order is returned |
| WorkoutTracker.RotationFallback | components/WorkoutTracker.tsx:64-76 | with no day on this weekday and n >= 1 rotation days, the result is rotation day `dayOfWeek mod n` in list order, and it is a rotation day |
| WorkoutTracker.NoneOnlyWithoutDays | components/WorkoutTracker.tsx:54-76 | when the resolver returns, it returns no workout exactly when the program or its days are absent |
| WorkoutTracker.WrapStep | components/WorkoutTracker.tsx:70-75 | one pass of the loop returns exactly when `dayIndex <= n`, at an in-bounds index; otherwise `dayIndex` drops by `n` and stays positive |
| WorkoutTracker.WrapRun | components/WorkoutTracker.tsx:69-76 | any number of passes from `dayIndex >= 1` returns only in-bounds indices and keeps a looping `dayIndex` between 1 and its start |
| WorkoutTracker.WrapRunLast | components/WorkoutTracker.tsx:69-76 | one more pass extends a run by exactly one loop-body step, which ties the method's loop to `WrapRun` |
| WorkoutTracker.WrapSpinsWithoutRotation | components/WorkoutTracker.tsx:69-76 | with zero rotation days the loop stays at the same `dayIndex >= 1` after any number of passes |
| WorkoutTracker.WrapReturns | components/WorkoutTracker.tsx:69-76 | with n >= 1 the loop returns after `(dayIndex - 1) / n + 1` passes at in-bounds index `(dayIndex - 1) mod n` |
| WorkoutTracker.ResolverSpins | components/WorkoutTracker.tsx:54-76 | the inputs outside `Resolves` have days, no weekly match and no rotation day, and the loop then never returns |
| WorkoutTracker.EmptyDaysSpin | components/WorkoutTracker.tsx:54-76 | a program with an empty `days` list is such an input: no null is returned, the loop hangs |
| WorkoutTracker.MatchIgnoresScheduleType | components/WorkoutTracker.tsx:56-62 | a rotation day carrying a matching `weekDay` is picked by the weekday search |
| WorkoutTracker.RotationIgnoresOrder | components/WorkoutTracker.tsx:65-76 | rotation days are indexed in list order, not sorted by `order` |
| WorkoutTracker.ScheduleLabel | components/WorkoutTracker.tsx:137-149 | a weekly day's caption starts with "Every ", any other day's with "Day " |
| WorkoutTracker.WeeklyLabel | components/WorkoutTracker.tsx:137-148 | a weekly day shows "Every " + the name at `weekDay || 0`, a missing `weekDay` shows Sunday, and two valid weekly captions are equal exactly when the weekdays are |
| WorkoutTracker.WeeklyLabelOutOfRange | components/WorkoutTracker.tsx:137-148 | a `weekDay` outside 0..6 shows "Every undefined" |
| WorkoutTracker.RotationLabel | components/WorkoutTracker.tsx:149 | a rotation day with `order >= 0` shows "Day " + canonical digits that read back as `order + 1`; order 0 shows "Day 1" |
| WorkoutTracker.RotationLabelWithoutOrder | components/WorkoutTracker.tsx:149 | a rotation day without `order` shows "Day NaN" |
| RootLayout.InAuthGroup | app/_layout.tsx:12 | inside "(auth)" exactly when the segment list starts with "(auth)"; an empty list is outside |
| RootLayout.RedirectFor | app/_layout.tsx:10-20 | no redirect while loading; "/login" exactly for a signed-out user outside "(auth)" (an empty segment list counts as outside); "/" exactly for a signed-in user inside it; otherwise none |
| RootLayout.NeverWrongWay | app/_layout.tsx:14-18 | a signed-out user is never sent to "/" and a signed-in user never to "/login" |
| RootLayout.RedirectSettles | app/_layout.tsx:14-18 | once the route is "/login" (group "(auth)") or "/" (group "(tabs)"), the same auth state asks for no further redirect |

## Left out

- Loading the program from the document database, picking `docs[0]`, the
  auth context, the router calls and all rendering and styles. These are I/O
  and framework code. The program and the redirect decision are values here.
- The clock. `new Date().getDay()` is the `dayOfWeek` parameter, which is
  required to be in 0..6. `toLocaleDateString` is not modelled.
- The streak. It arrives as a prop (components/WorkoutTracker.tsx:19,101);
  no modelled file computes it.
- The circular progress arc in the timer. It is floating-point arithmetic.
- FormatTime: defined for natural `secs` only. JavaScript's `Math.floor` and
  `%` on negative or fractional input give other strings, such as "-1:-5".
- NatToString/IntToString/FormatTime: JavaScript prints numbers of 10^21 and
  above in exponent form ("1e+21"), and integers above 2^53 are not exact in a
  double. The model prints every integer in full decimal, so it matches the
  source only below those bounds.
- JavaScript numbers: `weekDay`, `order`, `sets` are `int` and `weight` is
  `real`. NaN and fractional weekdays are not represented.
- The exercise field `type` is named `kind`, because `type` is a Dafny keyword.
- GetTodaysWorkout: requires `Resolves`. The source never returns on the
  excluded inputs (`ResolverSpins`), so no result can be stated for them.
