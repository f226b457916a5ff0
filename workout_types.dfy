/**
 * The shapes of a user's workout program as stored in the document database
 * (types/workout.ts). Optional TypeScript fields (`weekDay?`, `order?`) are
 * `Option`s; `days` is optional too because a stored document is cast to this
 * type without being checked.
 */
module WorkoutTypes {
  import opened Wrappers

  datatype ExerciseKind = Push | Pull | Legs | Other

  /** One exercise of a day; carried along, never inspected by the modelled logic. */
  datatype Exercise = Exercise(
    id: string,
    name: string,
    kind: ExerciseKind,
    sets: int,
    reps: string,
    weight: real,
    videoUri: string,
    completed: seq<bool>)

  datatype ScheduleType = Weekly | Rotation

  datatype WorkoutDay = WorkoutDay(
    id: string,
    name: string,
    exercises: seq<Exercise>,
    scheduleType: ScheduleType,
    weekDay: Option<int>,
    order: Option<int>)

  datatype WorkoutProgram = WorkoutProgram(
    id: string,
    userId: string,
    days: Option<seq<WorkoutDay>>)

  /** A day of the week as `Date.prototype.getDay()` gives it: 0 is Sunday, 6 is Saturday. */
  predicate IsWeekday(d: int) {
    0 <= d <= 6
  }
}
