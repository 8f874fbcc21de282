/** The records of the habit tracker (habits/models.py, users/models.py):
    users, awards and habits, and the stores that hold them by primary key. */
module Models {
  import opened Optional

  type UserId = nat
  type AwardId = nat
  type HabitId = nat

  /** An instant in UTC, in whole seconds since the epoch. */
  type Instant = int

  const SecondsPerHour: int := 3600
  const SecondsPerDay: int := 86400

  /** A user; only the messaging address takes part in the habit rules. */
  datatype User = User(telegramId: Option<nat>)

  datatype Award = Award(owner: UserId, reward: string)

  /** A stored habit. `award` and `relatedHabit` are nullable foreign keys;
      `frequency` and `timeToComplete` are non-negative database integers. */
  datatype Habit = Habit(
    owner: UserId,
    award: Option<AwardId>,
    place: string,
    executionTime: Instant,
    action: string,
    isPleasant: bool,
    relatedHabit: Option<HabitId>,
    frequency: nat,
    timeToComplete: nat,
    isPublic: bool)

  type Habits = map<HabitId, Habit>
  type Awards = map<AwardId, Award>
  type Users = map<UserId, User>
}
