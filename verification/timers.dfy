/** The timer records shared by the puzzle-text endpoint and the scoring endpoints.
    Timestamps are integer milliseconds. */
module Timers {
  import opened Outcomes

  type UserId = string

  /** The natural key of a timer: one timer per user, day, year and star. */
  datatype TimerKey = TimerKey(userId: UserId, day: int, year: int, star: int)

  /** One user's attempt at one star of one day's puzzle: started at `initTime`,
      solved at `stopTime`, or still open while `stopTime` is null. */
  datatype Timer = Timer(userId: UserId, day: int, year: int, star: int, initTime: int, stopTime: Option<int>)
  {
    function Key(): TimerKey {
      TimerKey(userId, day, year, star)
    }

    predicate Completed() {
      stopTime.Some?
    }
  }

  /** The store holds at most one timer per key, as the database's unique index demands. */
  ghost predicate KeysUnique(store: seq<Timer>) {
    forall i, j :: 0 <= i < j < |store| ==> store[i].Key() != store[j].Key()
  }

  /** Some timer in the store has key `k`. */
  predicate HasTimer(store: seq<Timer>, k: TimerKey) {
    exists i :: 0 <= i < |store| && store[i].Key() == k
  }
}
