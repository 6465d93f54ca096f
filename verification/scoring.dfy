/** The scoring endpoints: per-day leaderboards of completed timers, the year-wide
    leaderboard that turns positions into points and medals, and a user's history. */
module Scoring {
  import opened Outcomes
  import opened Seqs
  import opened Sorting
  import opened Timers

  /** An entry of the user directory. */
  datatype User = User(id: UserId, name: string)

  /** A completed timer together with its duration in milliseconds. */
  datatype Entry = Entry(timer: Timer, duration: int)

  /** One of the fifty per-star leaderboards of a year. */
  datatype Slot = Slot(day: int, star: int)

  /** What the year-wide leaderboard accumulates for one user. */
  datatype Stats = Stats(score: int, stars: int, golds: int, silvers: int, bronzes: int)

  /** What one position of one per-star leaderboard earns its holder. */
  datatype Award = Award(userId: UserId, points: int, gold: int, silver: int, bronze: int)

  /** One line of the year-wide leaderboard; `medals` lists golds, silvers and bronzes. */
  datatype Row = Row(user: User, score: int, stars: int, medals: seq<int>)

  /** A user with their completed timers of one year. */
  datatype UserTimers = UserTimers(user: User, timers: seq<Timer>)

  /** The per-user accumulator, keyed by user id. */
  type Acc = map<UserId, Stats>

  const NoStats := Stats(0, 0, 0, 0, 0)

  // ---------------------------------------------------------------------------
  // Completed timers of a day

  /** `t` is a completed timer of the given year and day, of the given star if one is given. */
  predicate Selected(t: Timer, year: int, day: int, star: Option<int>) {
    t.year == year && t.day == day && t.Completed() && (star.None? || t.star == star.value)
  }

  function SelectedBy(year: int, day: int, star: Option<int>): Timer -> bool {
    t => Selected(t, year, day, star)
  }

  /** The timers behind a sequence of entries. */
  function TimersOf(entries: seq<Entry>): (r: seq<Timer>)
    ensures |r| == |entries|
    ensures forall i :: 0 <= i < |r| ==> r[i] == entries[i].timer
  {
    seq(|entries|, i requires 0 <= i < |entries| => entries[i].timer)
  }

  /** The completed timers of a year and day (and star, when given), in store order,
      each paired with its duration `stopTime - initTime`. */
  function TimersForDay(store: seq<Timer>, year: int, day: int, star: Option<int>): (r: seq<Entry>)
    ensures TimersOf(r) == Filter(store, SelectedBy(year, day, star))
    ensures forall i :: 0 <= i < |r| ==>
              r[i].timer.Completed() && r[i].duration == r[i].timer.stopTime.value - r[i].timer.initTime
  {
    if |store| == 0 then []
    else
      var t := store[0];
      var head := if Selected(t, year, day, star) then [Entry(t, t.stopTime.value - t.initTime)] else [];
      var rest := TimersForDay(store[1..], year, day, star);
      var keep := if Selected(t, year, day, star) then [t] else [];
      assert Filter(store, SelectedBy(year, day, star)) == keep + Filter(store[1..], SelectedBy(year, day, star));
      assert TimersOf(head) == keep;
      TimersOfAppend(head, rest);
      head + rest
  }

  lemma TimersOfAppend(a: seq<Entry>, b: seq<Entry>)
    ensures TimersOf(a + b) == TimersOf(a) + TimersOf(b)
  {
    var ab := a + b;
    assert forall i :: 0 <= i < |b| ==> ab[|a| + i] == b[i];
  }

  /** `t` is a completed timer of the given year and day, whatever its star. */
  function CompletedOn(year: int, day: int): Timer -> bool {
    (t: Timer) => t.year == year && t.day == day && t.Completed()
  }

  /** The raw listing of a day: the completed timers of every star, with their
      durations, in store order and not ranked. */
  function Leaderboard(store: seq<Timer>, year: int, day: int): (r: seq<Entry>)
    ensures TimersOf(r) == Filter(store, CompletedOn(year, day))
    ensures forall i :: 0 <= i < |r| ==>
              r[i].timer.Completed() && r[i].duration == r[i].timer.stopTime.value - r[i].timer.initTime
  {
    var r := TimersForDay(store, year, day, None);
    FilterSamePredicate(store, SelectedBy(year, day, None), CompletedOn(year, day));
    r
  }

  // ---------------------------------------------------------------------------
  // A user's history

  /** The first directory entry with the given id, if any. */
  function FindUser(users: seq<User>, id: UserId): (r: Option<User>)
    ensures r.None? <==> forall i :: 0 <= i < |users| ==> users[i].id != id
    ensures r.Some? ==> r.value in users && r.value.id == id
  {
    if |users| == 0 then None
    else if users[0].id == id then Some(users[0])
    else FindUser(users[1..], id)
  }

  /** `t` is a completed timer of the given user and year. */
  function CompletedBy(userId: UserId, year: int): Timer -> bool {
    (t: Timer) => t.userId == userId && t.year == year && t.Completed()
  }

  /** The user with their completed timers of the year; fails when the id is not in
      the directory. */
  function UserInfo(users: seq<User>, store: seq<Timer>, userId: UserId, year: int): (r: Result<UserTimers>)
    ensures r.Err? <==> forall i :: 0 <= i < |users| ==> users[i].id != userId
    ensures r.Err? ==> r.message == "NotFound"
    ensures r.Ok? ==> r.value.user in users && r.value.user.id == userId
    ensures r.Ok? ==> forall i :: 0 <= i < |r.value.timers| ==>
              var t := r.value.timers[i];
              t in store && t.userId == userId && t.year == year && t.Completed()
    ensures r.Ok? ==> forall i :: 0 <= i < |store| ==>
              store[i].userId == userId && store[i].year == year && store[i].Completed() ==>
              store[i] in r.value.timers
    ensures r.Ok? ==> r.value.timers == Filter(store, CompletedBy(userId, year))
  {
    match FindUser(users, userId)
    case None => Err("NotFound")
    case Some(user) => Ok(UserTimers(user, Filter(store, CompletedBy(userId, year))))
  }

  // ---------------------------------------------------------------------------
  // Points and medals of one per-star leaderboard

  /** The award for position `i` of a leaderboard of `|board|` finishers: `|board| - i`
      points, and a gold, silver or bronze medal for positions 0, 1 and 2. */
  function AwardAt(board: seq<Entry>, i: int): Award
    requires 0 <= i < |board|
  {
    Award(board[i].timer.userId, |board| - i,
          if i == 0 then 1 else 0, if i == 1 then 1 else 0, if i == 2 then 1 else 0)
  }

  function AwardsFrom(board: seq<Entry>, i: int): seq<Award>
    requires 0 <= i <= |board|
    decreases |board| - i
  {
    if i == |board| then [] else [AwardAt(board, i)] + AwardsFrom(board, i + 1)
  }

  /** The awards of a ranked leaderboard, position by position. */
  function Awards(board: seq<Entry>): seq<Award> {
    AwardsFrom(board, 0)
  }

  function PointsOf(a: Award): int { a.points }
  function GoldOf(a: Award): int { a.gold }
  function SilverOf(a: Award): int { a.silver }
  function BronzeOf(a: Award): int { a.bronze }

  /** The sum of one part of the awards. */
  function Total(awards: seq<Award>, part: Award -> int): int {
    if |awards| == 0 then 0 else part(awards[0]) + Total(awards[1..], part)
  }

  /** An award is worth at least one point and at most one medal. */
  predicate SoundAward(a: Award) {
    a.points >= 1 && 0 <= a.gold && 0 <= a.silver && 0 <= a.bronze && a.gold + a.silver + a.bronze <= 1
  }

  lemma {:induction false} AwardsFromLength(board: seq<Entry>, i: int)
    requires 0 <= i <= |board|
    ensures |AwardsFrom(board, i)| == |board| - i
    ensures forall k :: 0 <= k < |board| - i ==> AwardsFrom(board, i)[k] == AwardAt(board, i + k)
    decreases |board| - i
  {
    if i < |board| {
      AwardsFromLength(board, i + 1);
      var all, rest := AwardsFrom(board, i), AwardsFrom(board, i + 1);
      assert all == [AwardAt(board, i)] + rest;
      forall k | 0 <= k < |board| - i
        ensures all[k] == AwardAt(board, i + k)
      {
        if k > 0 {
          assert all[k] == rest[k - 1];
        }
      }
    }
  }

  /** Every position earns a sound award; the awards follow the leaderboard's users. */
  lemma AwardsShape(board: seq<Entry>)
    ensures |Awards(board)| == |board|
    ensures forall k :: 0 <= k < |board| ==>
              SoundAward(Awards(board)[k]) && Awards(board)[k].userId == board[k].timer.userId
  {
    AwardsFromLength(board, 0);
  }

  lemma {:induction false} PointsFrom(board: seq<Entry>, i: int)
    requires 0 <= i <= |board|
    ensures 2 * Total(AwardsFrom(board, i), PointsOf) == (|board| - i) * (|board| - i + 1)
    decreases |board| - i
  {
    if i < |board| {
      PointsFrom(board, i + 1);
    }
  }

  /** The points of a leaderboard of N finishers run from N down to 1 and sum to N(N+1)/2. */
  lemma AwardsPointsSum(board: seq<Entry>)
    ensures Total(Awards(board), PointsOf) == |board| * (|board| + 1) / 2
  {
    PointsFrom(board, 0);
  }

  lemma {:induction false} MedalsFrom(board: seq<Entry>, i: int)
    requires 0 <= i <= |board|
    ensures Total(AwardsFrom(board, i), GoldOf) == (if i <= 0 < |board| then 1 else 0)
    ensures Total(AwardsFrom(board, i), SilverOf) == (if i <= 1 < |board| then 1 else 0)
    ensures Total(AwardsFrom(board, i), BronzeOf) == (if i <= 2 < |board| then 1 else 0)
    decreases |board| - i
  {
    if i < |board| {
      MedalsFrom(board, i + 1);
    }
  }

  /** Each per-star leaderboard hands out one gold, one silver and one bronze medal,
      as far as it has first, second and third finishers. */
  lemma AwardsMedalTotals(board: seq<Entry>)
    ensures Total(Awards(board), GoldOf) == (if |board| >= 1 then 1 else 0)
    ensures Total(Awards(board), SilverOf) == (if |board| >= 2 then 1 else 0)
    ensures Total(Awards(board), BronzeOf) == (if |board| >= 3 then 1 else 0)
  {
    MedalsFrom(board, 0);
  }

  // ---------------------------------------------------------------------------
  // Accumulation

  /** The accumulated stats of a user; absent users have none. */
  function Lookup(acc: Acc, u: UserId): Stats {
    if u in acc then acc[u] else NoStats
  }

  /** Adds one award to its user's stats: its points, one star and its medals. A user
      not yet in the accumulator starts from zero; every other user is left alone. */
  function Credit(acc: Acc, a: Award): (r: Acc)
    ensures r.Keys == acc.Keys + {a.userId}
    ensures var before, after := Lookup(acc, a.userId), Lookup(r, a.userId);
            && after.score == before.score + a.points
            && after.stars == before.stars + 1
            && after.golds == before.golds + a.gold
            && after.silvers == before.silvers + a.silver
            && after.bronzes == before.bronzes + a.bronze
    ensures forall u :: u != a.userId ==> Lookup(r, u) == Lookup(acc, u)
  {
    var s := Lookup(acc, a.userId);
    acc[a.userId := Stats(s.score + a.points, s.stars + 1, s.golds + a.gold, s.silvers + a.silver, s.bronzes + a.bronze)]
  }

  function ApplyAwards(acc: Acc, awards: seq<Award>): Acc
    decreases |awards|
  {
    if |awards| == 0 then acc else ApplyAwards(Credit(acc, awards[0]), awards[1..])
  }

  function Duration(e: Entry): int { e.duration }

  /** A per-star leaderboard: the completed timers of that day and star, fastest first,
      equal durations in store order. */
  function Board(store: seq<Timer>, year: int, slot: Slot): (r: seq<Entry>)
    ensures multiset(r) == multiset(TimersForDay(store, year, slot.day, Some(slot.star)))
    ensures forall i, j :: 0 <= i < j < |r| ==> r[i].duration <= r[j].duration
  {
    var r := InsertionSort(TimersForDay(store, year, slot.day, Some(slot.star)), Duration);
    assert forall i, j :: 0 <= i < j < |r| ==> Duration(r[i]) <= Duration(r[j]);
    r
  }

  /** Timers with equal durations keep their store order on a per-star leaderboard. */
  lemma BoardFastestFirst(store: seq<Timer>, year: int, slot: Slot, d: int)
    ensures Filter(Board(store, year, slot), WithKey(Duration, d))
         == Filter(TimersForDay(store, year, slot.day, Some(slot.star)), WithKey(Duration, d))
  {
    InsertionSortStable(TimersForDay(store, year, slot.day, Some(slot.star)), Duration, d);
  }

  /** Folds the awards of each slot's leaderboard, in order, into the accumulator. */
  function Accumulate(store: seq<Timer>, year: int, slots: seq<Slot>, acc: Acc): Acc
    decreases |slots|
  {
    if |slots| == 0 then acc
    else Accumulate(store, year, slots[1..], ApplyAwards(acc, Awards(Board(store, year, slots[0]))))
  }

  /** The leaderboards the scoring loop visits from `day` on, stars 1 and 2 of each
      day up to day 25. */
  function SlotsFrom(day: int): (r: seq<Slot>)
    requires 1 <= day <= 26
    ensures |r| == 2 * (26 - day)
    ensures forall k :: 0 <= k < |r| ==> r[k] == Slot(day + k / 2, k % 2 + 1)
    decreases 26 - day
  {
    if day == 26 then [] else [Slot(day, 1), Slot(day, 2)] + SlotsFrom(day + 1)
  }

  /** The leaderboards of a year in the order the scoring loop visits them:
      day 1 star 1, day 1 star 2, day 2 star 1, ..., day 25 star 2. */
  function Slots(): (r: seq<Slot>)
    ensures |r| == 50
    ensures forall k :: 0 <= k < |r| ==> r[k] == Slot(1 + k / 2, k % 2 + 1)
  {
    SlotsFrom(1)
  }

  /** The stats of every user that finished any star of the year. */
  function FinalStats(store: seq<Timer>, year: int): Acc {
    Accumulate(store, year, Slots(), map[])
  }

  // ---------------------------------------------------------------------------
  // The year-wide leaderboard

  function RowFor(u: User, acc: Acc): Row {
    var s := Lookup(acc, u.id);
    Row(u, s.score, s.stars, [s.golds, s.silvers, s.bronzes])
  }

  /** One row per directory entry, in directory order. */
  function DirectoryRows(users: seq<User>, acc: Acc): (r: seq<Row>)
    ensures |r| == |users|
    ensures forall i :: 0 <= i < |r| ==> r[i] == RowFor(users[i], acc)
  {
    seq(|users|, i requires 0 <= i < |users| => RowFor(users[i], acc))
  }

  function NegatedScore(r: Row): int { -r.score }

  /** Rows ordered by score from highest to lowest by a stable sort: rows with equal
      scores keep their relative order. */
  function Ranking(rows: seq<Row>): (r: seq<Row>)
    ensures multiset(r) == multiset(rows)
    ensures forall i, j :: 0 <= i < j < |r| ==> r[i].score >= r[j].score
    ensures forall v :: Filter(r, WithKey(NegatedScore, v)) == Filter(rows, WithKey(NegatedScore, v))
  {
    var r := InsertionSort(rows, NegatedScore);
    forall v
      ensures Filter(r, WithKey(NegatedScore, v)) == Filter(rows, WithKey(NegatedScore, v))
    {
      InsertionSortStable(rows, NegatedScore, v);
    }
    r
  }

  /** The year-wide leaderboard: one row per directory entry carrying its accumulated
      stats, ordered by score from highest to lowest. */
  function GlobalLeaderboard(users: seq<User>, store: seq<Timer>, year: int): (r: seq<Row>)
    ensures |r| == |users|
    ensures forall i :: 0 <= i < |r| ==> r[i].user in users && r[i] == RowFor(r[i].user, FinalStats(store, year))
    ensures forall u :: u in users ==> RowFor(u, FinalStats(store, year)) in r
    ensures forall i, j :: 0 <= i < j < |r| ==> r[i].score >= r[j].score
    ensures forall v :: Filter(r, WithKey(NegatedScore, v))
                     == Filter(DirectoryRows(users, FinalStats(store, year)), WithKey(NegatedScore, v))
  {
    var acc := FinalStats(store, year);
    var r := Ranking(DirectoryRows(users, acc));
    SortedRowsKeepDirectory(users, acc, r);
    r
  }

  lemma SortedRowsKeepDirectory(users: seq<User>, acc: Acc, r: seq<Row>)
    requires multiset(r) == multiset(DirectoryRows(users, acc))
    ensures forall i :: 0 <= i < |r| ==> r[i].user in users && r[i] == RowFor(r[i].user, acc)
    ensures forall u :: u in users ==> RowFor(u, acc) in r
  {
    var rows := DirectoryRows(users, acc);
    SameElements(r, rows);
    forall i | 0 <= i < |r|
      ensures r[i].user in users && r[i] == RowFor(r[i].user, acc)
    {
      var j :| 0 <= j < |rows| && rows[j] == r[i];
      assert rows[j] == RowFor(users[j], acc);
    }
    forall u | u in users
      ensures RowFor(u, acc) in r
    {
      var j :| 0 <= j < |users| && users[j] == u;
      assert rows[j] == RowFor(u, acc);
    }
  }

  /** No two directory entries share an id. */
  ghost predicate IdsDistinct(users: seq<User>) {
    forall i, j :: 0 <= i < j < |users| ==> users[i].id != users[j].id
  }

  /** With distinct directory ids, every user appears in exactly one row. */
  lemma GlobalLeaderboardListsEachUserOnce(users: seq<User>, store: seq<Timer>, year: int)
    requires IdsDistinct(users)
    ensures var r := GlobalLeaderboard(users, store, year);
            forall i, j :: 0 <= i < j < |r| ==> r[i].user.id != r[j].user.id
  {
    var acc := FinalStats(store, year);
    var rows := DirectoryRows(users, acc);
    var r := Ranking(rows);
    assert Distinct(rows) by {
      forall i, j | 0 <= i < j < |rows|
        ensures rows[i] != rows[j]
      {
        assert rows[i].user == users[i] && rows[j].user == users[j];
      }
    }
    DistinctPermutation(r, rows);
    SortedRowsKeepDirectory(users, acc, r);
    forall i, j | 0 <= i < j < |r|
      ensures r[i].user.id != r[j].user.id
    {
      assert r[i] != r[j];
      var a :| 0 <= a < |users| && users[a] == r[i].user;
      var b :| 0 <= b < |users| && users[b] == r[j].user;
      assert a != b;
    }
    assert r == GlobalLeaderboard(users, store, year);
  }

  // ---------------------------------------------------------------------------
  // What the accumulator holds

  function AwardTo(u: UserId): Award -> bool {
    (a: Award) => a.userId == u
  }

  function EntryBy(u: UserId): Entry -> bool {
    (e: Entry) => e.timer.userId == u
  }

  /** `t` is a completed timer of user `u` in `year` for one of `slots`. */
  function CompletedIn(u: UserId, year: int, slots: seq<Slot>): Timer -> bool {
    (t: Timer) => t.userId == u && t.year == year && t.Completed() && Slot(t.day, t.star) in slots
  }

  /** `t` is a completed timer of user `u` in `year` for a day in 1..25 and a star in 1..2. */
  function CountsToward(u: UserId, year: int): Timer -> bool {
    (t: Timer) => t.userId == u && t.year == year && t.Completed() && 1 <= t.day <= 25 && 1 <= t.star <= 2
  }

  /** The sum of one part of the awards that go to user `u`. */
  function TotalTo(awards: seq<Award>, u: UserId, part: Award -> int): int
    decreases |awards|
  {
    if |awards| == 0 then 0
    else (if awards[0].userId == u then part(awards[0]) else 0) + TotalTo(awards[1..], u, part)
  }

  lemma {:induction false} TotalToAppend(a: seq<Award>, b: seq<Award>, u: UserId, part: Award -> int)
    ensures TotalTo(a + b, u, part) == TotalTo(a, u, part) + TotalTo(b, u, part)
    decreases |a|
  {
    if |a| > 0 {
      assert (a + b)[1..] == a[1..] + b;
      TotalToAppend(a[1..], b, u, part);
    } else {
      assert a + b == b;
    }
  }

  /** Crediting a sequence of awards adds, to each user's stats, one star per award to
      that user and the points and medals of those awards. */
  lemma {:induction false} ApplyAwardsTotals(acc: Acc, awards: seq<Award>, u: UserId)
    ensures var before, after := Lookup(acc, u), Lookup(ApplyAwards(acc, awards), u);
            && after.score == before.score + TotalTo(awards, u, PointsOf)
            && after.stars == before.stars + |Filter(awards, AwardTo(u))|
            && after.golds == before.golds + TotalTo(awards, u, GoldOf)
            && after.silvers == before.silvers + TotalTo(awards, u, SilverOf)
            && after.bronzes == before.bronzes + TotalTo(awards, u, BronzeOf)
    decreases |awards|
  {
    if |awards| > 0 {
      ApplyAwardsTotals(Credit(acc, awards[0]), awards[1..], u);
    }
  }

  /** The awards of the given slots' leaderboards, slot after slot. */
  function SlotAwards(store: seq<Timer>, year: int, slots: seq<Slot>): seq<Award>
    decreases |slots|
  {
    if |slots| == 0 then [] else Awards(Board(store, year, slots[0])) + SlotAwards(store, year, slots[1..])
  }

  lemma {:induction false} ApplyAwardsAppend(acc: Acc, a: seq<Award>, b: seq<Award>)
    ensures ApplyAwards(acc, a + b) == ApplyAwards(ApplyAwards(acc, a), b)
    decreases |a|
  {
    if |a| > 0 {
      assert (a + b)[1..] == a[1..] + b;
      ApplyAwardsAppend(Credit(acc, a[0]), a[1..], b);
    } else {
      assert a + b == b;
    }
  }

  /** The scoring loop credits the awards of every visited leaderboard in visiting order. */
  lemma {:induction false} AccumulateAppliesSlotAwards(store: seq<Timer>, year: int, slots: seq<Slot>, acc: Acc)
    ensures Accumulate(store, year, slots, acc) == ApplyAwards(acc, SlotAwards(store, year, slots))
    decreases |slots|
  {
    if |slots| > 0 {
      var first := Awards(Board(store, year, slots[0]));
      AccumulateAppliesSlotAwards(store, year, slots[1..], ApplyAwards(acc, first));
      ApplyAwardsAppend(acc, first, SlotAwards(store, year, slots[1..]));
    }
  }

  lemma {:induction false} PointsFromPosition(board: seq<Entry>, i: int, k: int, u: UserId)
    requires 0 <= i <= |board| && 0 <= k < |board| && board[k].timer.userId == u
    requires forall j :: 0 <= j < |board| && j != k ==> board[j].timer.userId != u
    ensures TotalTo(AwardsFrom(board, i), u, PointsOf) == if i <= k then |board| - k else 0
    decreases |board| - i
  {
    if i < |board| {
      PointsFromPosition(board, i + 1, k, u);
      var awards := AwardsFrom(board, i);
      assert awards[0] == AwardAt(board, i) && awards[1..] == AwardsFrom(board, i + 1);
      if i == k {
        assert awards[0].userId == u && PointsOf(awards[0]) == |board| - k;
      } else {
        assert awards[0].userId != u;
      }
    }
  }

  /** A user who holds exactly one position `k` of a leaderboard of N finishers earns
      N - k points from it. */
  lemma BoardPoints(board: seq<Entry>, k: int, u: UserId)
    requires 0 <= k < |board| && board[k].timer.userId == u
    requires forall j :: 0 <= j < |board| && j != k ==> board[j].timer.userId != u
    ensures TotalTo(Awards(board), u, PointsOf) == |board| - k
  {
    PointsFromPosition(board, 0, k, u);
  }

  /** Over some slots, starting from nothing, a user's stats are the totals of the awards
      that user won: their points, their number and their medals. */
  lemma AccumulateTotals(store: seq<Timer>, year: int, slots: seq<Slot>, u: UserId)
    ensures var s, awards := Lookup(Accumulate(store, year, slots, map[]), u), SlotAwards(store, year, slots);
            && s.score == TotalTo(awards, u, PointsOf)
            && s.stars == |Filter(awards, AwardTo(u))|
            && s.golds == TotalTo(awards, u, GoldOf)
            && s.silvers == TotalTo(awards, u, SilverOf)
            && s.bronzes == TotalTo(awards, u, BronzeOf)
  {
    AccumulateAppliesSlotAwards(store, year, slots, map[]);
    ApplyAwardsTotals(map[], SlotAwards(store, year, slots), u);
  }

  /** A user's final stats are the totals of the awards that user won over the year. */
  lemma FinalStatsTotals(store: seq<Timer>, year: int, u: UserId)
    ensures var s, awards := Lookup(FinalStats(store, year), u), SlotAwards(store, year, Slots());
            && s.score == TotalTo(awards, u, PointsOf)
            && s.stars == |Filter(awards, AwardTo(u))|
            && s.golds == TotalTo(awards, u, GoldOf)
            && s.silvers == TotalTo(awards, u, SilverOf)
            && s.bronzes == TotalTo(awards, u, BronzeOf)
  {
    AccumulateTotals(store, year, Slots(), u);
  }

  /** The medal of position `k` (0 gold, 1 silver, 2 bronze) of an award. */
  function MedalOf(k: int): Award -> int {
    if k == 0 then GoldOf else if k == 1 then SilverOf else BronzeOf
  }

  /** User `u` holds position `k` of the slot's leaderboard. */
  function Placed(store: seq<Timer>, year: int, u: UserId, k: int): Slot -> bool {
    (slot: Slot) => var b := Board(store, year, slot); 0 <= k < |b| && b[k].timer.userId == u
  }

  lemma {:induction false} MedalFrom(board: seq<Entry>, i: int, u: UserId, k: int)
    requires 0 <= i <= |board| && 0 <= k <= 2
    ensures TotalTo(AwardsFrom(board, i), u, MedalOf(k)) == if i <= k < |board| && board[k].timer.userId == u then 1 else 0
    decreases |board| - i
  {
    if i < |board| {
      MedalFrom(board, i + 1, u, k);
      assert AwardsFrom(board, i)[1..] == AwardsFrom(board, i + 1);
    }
  }

  /** Over some slots, a user wins one medal of a colour per leaderboard they place at
      that colour's position on. */
  lemma {:induction false} SlotMedals(store: seq<Timer>, year: int, slots: seq<Slot>, u: UserId, k: int)
    requires 0 <= k <= 2
    ensures TotalTo(SlotAwards(store, year, slots), u, MedalOf(k)) == |Filter(slots, Placed(store, year, u, k))|
    decreases |slots|
  {
    if |slots| > 0 {
      var board := Board(store, year, slots[0]);
      SlotMedals(store, year, slots[1..], u, k);
      MedalFrom(board, 0, u, k);
      TotalToAppend(Awards(board), SlotAwards(store, year, slots[1..]), u, MedalOf(k));
    }
  }

  /** A user's golds, silvers and bronzes count the leaderboards of the year on which they
      finished first, second and third. */
  lemma FinalMedals(store: seq<Timer>, year: int, u: UserId)
    ensures var s := Lookup(FinalStats(store, year), u);
            && s.golds == |Filter(Slots(), Placed(store, year, u, 0))|
            && s.silvers == |Filter(Slots(), Placed(store, year, u, 1))|
            && s.bronzes == |Filter(Slots(), Placed(store, year, u, 2))|
  {
    var slots := Slots();
    FinalStatsTotals(store, year, u);
    SlotMedals(store, year, slots, u, 0);
    SlotMedals(store, year, slots, u, 1);
    SlotMedals(store, year, slots, u, 2);
  }

  /** The position of `u`'s first entry on a leaderboard, or its length when `u` has none. */
  function PositionOf(board: seq<Entry>, u: UserId): (k: nat)
    ensures k <= |board|
    ensures k < |board| ==> board[k].timer.userId == u
    ensures forall j :: 0 <= j < k ==> board[j].timer.userId != u
  {
    if |board| == 0 || board[0].timer.userId == u then 0
    else 1 + PositionOf(board[1..], u)
  }

  /** The points a slot's leaderboard of N finishers gives `u`, who finished it at most
      once: N minus their position, and nothing when they did not finish. */
  function PointsOn(store: seq<Timer>, year: int, u: UserId): Slot -> int {
    (slot: Slot) => var b := Board(store, year, slot); |b| - PositionOf(b, u)
  }

  /** The sum of `f` over the slots. */
  function SumOver(slots: seq<Slot>, f: Slot -> int): int
    decreases |slots|
  {
    if |slots| == 0 then 0 else f(slots[0]) + SumOver(slots[1..], f)
  }

  lemma {:induction false} PointsFromAbsent(board: seq<Entry>, i: int, u: UserId)
    requires 0 <= i <= |board|
    requires forall j :: i <= j < |board| ==> board[j].timer.userId != u
    ensures TotalTo(AwardsFrom(board, i), u, PointsOf) == 0
    decreases |board| - i
  {
    if i < |board| {
      PointsFromAbsent(board, i + 1, u);
      var awards := AwardsFrom(board, i);
      assert awards[0] == AwardAt(board, i) && awards[1..] == AwardsFrom(board, i + 1);
    }
  }

  /** A user with at most one entry on a leaderboard of N finishers earns N minus their
      position from it, and nothing when absent. */
  lemma BoardPointsOnce(board: seq<Entry>, u: UserId)
    requires |Filter(board, EntryBy(u))| <= 1
    ensures TotalTo(Awards(board), u, PointsOf) == |board| - PositionOf(board, u)
  {
    var k := PositionOf(board, u);
    if k == |board| {
      PointsFromAbsent(board, 0, u);
    } else {
      forall j | 0 <= j < |board| && j != k
        ensures board[j].timer.userId != u
      {
        if k < j && board[j].timer.userId == u {
          FilterTwoPositions(board, EntryBy(u), k, j);
          assert false;
        }
      }
      BoardPoints(board, k, u);
    }
  }

  /** With one timer per key, a user appears at most once on each leaderboard. */
  lemma BoardOncePerUser(store: seq<Timer>, year: int, slot: Slot, u: UserId)
    requires KeysUnique(store)
    ensures |Filter(Board(store, year, slot), EntryBy(u))| <= 1
  {
    var board := Board(store, year, slot);
    BoardStars(store, year, slot, u);
    AwardsFromUsers(board, 0, u);
    assert board[0..] == board;
    OneTimerPerSlot(store, u, year, slot);
  }

  /** With one timer per key, the points a user wins over some slots are the sum, over
      those slots, of N minus their position on each leaderboard they finished. */
  lemma {:induction false} SlotPoints(store: seq<Timer>, year: int, slots: seq<Slot>, u: UserId)
    requires KeysUnique(store)
    ensures TotalTo(SlotAwards(store, year, slots), u, PointsOf) == SumOver(slots, PointsOn(store, year, u))
    decreases |slots|
  {
    if |slots| > 0 {
      var board := Board(store, year, slots[0]);
      SlotPoints(store, year, slots[1..], u);
      BoardOncePerUser(store, year, slots[0], u);
      BoardPointsOnce(board, u);
      TotalToAppend(Awards(board), SlotAwards(store, year, slots[1..]), u, PointsOf);
    }
  }

  /** With one timer per key, a user's final score sums, over the year's leaderboards they
      finished, the number of finishers minus their position. */
  lemma FinalPoints(store: seq<Timer>, year: int, u: UserId)
    requires KeysUnique(store)
    ensures Lookup(FinalStats(store, year), u).score == SumOver(Slots(), PointsOn(store, year, u))
  {
    FinalStatsTotals(store, year, u);
    SlotPoints(store, year, Slots(), u);
  }

  lemma {:induction false} AwardsFromUsers(board: seq<Entry>, i: int, u: UserId)
    requires 0 <= i <= |board|
    ensures |Filter(AwardsFrom(board, i), AwardTo(u))| == |Filter(board[i..], EntryBy(u))|
    decreases |board| - i
  {
    if i < |board| {
      AwardsFromUsers(board, i + 1, u);
      assert board[i..][1..] == board[i + 1..];
    }
  }

  function OwnedBy(u: UserId): Timer -> bool {
    (t: Timer) => t.userId == u
  }

  /** Counting entries by user is counting their timers by user. */
  lemma {:induction false} EntriesByUser(entries: seq<Entry>, u: UserId)
    ensures |Filter(entries, EntryBy(u))| == |Filter(TimersOf(entries), OwnedBy(u))|
  {
    if |entries| > 0 {
      assert TimersOf(entries)[1..] == TimersOf(entries[1..]);
      EntriesByUser(entries[1..], u);
    }
  }

  /** A user's entries in a star's selection are that user's completed timers of the slot. */
  lemma TimersForDayUsers(store: seq<Timer>, year: int, slot: Slot, u: UserId)
    ensures |Filter(TimersForDay(store, year, slot.day, Some(slot.star)), EntryBy(u))|
         == |Filter(store, CompletedIn(u, year, [slot]))|
  {
    var selected := SelectedBy(year, slot.day, Some(slot.star));
    var mine := CompletedIn(u, year, [slot]);
    EntriesByUser(TimersForDay(store, year, slot.day, Some(slot.star)), u);
    forall i | 0 <= i < |store|
      ensures mine(store[i]) == (selected(store[i]) && OwnedBy(u)(store[i]))
    {
      var t := store[i];
      assert (Slot(t.day, t.star) in [slot]) == (t.day == slot.day && t.star == slot.star);
    }
    FilterTwice(store, selected, OwnedBy(u), mine);
  }

  /** The stars one slot's leaderboard gives `u` are `u`'s completed timers for that slot. */
  lemma BoardStars(store: seq<Timer>, year: int, slot: Slot, u: UserId)
    ensures |Filter(Awards(Board(store, year, slot)), AwardTo(u))| == |Filter(store, CompletedIn(u, year, [slot]))|
  {
    var board := Board(store, year, slot);
    AwardsFromUsers(board, 0, u);
    assert board[0..] == board;
    InsertionSortCount(TimersForDay(store, year, slot.day, Some(slot.star)), Duration, EntryBy(u));
    TimersForDayUsers(store, year, slot, u);
  }

  lemma {:induction false} AccumulateStars(store: seq<Timer>, year: int, slots: seq<Slot>, acc: Acc, u: UserId)
    requires Distinct(slots)
    ensures Lookup(Accumulate(store, year, slots, acc), u).stars
         == Lookup(acc, u).stars + |Filter(store, CompletedIn(u, year, slots))|
    decreases |slots|
  {
    if |slots| == 0 {
      FilterNone(store, CompletedIn(u, year, slots));
    } else {
      var awards := Awards(Board(store, year, slots[0]));
      assert Distinct(slots[1..]);
      AccumulateStars(store, year, slots[1..], ApplyAwards(acc, awards), u);
      ApplyAwardsTotals(acc, awards, u);
      BoardStars(store, year, slots[0], u);
      assert slots == [slots[0]] + slots[1..];
      assert slots[0] !in slots[1..];
      FilterCountSplit(store, CompletedIn(u, year, slots), CompletedIn(u, year, [slots[0]]), CompletedIn(u, year, slots[1..]));
    }
  }

  /** The scoring loop visits each day 1..25 with each star 1..2, and nothing else. */
  lemma SlotsCover(slot: Slot)
    ensures slot in Slots() <==> 1 <= slot.day <= 25 && 1 <= slot.star <= 2
  {
    if 1 <= slot.day <= 25 && 1 <= slot.star <= 2 {
      assert Slots()[2 * (slot.day - 1) + slot.star - 1] == slot;
    }
  }

  /** The scoring loop visits no leaderboard twice. */
  lemma SlotsDistinct()
    ensures Distinct(Slots())
  {
    var s := Slots();
    forall i, j | 0 <= i < j < |s|
      ensures s[i] != s[j]
    {
      assert s[i] == Slot(1 + i / 2, i % 2 + 1) && s[j] == Slot(1 + j / 2, j % 2 + 1);
    }
  }

  /** A user's stars are the number of their completed timers of the year for days
      1..25 and stars 1..2. */
  lemma StarsCountCompletedTimers(store: seq<Timer>, year: int, u: UserId)
    ensures Lookup(FinalStats(store, year), u).stars == |Filter(store, CountsToward(u, year))|
    ensures |Filter(store, CompletedIn(u, year, Slots()))| == |Filter(store, CountsToward(u, year))|
  {
    SlotsDistinct();
    AccumulateStars(store, year, Slots(), map[], u);
    SlotsSelectCountedTimers(store, year, u);
  }

  /** Completing one of the visited leaderboards is the same as counting toward the year. */
  lemma SlotsSelectCountedTimers(store: seq<Timer>, year: int, u: UserId)
    ensures Filter(store, CompletedIn(u, year, Slots())) == Filter(store, CountsToward(u, year))
  {
    var slots := Slots();
    forall i | 0 <= i < |store|
      ensures CompletedIn(u, year, slots)(store[i]) == CountsToward(u, year)(store[i])
    {
      SlotsCover(Slot(store[i].day, store[i].star));
    }
    FilterSamePredicate(store, CompletedIn(u, year, slots), CountsToward(u, year));
  }

  /** The stats of a user holding at least one star: at least one point per star and
      at most one medal per star. */
  predicate SoundStats(s: Stats) {
    && 1 <= s.stars <= s.score
    && 0 <= s.golds && 0 <= s.silvers && 0 <= s.bronzes
    && s.golds + s.silvers + s.bronzes <= s.stars
  }

  ghost predicate SoundAcc(acc: Acc) {
    forall u :: u in acc ==> SoundStats(acc[u])
  }

  lemma {:induction false} ApplyAwardsSound(acc: Acc, awards: seq<Award>)
    requires SoundAcc(acc)
    requires forall k :: 0 <= k < |awards| ==> SoundAward(awards[k])
    ensures SoundAcc(ApplyAwards(acc, awards))
    decreases |awards|
  {
    if |awards| > 0 {
      ApplyAwardsSound(Credit(acc, awards[0]), awards[1..]);
    }
  }

  lemma {:induction false} AccumulateSound(store: seq<Timer>, year: int, slots: seq<Slot>, acc: Acc)
    requires SoundAcc(acc)
    ensures SoundAcc(Accumulate(store, year, slots, acc))
    decreases |slots|
  {
    if |slots| > 0 {
      var awards := Awards(Board(store, year, slots[0]));
      AwardsShape(Board(store, year, slots[0]));
      ApplyAwardsSound(acc, awards);
      AccumulateSound(store, year, slots[1..], ApplyAwards(acc, awards));
    }
  }

  /** With one timer per key, a user has at most one completed timer per slot. */
  lemma {:induction false} OneTimerPerSlot(store: seq<Timer>, u: UserId, year: int, slot: Slot)
    requires KeysUnique(store)
    ensures |Filter(store, CompletedIn(u, year, [slot]))| <= 1
  {
    if |store| > 0 {
      var p := CompletedIn(u, year, [slot]);
      assert KeysUnique(store[1..]);
      OneTimerPerSlot(store[1..], u, year, slot);
      if p(store[0]) {
        forall i | 0 <= i < |store[1..]|
          ensures !p(store[1..][i])
        {
          assert store[1..][i] == store[i + 1];
          assert store[0].Key() != store[i + 1].Key();
        }
        FilterNone(store[1..], p);
      }
    }
  }

  lemma {:induction false} StarsPerSlot(store: seq<Timer>, u: UserId, year: int, slots: seq<Slot>)
    requires KeysUnique(store)
    ensures |Filter(store, CompletedIn(u, year, slots))| <= |slots|
    decreases |slots|
  {
    if |slots| == 0 {
      FilterNone(store, CompletedIn(u, year, slots));
    } else {
      StarsPerSlot(store, u, year, slots[1..]);
      OneTimerPerSlot(store, u, year, slots[0]);
      assert slots == [slots[0]] + slots[1..];
      FilterCountCover(store, CompletedIn(u, year, slots), CompletedIn(u, year, [slots[0]]), CompletedIn(u, year, slots[1..]));
    }
  }

  /** A user's final stats: one star per completed timer of the year in days 1..25 and
      stars 1..2, at most one medal per star, at least one point per star, and with one
      timer per key at most 50 stars. */
  lemma UserStats(store: seq<Timer>, year: int, u: UserId)
    ensures var s := Lookup(FinalStats(store, year), u);
            && s.stars == |Filter(store, CountsToward(u, year))|
            && 0 <= s.golds && 0 <= s.silvers && 0 <= s.bronzes
            && s.golds + s.silvers + s.bronzes <= s.stars <= s.score
            && (KeysUnique(store) ==> s.stars <= 50)
  {
    StarsCountCompletedTimers(store, year, u);
    AccumulateSound(store, year, Slots(), map[]);
    if KeysUnique(store) {
      StarsPerSlot(store, u, year, Slots());
    }
  }

  /** Every row of the year-wide leaderboard carries sound stats: its stars count the
      user's completed timers, its three medal counts add up to at most its stars, and
      its stars are at most its score. */
  lemma GlobalRowsStats(users: seq<User>, store: seq<Timer>, year: int)
    ensures var r := GlobalLeaderboard(users, store, year);
            forall i :: 0 <= i < |r| ==>
              && r[i].stars == |Filter(store, CountsToward(r[i].user.id, year))|
              && |r[i].medals| == 3
              && 0 <= r[i].medals[0] && 0 <= r[i].medals[1] && 0 <= r[i].medals[2]
              && r[i].medals[0] + r[i].medals[1] + r[i].medals[2] <= r[i].stars <= r[i].score
              && (KeysUnique(store) ==> r[i].stars <= 50)
  {
    var r := GlobalLeaderboard(users, store, year);
    forall i | 0 <= i < |r|
      ensures && r[i].stars == |Filter(store, CountsToward(r[i].user.id, year))|
              && |r[i].medals| == 3
              && 0 <= r[i].medals[0] && 0 <= r[i].medals[1] && 0 <= r[i].medals[2]
              && r[i].medals[0] + r[i].medals[1] + r[i].medals[2] <= r[i].stars <= r[i].score
              && (KeysUnique(store) ==> r[i].stars <= 50)
    {
      UserStats(store, year, r[i].user.id);
    }
  }

  /** A directory user without completed timers that year gets an all-zero row. */
  lemma IdleUserRow(users: seq<User>, store: seq<Timer>, year: int, u: User)
    requires u in users
    requires forall i :: 0 <= i < |store| ==> !CountsToward(u.id, year)(store[i])
    ensures Row(u, 0, 0, [0, 0, 0]) in GlobalLeaderboard(users, store, year)
  {
    StarsCountCompletedTimers(store, year, u.id);
    FilterNone(store, CountsToward(u.id, year));
    AccumulateSound(store, year, Slots(), map[]);
    assert u.id !in FinalStats(store, year);
  }
}
