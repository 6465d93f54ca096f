/** The code-sharing endpoints: publishing a solution, reading and listing solutions
    with their likes and the caller's `liked` flag, and toggling a like. */
module Share {
  import opened Outcomes
  import opened Seqs
  import opened Timers

  type SolutionId = string

  /** The natural key of a shared solution: one per user, day, year and star. */
  datatype SolutionKey = SolutionKey(userId: UserId, day: int, year: int, star: int)

  datatype Solution = Solution(id: SolutionId, userId: UserId, year: int, day: int, star: int,
                               code: string, description: Option<string>)
  {
    function Key(): SolutionKey {
      SolutionKey(userId, day, year, star)
    }
  }

  /** A like of a solution by a user. The database keeps at most one per solution and
      user, so the likes form a set. */
  datatype Like = Like(solutionId: SolutionId, userId: UserId)

  datatype Comment = Comment(id: string, solutionId: SolutionId, userId: UserId, content: string)

  /** A solution as `get` returns it: with its likes, its comments and the caller's flag. */
  datatype Detail = Detail(solution: Solution, likes: set<Like>, comments: seq<Comment>, liked: bool)

  /** A solution as `list` returns it: counts in place of its comments and likes. */
  datatype Listing = Listing(solution: Solution, comments: nat, likes: nat, liked: bool)

  /** What `publish` leaves behind: all solutions after the upsert, and the one written. */
  datatype Published = Published(solutions: seq<Solution>, solution: Solution)

  const NotFound := "Code solution not found"

  // ---------------------------------------------------------------------------
  // Likes and comments of a solution

  /** The likes of one solution. */
  function LikesOf(likes: set<Like>, id: SolutionId): (r: set<Like>)
    ensures r <= likes
    ensures forall l :: l in r <==> l in likes && l.solutionId == id
  {
    set l | l in likes && l.solutionId == id
  }

  /** `liked`: whether some like of the solution is by the session user. */
  function Liked(likes: set<Like>, id: SolutionId, session: UserId): (r: bool)
    ensures r <==> Like(id, session) in likes
  {
    exists l :: l in LikesOf(likes, id) && l.userId == session
  }

  function CommentOn(id: SolutionId): Comment -> bool {
    (c: Comment) => c.solutionId == id
  }

  /** The comments of one solution, in store order. */
  function CommentsOf(comments: seq<Comment>, id: SolutionId): seq<Comment> {
    Filter(comments, CommentOn(id))
  }

  // ---------------------------------------------------------------------------
  // get and list

  function ByUserOnDay(userId: UserId, year: int, day: int): Solution -> bool {
    (s: Solution) => s.userId == userId && s.year == year && s.day == day
  }

  function OnDay(year: int, day: int): Solution -> bool {
    (s: Solution) => s.year == year && s.day == day
  }

  /** `get`: a user's solutions of one day, each with its likes, its comments and
      whether the session user likes it. */
  function Get(solutions: seq<Solution>, likes: set<Like>, comments: seq<Comment>,
               userId: UserId, year: int, day: int, session: UserId): (r: seq<Detail>)
    ensures |r| == |Filter(solutions, ByUserOnDay(userId, year, day))|
    ensures forall i :: 0 <= i < |r| ==> r[i].solution == Filter(solutions, ByUserOnDay(userId, year, day))[i]
    ensures forall i :: 0 <= i < |r| ==>
              && r[i].solution in solutions
              && r[i].solution.userId == userId && r[i].solution.year == year && r[i].solution.day == day
              && r[i].likes == LikesOf(likes, r[i].solution.id)
              && r[i].comments == CommentsOf(comments, r[i].solution.id)
              && (r[i].liked <==> Like(r[i].solution.id, session) in likes)
    ensures forall s :: s in solutions && s.userId == userId && s.year == year && s.day == day ==>
              exists i :: 0 <= i < |r| && r[i].solution == s
  {
    var picked := Filter(solutions, ByUserOnDay(userId, year, day));
    var r := seq(|picked|, i requires 0 <= i < |picked| =>
      Detail(picked[i], LikesOf(likes, picked[i].id), CommentsOf(comments, picked[i].id),
             Liked(likes, picked[i].id, session)));
    assert forall i :: 0 <= i < |r| ==> r[i].solution == picked[i];
    assert forall s :: s in solutions && s.userId == userId && s.year == year && s.day == day ==> s in picked;
    r
  }

  /** `list`: the solutions of one day from every user, with the number of comments and
      likes in place of the comments and likes themselves. */
  function List(solutions: seq<Solution>, likes: set<Like>, comments: seq<Comment>,
                year: int, day: int, session: UserId): (r: seq<Listing>)
    ensures |r| == |Filter(solutions, OnDay(year, day))|
    ensures forall i :: 0 <= i < |r| ==> r[i].solution == Filter(solutions, OnDay(year, day))[i]
    ensures forall i :: 0 <= i < |r| ==>
              && r[i].solution in solutions
              && r[i].solution.year == year && r[i].solution.day == day
              && r[i].comments == |CommentsOf(comments, r[i].solution.id)|
              && r[i].likes == |LikesOf(likes, r[i].solution.id)|
              && (r[i].liked <==> Like(r[i].solution.id, session) in likes)
    ensures forall s :: s in solutions && s.year == year && s.day == day ==>
              exists i :: 0 <= i < |r| && r[i].solution == s
  {
    var picked := Filter(solutions, OnDay(year, day));
    var r := seq(|picked|, i requires 0 <= i < |picked| =>
      Listing(picked[i], |CommentsOf(comments, picked[i].id)|, |LikesOf(likes, picked[i].id)|,
              Liked(likes, picked[i].id, session)));
    assert forall i :: 0 <= i < |r| ==> r[i].solution == picked[i];
    assert forall s :: s in solutions && s.year == year && s.day == day ==> s in picked;
    r
  }

  // ---------------------------------------------------------------------------
  // toggleLike

  /** Some stored solution has the given id. */
  predicate Exists(solutions: seq<Solution>, id: SolutionId) {
    exists i :: 0 <= i < |solutions| && solutions[i].id == id
  }

  /** `toggleLike`: fails for an unknown solution; otherwise removes the session user's
      like when there is one and adds it when there is none. */
  function ToggleLike(solutions: seq<Solution>, likes: set<Like>, id: SolutionId, session: UserId): (r: Result<set<Like>>)
    ensures r.Err? <==> !Exists(solutions, id)
    ensures r.Err? ==> r.message == NotFound
    ensures r.Ok? ==> (Like(id, session) in r.value <==> Like(id, session) !in likes)
    ensures r.Ok? ==> forall l :: l != Like(id, session) ==> (l in r.value <==> l in likes)
  {
    if !Exists(solutions, id) then Err(NotFound)
    else
      var like := Like(id, session);
      if like in likes then Ok(likes - {like}) else Ok(likes + {like})
  }

  /** Toggling twice restores the likes. */
  lemma ToggleTwice(solutions: seq<Solution>, likes: set<Like>, id: SolutionId, session: UserId)
    requires Exists(solutions, id)
    ensures ToggleLike(solutions, likes, id, session).Ok?
    ensures ToggleLike(solutions, ToggleLike(solutions, likes, id, session).value, id, session) == Ok(likes)
  {
    var once := ToggleLike(solutions, likes, id, session).value;
    var twice := ToggleLike(solutions, once, id, session).value;
    assert twice == likes;
  }

  /** A toggle flips the caller's `liked` flag and moves the solution's like count by one. */
  lemma ToggleFlipsLiked(solutions: seq<Solution>, likes: set<Like>, id: SolutionId, session: UserId)
    requires Exists(solutions, id)
    ensures var after := ToggleLike(solutions, likes, id, session).value;
            && Liked(after, id, session) == !Liked(likes, id, session)
            && |LikesOf(after, id)| == |LikesOf(likes, id)| + (if Liked(likes, id, session) then -1 else 1)
  {
    var like := Like(id, session);
    var after := ToggleLike(solutions, likes, id, session).value;
    if like in likes {
      assert LikesOf(after, id) == LikesOf(likes, id) - {like};
    } else {
      assert LikesOf(after, id) == LikesOf(likes, id) + {like};
    }
  }

  // ---------------------------------------------------------------------------
  // publish

  /** No two solutions share a key. */
  ghost predicate SolutionKeysUnique(solutions: seq<Solution>) {
    forall i, j :: 0 <= i < j < |solutions| ==> solutions[i].Key() != solutions[j].Key()
  }

  /** The index of the first solution with key `k`, if any. */
  function FindKey(solutions: seq<Solution>, k: SolutionKey): (r: Option<nat>)
    ensures r.None? <==> forall i :: 0 <= i < |solutions| ==> solutions[i].Key() != k
    ensures r.Some? ==> r.value < |solutions| && solutions[r.value].Key() == k
    ensures r.Some? ==> forall i :: 0 <= i < r.value ==> solutions[i].Key() != k
  {
    if |solutions| == 0 then None
    else if solutions[0].Key() == k then Some(0)
    else match FindKey(solutions[1..], k)
      case None => None
      case Some(i) => Some(i + 1)
  }

  /** `publish`: an upsert on the key (session user, day, year, star). An existing
      solution gets the new code, and the new description when one is given (an absent
      description leaves the stored one alone); otherwise a new solution with all the
      given fields is appended under `freshId`, the id the database generates. */
  function Publish(solutions: seq<Solution>, session: UserId, year: int, day: int, star: int,
                   code: string, description: Option<string>, freshId: SolutionId): (r: Published)
    ensures var k := SolutionKey(session, day, year, star);
            match FindKey(solutions, k)
            case Some(i) =>
              && |r.solutions| == |solutions|
              && r.solution == solutions[i].(code := code, description := if description.Some? then description else solutions[i].description)
              && r.solutions[i] == r.solution
              && forall j :: 0 <= j < |solutions| && j != i ==> r.solutions[j] == solutions[j]
            case None =>
              && r.solution == Solution(freshId, session, year, day, star, code, description)
              && r.solutions == solutions + [r.solution]
    ensures r.solution.Key() == SolutionKey(session, day, year, star) && r.solution.code == code
    ensures SolutionKeysUnique(solutions) ==> SolutionKeysUnique(r.solutions)
  {
    var k := SolutionKey(session, day, year, star);
    match FindKey(solutions, k)
    case Some(i) =>
      var stored := solutions[i];
      var updated := stored.(code := code, description := if description.Some? then description else stored.description);
      Published(solutions[i := updated], updated)
    case None =>
      var created := Solution(freshId, session, year, day, star, code, description);
      Published(solutions + [created], created)
  }

  /** After a publish the key holds exactly one solution, when it held at most one before. */
  lemma PublishOnePerKey(solutions: seq<Solution>, session: UserId, year: int, day: int, star: int,
                         code: string, description: Option<string>, freshId: SolutionId)
    requires SolutionKeysUnique(solutions)
    ensures var r := Publish(solutions, session, year, day, star, code, description, freshId);
            exists i :: 0 <= i < |r.solutions| && r.solutions[i] == r.solution
    ensures var r := Publish(solutions, session, year, day, star, code, description, freshId);
            forall i :: 0 <= i < |r.solutions| && r.solutions[i].Key() == SolutionKey(session, day, year, star) ==>
              r.solutions[i] == r.solution
  {
    var r := Publish(solutions, session, year, day, star, code, description, freshId);
    var k := SolutionKey(session, day, year, star);
    match FindKey(solutions, k)
    case Some(i) =>
      assert r.solutions[i] == r.solution;
    case None =>
      assert r.solutions[|solutions|] == r.solution;
  }

  /** Publishing the same content twice leaves the solutions as publishing it once. */
  lemma PublishIdempotent(solutions: seq<Solution>, session: UserId, year: int, day: int, star: int,
                          code: string, description: Option<string>, freshId: SolutionId, otherId: SolutionId)
    ensures var once := Publish(solutions, session, year, day, star, code, description, freshId);
            Publish(once.solutions, session, year, day, star, code, description, otherId) == once
  {
    var k := SolutionKey(session, day, year, star);
    var once := Publish(solutions, session, year, day, star, code, description, freshId);
    match FindKey(solutions, k)
    case Some(i) =>
      assert forall j :: 0 <= j < i ==> once.solutions[j].Key() != k;
      assert FindKey(once.solutions, k) == Some(i);
      assert once.solutions[i := once.solution] == once.solutions;
    case None =>
      var found := FindKey(once.solutions, k);
      assert once.solutions[|solutions|].Key() == k;
      assert found.Some?;
      if found.value < |solutions| {
        assert false;
      }
      assert once.solutions[|solutions| := once.solution] == once.solutions;
  }
}
