/** The puzzle endpoints: the `text` endpoint's `<main>` slice and its timer step,
    and the classification of the page returned for a submitted answer. The pages
    themselves come from the network and are parameters here. */
module Aoc {
  import opened Outcomes
  import opened JsStrings
  import opened Timers

  const MainOpen := "<main>"
  const MainClose := "</main>"
  /** The first word of the page served for a puzzle that has not unlocked yet. */
  const NotUnlocked := "Please"
  const FetchFailed := "Could not fetch text"

  /** What the `text` endpoint returns: the puzzle text and how many stars are solved. */
  datatype Info = Info(text: string, stars: nat)

  /** The endpoint's reply together with the timer store after its step. */
  datatype TextReply = TextReply(info: Info, store: seq<Timer>)

  // ---------------------------------------------------------------------------
  // The <main> slice

  /** The `<main>` element of a puzzle page, cut out with `indexOf` and `substring`. */
  function MainSlice(page: string): (r: string)
    ensures exists a, b :: 0 <= a <= b <= |page| && r == page[a..b]
  {
    var start, end := IndexOf(page, MainOpen), IndexOf(page, MainClose) + |MainClose|;
    var r := Substring(page, start, end);
    var a, b := Clamp(start, |page|), Clamp(end, |page|);
    if a <= b then
      assert r == page[a..b];
      r
    else
      assert r == page[b..a];
      r
  }

  /** `<main>` and `</main>` cannot overlap: a `</main>` at or after a `<main>` begins
      after it ends. */
  lemma TagsApart(page: string, i: int, j: int)
    requires OccursAt(page, MainOpen, i) && OccursAt(page, MainClose, j) && i <= j
    ensures i + |MainOpen| <= j
  {
    if j < i + |MainOpen| {
      // `</main>` puts '<' at j and '/' at j + 1, where `<main>` has neither
      OccursAtChar(page, MainClose, j, 0);
      OccursAtChar(page, MainOpen, i, j - i);
      if j == i {
        OccursAtChar(page, MainClose, j, 1);
        OccursAtChar(page, MainOpen, i, 1);
      }
      assert false;
    }
  }

  /** With both tags present, the first `<main>` before the first `</main>`, the slice
      runs from the one to the end of the other. */
  lemma MainSliceBothTags(page: string)
    requires Contains(page, MainOpen) && Contains(page, MainClose)
    requires IndexOf(page, MainOpen) <= IndexOf(page, MainClose)
    ensures var r := MainSlice(page);
            && r == page[IndexOf(page, MainOpen)..IndexOf(page, MainClose) + |MainClose|]
            && |r| >= |MainOpen| + |MainClose|
            && r[..|MainOpen|] == MainOpen
            && r[|r| - |MainClose|..] == MainClose
  {
    var i := IndexOf(page, MainOpen);
    var j := IndexOf(page, MainClose);
    TagsApart(page, i, j);
    var r := page[i..j + |MainClose|];
    assert r[..|MainOpen|] == page[i..i + |MainOpen|];
    assert r[|r| - |MainClose|..] == page[j..j + |MainClose|];
  }

  /** With neither tag present, the slice is the first six characters of the page. */
  lemma MainSliceNoTags(page: string)
    requires !Contains(page, MainOpen) && !Contains(page, MainClose)
    ensures MainSlice(page) == page[..if |page| < 6 then |page| else 6]
  {
  }

  // ---------------------------------------------------------------------------
  // The timer step

  /** Stops `t` at `now` when it is the open timer with key `k`; leaves it alone otherwise. */
  function Stop(t: Timer, k: TimerKey, now: int): Timer {
    if t.Key() == k && !t.Completed() then t.(stopTime := Some(now)) else t
  }

  /** The step the `text` endpoint takes after reading `stars` solved stars off the page:
      unless both stars are solved, it opens a timer for the next star if there is none,
      and it stops the open timer of the star just solved. New timers start at `now`. */
  function TimerStep(store: seq<Timer>, userId: UserId, day: int, year: int, stars: nat, now: int): (r: seq<Timer>)
    ensures |store| <= |r| <= |store| + 1
    ensures stars < 2 ==> HasTimer(r, TimerKey(userId, day, year, stars + 1))
    ensures stars >= 2 ==> |r| == |store|
    ensures |r| == |store| + 1 ==>
              && !HasTimer(store, TimerKey(userId, day, year, stars + 1))
              && r[|store|] == Timer(userId, day, year, stars + 1, now, None)
    ensures forall i :: 0 <= i < |store| && store[i].Completed() ==> r[i] == store[i]
    ensures forall i :: 0 <= i < |store| && store[i].Key() != TimerKey(userId, day, year, stars) ==> r[i] == store[i]
    ensures forall i :: 0 <= i < |store| && store[i].Key() == TimerKey(userId, day, year, stars) && !store[i].Completed() ==>
              r[i] == store[i].(stopTime := Some(now))
    ensures KeysUnique(store) ==> KeysUnique(r)
  {
    var next := TimerKey(userId, day, year, stars + 1);
    var withNext := if stars < 2 && !HasTimer(store, next) then store + [Timer(userId, day, year, stars + 1, now, None)] else store;
    var solved := TimerKey(userId, day, year, stars);
    var r := seq(|withNext|, i requires 0 <= i < |withNext| => Stop(withNext[i], solved, now));
    assert forall i :: 0 <= i < |r| ==> r[i].Key() == withNext[i].Key();
    assert stars < 2 && !HasTimer(store, next) ==> r[|store|].Key() == next;
    r
  }

  /** Running the step again with the same solved-star count changes nothing, whatever
      the clock says the second time. */
  lemma TimerStepIdempotent(store: seq<Timer>, userId: UserId, day: int, year: int, stars: nat, now: int, later: int)
    ensures var once := TimerStep(store, userId, day, year, stars, now);
            TimerStep(once, userId, day, year, stars, later) == once
  {
    var once := TimerStep(store, userId, day, year, stars, now);
    var twice := TimerStep(once, userId, day, year, stars, later);
    var solved := TimerKey(userId, day, year, stars);
    assert forall i :: 0 <= i < |once| && once[i].Key() == solved ==> once[i].Completed();
  }

  /** The `text` endpoint: fails with "Could not fetch text" when the page is the
      not-yet-unlocked notice, and otherwise returns the puzzle text and takes the
      timer step. */
  function Text(page: string, stars: nat, store: seq<Timer>, userId: UserId, day: int, year: int, now: int): (r: Result<TextReply>)
    ensures r.Err? <==> MainSlice(page) == NotUnlocked
    ensures r.Err? ==> r.message == FetchFailed
    ensures r.Ok? ==> r.value == TextReply(Info(MainSlice(page), stars), TimerStep(store, userId, day, year, stars, now))
  {
    var text := MainSlice(page);
    if text == NotUnlocked then Err(FetchFailed)
    else Ok(TextReply(Info(text, stars), TimerStep(store, userId, day, year, stars, now)))
  }

  /** A page without a `<main>` element that starts with "Please" makes the endpoint fail. */
  lemma LockedPageFails(page: string, stars: nat, store: seq<Timer>, userId: UserId, day: int, year: int, now: int)
    requires !Contains(page, MainOpen) && !Contains(page, MainClose)
    requires |page| >= 6 && page[..6] == NotUnlocked
    ensures Text(page, stars, store, userId, day, year, now) == Err(FetchFailed)
  {
    MainSliceNoTags(page);
  }

  // ---------------------------------------------------------------------------
  // The answer page

  const ArticleOpen := "<article>"
  const ArticleClose := "</article>"
  const RightAnswer := "That's the right answer"
  const WrongAnswer := "That's not the right answer"

  /** What the `answer` endpoint makes of the page returned for a submission. */
  datatype Verdict = Verdict(correct: bool, incorrect: bool, message: string)

  /** The text between the first `<article>` and the first `</article>`, with the first
      `<article>` tag removed. */
  function ArticleOf(response: string): (r: string)
    ensures |r| <= |response|
    ensures !Contains(response, ArticleOpen) && !Contains(response, ArticleClose) ==> r == ""
  {
    ReplaceFirst(Substring(response, IndexOf(response, ArticleOpen), IndexOf(response, ArticleClose)), ArticleOpen, "")
  }

  /** The article is correct when it says "That's the right answer" and incorrect when it
      says "That's not the right answer". */
  function Answer(response: string): (r: Verdict)
    ensures r.message == ArticleOf(response)
    ensures r.correct <==> Contains(r.message, RightAnswer)
    ensures r.incorrect <==> Contains(r.message, WrongAnswer)
  {
    var article := ArticleOf(response);
    Verdict(Contains(article, RightAnswer), Contains(article, WrongAnswer), article)
  }

  /** The article of a page holding one `<article>` element is that element's content. */
  lemma ArticleOfElement(x: string, post: string)
    requires !Contains(ArticleOpen + x, ArticleClose)
    ensures ArticleOf(ArticleOpen + x + ArticleClose + post) == x
  {
    var response := ArticleOpen + x + ArticleClose + post;
    var m := |ArticleOpen| + |x|;
    assert OccursAt(response, ArticleOpen, 0) by {
      assert response[..|ArticleOpen|] == ArticleOpen;
    }
    assert IndexOf(response, ArticleOpen) == 0;
    assert OccursAt(response, ArticleClose, m) by {
      assert response[m..m + |ArticleClose|] == ArticleClose;
    }
    forall i | 0 <= i < m
      ensures !OccursAt(response, ArticleClose, i)
    {
      if i + |ArticleClose| <= m {
        assert response[i..i + |ArticleClose|] == (ArticleOpen + x)[i..i + |ArticleClose|];
        assert !OccursAt(ArticleOpen + x, ArticleClose, i);
      } else {
        // the window would hold the '<' of the closing tag at an offset of 1..9, but
        // "</article>" has '<' only at offset 0
        assert response[m] == '<';
        assert '<' !in ArticleClose[1..];
      }
    }
    assert IndexOf(response, ArticleClose) == m;
    assert Substring(response, 0, m) == ArticleOpen + x;
  }

  /** The rejection phrase has its only capital T in front. */
  lemma NoCapitalTAfterFirst(i: int)
    requires 1 <= i < |WrongAnswer|
    ensures WrongAnswer[i] != 'T'
  {
    assert 'T' !in WrongAnswer[1..];
    assert WrongAnswer[1..][i - 1] == WrongAnswer[i];
  }

  /** The rejection phrase does not contain the acceptance phrase. */
  lemma RejectionLacksAcceptance()
    ensures !Contains(WrongAnswer, RightAnswer)
  {
    forall i | 0 <= i <= |WrongAnswer| - |RightAnswer|
      ensures !OccursAt(WrongAnswer, RightAnswer, i)
    {
      if OccursAt(WrongAnswer, RightAnswer, i) {
        if i == 0 {
          // "That's n…" against "That's t…"
          OccursAtChar(WrongAnswer, RightAnswer, 0, 7);
        } else {
          // the acceptance phrase starts with the only capital T of the rejection
          OccursAtChar(WrongAnswer, RightAnswer, i, 0);
          NoCapitalTAfterFirst(i);
        }
        assert false;
      }
    }
  }

  /** An article holding only the rejection is classified incorrect and not correct. */
  lemma RejectionIsNotCorrect(post: string)
    ensures Answer(ArticleOpen + WrongAnswer + ArticleClose + post) == Verdict(false, true, WrongAnswer)
  {
    MissingCharacter(ArticleOpen + WrongAnswer, ArticleClose, 1);
    ArticleOfElement(WrongAnswer, post);
    RejectionLacksAcceptance();
    assert OccursAt(WrongAnswer, WrongAnswer, 0);
  }

  /** A page without an article is neither correct nor incorrect. */
  lemma NoArticleNoVerdict(response: string)
    requires !Contains(response, ArticleOpen) && !Contains(response, ArticleClose)
    ensures Answer(response) == Verdict(false, false, "")
  {
  }
}
