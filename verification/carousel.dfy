/** The featured-artworks carousel: the prev/next buttons move the track to
    the card before or after the one nearest the scroll offset, wrapping at
    both ends, and an autoplay interval advances it while the pointer and
    focus are elsewhere. Card offsets are whole pixels, already rounded. */
module Carousel {
  import opened Values

  function Abs(x: int): nat {
    if x < 0 then -x else x
  }

  /** Card `i` is the one the scan settles on: no card is nearer the scroll
      offset, and every card before it is strictly farther (a tie keeps the
      earlier card, since only a smaller delta replaces the current one). */
  predicate IsNearest(lefts: seq<int>, scroll: int, i: int) {
    && 0 <= i < |lefts|
    && (forall j :: 0 <= j < |lefts| ==> Abs(lefts[i] - scroll) <= Abs(lefts[j] - scroll))
    && (forall j :: 0 <= j < i ==> Abs(lefts[i] - scroll) < Abs(lefts[j] - scroll))
  }

  /** The `forEach` scan of `scrollByCards` over the card offsets, starting
      from an infinite smallest delta. With no cards the index stays 0. */
  method CurrentIndex(lefts: seq<int>, scroll: int) returns (idx: nat)
    ensures |lefts| == 0 ==> idx == 0
    ensures |lefts| > 0 ==> IsNearest(lefts, scroll, idx)
  {
    idx := 0;
    var smallest: Option<nat> := None;
    var k := 0;
    while k < |lefts|
      invariant 0 <= k <= |lefts|
      invariant smallest.None? <==> k == 0
      invariant k == 0 ==> idx == 0
      invariant k > 0 ==> idx < k && smallest == Some(Abs(lefts[idx] - scroll))
      invariant k > 0 ==> forall j :: 0 <= j < k ==> Abs(lefts[idx] - scroll) <= Abs(lefts[j] - scroll)
      invariant forall j :: 0 <= j < idx ==> Abs(lefts[idx] - scroll) < Abs(lefts[j] - scroll)
    {
      var delta := Abs(lefts[k] - scroll);
      if smallest.None? || delta < smallest.value {
        smallest := Some(delta);
        idx := k;
      }
      k := k + 1;
    }
  }

  /** The scan's answer is determined: two indices that both satisfy the
      rule are the same. */
  lemma NearestUnique(lefts: seq<int>, scroll: int, i: int, j: int)
    requires IsNearest(lefts, scroll, i) && IsNearest(lefts, scroll, j)
    ensures i == j
  {
    var di, dj := Abs(lefts[i] - scroll), Abs(lefts[j] - scroll);
    assert di <= dj && dj <= di;
    assert i < j ==> dj < di;
    assert j < i ==> di < dj;
  }

  /** When the track rests exactly on a card whose offset no earlier card
      shares, that card is the current one. */
  lemma RestingCardIsCurrent(lefts: seq<int>, i: int)
    requires 0 <= i < |lefts|
    requires forall j :: 0 <= j < i ==> lefts[j] != lefts[i]
    ensures IsNearest(lefts, lefts[i], i)
  {
  }

  /** `direction === 'next' ? 1 : -1`: any other direction moves back. */
  function Step(direction: string): int {
    if direction == "next" then 1 else -1
  }

  /** `(currentIndex + increment + cards.length) % cards.length`. The
      dividend is never negative, so JavaScript's `%` agrees with the
      Euclidean one. */
  function NextIndex(i: int, n: int, direction: string): (r: int)
    requires 0 <= i < n
    ensures 0 <= r < n
    ensures direction == "next" ==> r == (if i == n - 1 then 0 else i + 1)
    ensures direction != "next" ==> r == (if i == 0 then n - 1 else i - 1)
  {
    (i + Step(direction) + n) % n
  }

  /** 'next' then 'prev' returns to the starting card, and so does 'prev'
      then 'next'. */
  lemma NextThenPrev(i: int, n: int)
    requires 0 <= i < n
    ensures NextIndex(NextIndex(i, n, "next"), n, "prev") == i
    ensures NextIndex(NextIndex(i, n, "prev"), n, "next") == i
  {
  }

  /** Going 'next' `k` times from card `i`. */
  function Advance(i: int, n: int, k: nat): (r: int)
    requires 0 <= i < n
    ensures 0 <= r < n
    decreases k
  {
    if k == 0 then i else NextIndex(Advance(i, n, k - 1), n, "next")
  }

  /** Before the last card is passed, each press moves one card on. */
  lemma {:induction false} AdvanceInside(i: int, n: int, k: nat)
    requires 0 <= i && i + k < n
    ensures Advance(i, n, k) == i + k
    decreases k
  {
    if k > 0 {
      AdvanceInside(i, n, k - 1);
    }
  }

  /** Pressing `a` times and then `b` times is pressing `a + b` times. */
  lemma {:induction false} AdvanceCompose(i: int, n: int, a: nat, b: nat)
    requires 0 <= i < n
    ensures Advance(i, n, a + b) == Advance(Advance(i, n, a), n, b)
    decreases b
  {
    if b > 0 {
      AdvanceCompose(i, n, a, b - 1);
    }
  }

  /** `n` presses of 'next' bring the carousel back to the card it started
      on, passing through the wrap from the last card to the first. */
  lemma FullTurn(i: int, n: int)
    requires 0 <= i < n
    ensures Advance(i, n, n) == i
  {
    AdvanceInside(i, n, n - i - 1);
    assert Advance(i, n, n - i) == 0;
    AdvanceInside(0, n, i);
    AdvanceCompose(i, n, n - i, i);
  }

  /** `scrollByCards(direction)`: the offset the track is scrolled to, or
      `None` when there are no cards. */
  method ScrollByCards(lefts: seq<int>, scroll: int, direction: string) returns (target: Option<int>)
    ensures |lefts| == 0 <==> target.None?
    ensures target.Some? ==> exists i :: IsNearest(lefts, scroll, i) && target.value == lefts[NextIndex(i, |lefts|, direction)]
  {
    if |lefts| == 0 {
      return None;
    }
    var current := CurrentIndex(lefts, scroll);
    target := Some(lefts[NextIndex(current, |lefts|, direction)]);
  }

  // ---------------------------------------------------------------------
  // Autoplay

  /** The autoplay timer, the ids `setInterval` has issued so far, and the
      intervals the browser is running. */
  datatype Autoplay = Autoplay(timer: Option<nat>, issued: nat, running: set<nat>)

  const Initial := Autoplay(None, 0, {})

  /** No interval runs except the one the timer holds. */
  predicate NoLeak(s: Autoplay) {
    s.running == (if s.timer.Some? then {s.timer.value} else {})
  }

  /** `startAutoplay`: a set timer is left alone; otherwise a new interval
      is started and kept. */
  function Start(s: Autoplay): (r: Autoplay)
    ensures r.timer.Some?
    ensures s.timer.Some? ==> r == s
    ensures NoLeak(s) ==> NoLeak(r)
  {
    if s.timer.Some? then s
    else
      var id := s.issued + 1;
      Autoplay(Some(id), id, s.running + {id})
  }

  /** `stopAutoplay`: with no timer nothing happens; otherwise the interval
      is cleared and the timer forgotten. */
  function Stop(s: Autoplay): (r: Autoplay)
    ensures r.timer.None?
    ensures s.timer.None? ==> r == s
    ensures NoLeak(s) ==> NoLeak(r) && r.running == {}
  {
    if s.timer.None? then s
    else Autoplay(None, s.issued, s.running - {s.timer.value})
  }

  /** Starting twice is starting once, stopping twice is stopping once, and
      stopping after starting leaves nothing running. */
  lemma AutoplayIdempotent(s: Autoplay)
    ensures Start(Start(s)) == Start(s)
    ensures Stop(Stop(s)) == Stop(s)
    ensures NoLeak(s) ==> Stop(Start(s)).running == {}
  {
  }

  /** The hover, focus and button events, in any order, never leave more
      than the one interval the timer holds. */
  datatype Event = MouseEnter | MouseLeave | FocusIn | FocusOut | Press

  /** What an event does to the timer; a button press resets autoplay, and
      the delayed restart is taken as having fired. */
  function OnEvent(s: Autoplay, e: Event): Autoplay {
    match e
    case MouseEnter => Stop(s)
    case FocusIn => Stop(s)
    case MouseLeave => Start(s)
    case FocusOut => Start(s)
    case Press => Start(Stop(s))
  }

  function Replay(s: Autoplay, es: seq<Event>): Autoplay
    decreases |es|
  {
    if |es| == 0 then s else Replay(OnEvent(s, es[0]), es[1..])
  }

  lemma {:induction false} ReplayNoLeak(s: Autoplay, es: seq<Event>)
    requires NoLeak(s)
    ensures NoLeak(Replay(s, es))
    decreases |es|
  {
    if |es| > 0 {
      ReplayNoLeak(OnEvent(s, es[0]), es[1..]);
    }
  }
}
