// The per-column falling-gem ring buffers (SDLGame/Board.h:103-130,
// SDLGame/Board.cpp:526-593). Each column owns RowsPlusOne slots and a head
// (start) and tail (end) index; a gem is enqueued at `end` and the head moves
// on when a gem lands. The functions here act on one column's slots and
// indices; the board applies them to the column they belong to.
module FallQueue {
  import opened BoardConfig

  /**
   * A gem in free fall. The source keeps a float pixel position and a speed;
   * here the position is the grid row the gem is in (negative above the
   * board). Its x position is always its column's tile centre, so the column
   * is the buffer it sits in.
   */
  datatype FallingGem = FallingGem(row: int, color: int)

  /** What fills a slot before anything is enqueued into it. */
  const UnusedSlot: FallingGem := FallingGem(-1, 0)

  /** A column's slots as init sizes them, before anything is enqueued. */
  function FreshRing(): (slots: seq<FallingGem>)
    ensures IsRing(slots) && forall k :: 0 <= k < |slots| ==> slots[k] == UnusedSlot
  {
    seq(RowsPlusOne, k => UnusedSlot)
  }

  predicate IsRingIndex(i: int)
  {
    0 <= i < RowsPlusOne
  }

  predicate IsRing(slots: seq<FallingGem>)
  {
    |slots| == RowsPlusOne
  }

  /** addFallingGem: write at `end`, then advance `end` modulo RowsPlusOne. */
  function Enqueue(slots: seq<FallingGem>, end: int, gem: FallingGem): (r: (seq<FallingGem>, int))
    requires IsRing(slots) && IsRingIndex(end)
    ensures IsRing(r.0) && IsRingIndex(r.1)
    ensures r.0[end] == gem
    ensures forall k :: 0 <= k < RowsPlusOne && k != end ==> r.0[k] == slots[k]
    ensures r.1 == (end + 1) % RowsPlusOne
  {
    (slots[end := gem], (end + 1) % RowsPlusOne)
  }

  /** The effect of enqueueing `gems` one after the other, first one first. */
  function EnqueueAll(slots: seq<FallingGem>, end: int, gems: seq<FallingGem>): (r: (seq<FallingGem>, int))
    requires IsRing(slots) && IsRingIndex(end)
    ensures IsRing(r.0) && IsRingIndex(r.1)
    ensures r.1 == (end + |gems|) % RowsPlusOne
    decreases |gems|
  {
    if gems == [] then (slots, end)
    else
      var prev := EnqueueAll(slots, end, gems[..|gems| - 1]);
      RingSucc(end + |gems| - 1);
      Enqueue(prev.0, prev.1, gems[|gems| - 1])
  }

  /** Advancing a ring index once more is advancing the count once more, modulo RowsPlusOne. */
  lemma RingSucc(a: int)
    ensures (a % RowsPlusOne + 1) % RowsPlusOne == (a + 1) % RowsPlusOne
  {
  }

  /** The ring `slots` with tail `end` is slots0 with tail end0 after the gems were enqueued. */
  predicate EnqueuedAll(slots0: seq<FallingGem>, end0: int, gems: seq<FallingGem>, slots: seq<FallingGem>, end: int)
    requires IsRing(slots0) && IsRingIndex(end0)
  {
    var r := EnqueueAll(slots0, end0, gems);
    slots == r.0 && end == r.1
  }

  lemma EnqueueAllSnoc(slots: seq<FallingGem>, end: int, gems: seq<FallingGem>, gem: FallingGem)
    requires IsRing(slots) && IsRingIndex(end)
    ensures var prev := EnqueueAll(slots, end, gems);
            EnqueueAll(slots, end, gems + [gem]) == Enqueue(prev.0, prev.1, gem)
  {
    assert (gems + [gem])[..|gems|] == gems;
  }

  /**
   * The number of pending gems, as update and updateFallingGems compute it:
   * the tail, lifted by RowsPlusOne when it has wrapped below the head, minus the head.
   */
  function PendingCount(start: int, end: int): (n: int)
    requires IsRingIndex(start) && IsRingIndex(end)
    ensures 0 <= n < RowsPlusOne
    ensures n == (end - start) % RowsPlusOne
  {
    (if end < start then end + RowsPlusOne else end) - start
  }

  /** The pending gems, oldest first: the slots from the head up to the tail. */
  function Pending(slots: seq<FallingGem>, start: int, end: int): (p: seq<FallingGem>)
    requires IsRing(slots) && IsRingIndex(start) && IsRingIndex(end)
    ensures |p| == PendingCount(start, end)
  {
    seq(PendingCount(start, end), k requires 0 <= k < PendingCount(start, end) =>
      slots[(start + k) % RowsPlusOne])
  }

  /** While a column holds fewer than Rows gems, enqueueing appends at the back of the queue. */
  lemma EnqueueAppends(slots: seq<FallingGem>, start: int, end: int, gem: FallingGem)
    requires IsRing(slots) && IsRingIndex(start) && IsRingIndex(end)
    requires PendingCount(start, end) < Rows
    ensures var r := Enqueue(slots, end, gem);
            PendingCount(start, r.1) == PendingCount(start, end) + 1 &&
            Pending(r.0, start, r.1) == Pending(slots, start, end) + [gem]
  {
    var r := Enqueue(slots, end, gem);
    var n := PendingCount(start, end);
    RingOffset(start, n);
    RingOffset(start, n + 1);
    assert r.1 == (start + n + 1) % RowsPlusOne;
    var p, q := Pending(slots, start, end), Pending(r.0, start, r.1);
    forall k | 0 <= k < n
      ensures q[k] == p[k]
    {
      RingOffset(start, k);
    }
  }

  /** The slot k places after `start`, without the modulus. */
  lemma RingOffset(start: int, k: int)
    requires IsRingIndex(start) && 0 <= k < RowsPlusOne
    ensures (start + k) % RowsPlusOne == if start + k < RowsPlusOne then start + k else start + k - RowsPlusOne
  {
  }

  /** Enqueueing a whole list in order keeps first-in-first-out order, in a column with room for it. */
  lemma {:induction false} EnqueueAllAppends(slots: seq<FallingGem>, start: int, end: int, gems: seq<FallingGem>)
    requires IsRing(slots) && IsRingIndex(start) && IsRingIndex(end)
    requires PendingCount(start, end) + |gems| <= Rows
    ensures var r := EnqueueAll(slots, end, gems);
            PendingCount(start, r.1) == PendingCount(start, end) + |gems| &&
            Pending(r.0, start, r.1) == Pending(slots, start, end) + gems
    decreases |gems|
  {
    if gems != [] {
      var init := gems[..|gems| - 1];
      EnqueueAllAppends(slots, start, end, init);
      var prev := EnqueueAll(slots, end, init);
      EnqueueAppends(prev.0, start, prev.1, gems[|gems| - 1]);
      assert init + [gems[|gems| - 1]] == gems;
    }
  }

  /** A landing advances the head: the oldest pending gem leaves the queue. */
  function AdvanceStart(start: int): (s: int)
    requires IsRingIndex(start)
    ensures IsRingIndex(s)
  {
    (start + 1) % RowsPlusOne
  }

  lemma AdvanceStartDequeues(slots: seq<FallingGem>, start: int, end: int)
    requires IsRing(slots) && IsRingIndex(start) && IsRingIndex(end)
    requires PendingCount(start, end) > 0
    ensures PendingCount(AdvanceStart(start), end) == PendingCount(start, end) - 1
    ensures Pending(slots, AdvanceStart(start), end) == Pending(slots, start, end)[1..]
  {
    var s := AdvanceStart(start);
    var p, q := Pending(slots, start, end), Pending(slots, s, end);
    forall k | 0 <= k < |q|
      ensures q[k] == p[1..][k]
    {
      assert (s + k) % RowsPlusOne == (start + (k + 1)) % RowsPlusOne;
    }
  }

  /**
   * The head index moves on even when the queue is empty: a landing with no
   * pending gem leaves the column looking full (RowsPlusOne - 1 pending).
   */
  lemma AdvanceStartOnEmptyWraps(start: int)
    requires IsRingIndex(start)
    ensures PendingCount(AdvanceStart(start), start) == Rows
  {
  }

  /** With the queue full (Rows pending), one more enqueue makes the column look empty. */
  lemma EnqueueWhenFullEmpties(slots: seq<FallingGem>, start: int, end: int, gem: FallingGem)
    requires IsRing(slots) && IsRingIndex(start) && IsRingIndex(end)
    requires PendingCount(start, end) == Rows
    ensures PendingCount(start, Enqueue(slots, end, gem).1) == 0
  {
  }
}
