// The swap animator's two pools (SDLGame/Board.h:35-101, SDLGame/Board.cpp:16-29,
// 383-440, 745-774): the vector of moving gems and the vector of gem pairs,
// which refer to each other by index. Both vectors hold their elements by
// value (removeElement copies the last element over the removed one), so the
// elements are datatypes and every operation returns the new vectors.
module SwapPool {
  import opened BoardConfig
  import opened Geometry

  // ---------------------------------------------------------------------------
  // SwappingGemsPair

  const NotFinished: int := 0
  const OtherGemChained: int := 1
  const OtherGemDidntChain: int := 2

  datatype SwappingGemsPair = SwappingGemsPair(returning: bool, pairState: int, gem1Idx: int, gem2Idx: int)
  {
    predicate IsReturning() { returning }
    predicate HasFinished() { pairState != NotFinished }
    predicate HasChained() { pairState == OtherGemChained }

    function SetGem1Idx(idx: int): (p: SwappingGemsPair)
      ensures p.gem1Idx == idx && p.gem2Idx == gem2Idx
      ensures p.returning == returning && p.pairState == pairState
    {
      this.(gem1Idx := idx)
    }

    function SetGem2Idx(idx: int): (p: SwappingGemsPair)
      ensures p.gem2Idx == idx && p.gem1Idx == gem1Idx
      ensures p.returning == returning && p.pairState == pairState
    {
      this.(gem2Idx := idx)
    }

    function SetIsReturning(): (p: SwappingGemsPair)
      ensures p.IsReturning()
      ensures p.pairState == pairState && p.gem1Idx == gem1Idx && p.gem2Idx == gem2Idx
    {
      this.(returning := true)
    }

    /** Records the first-arriving gem's chain result: the pair has finished and remembers it. */
    function SetHasChained(hasChained: bool): (p: SwappingGemsPair)
      ensures p.HasFinished() && p.HasChained() == hasChained
      ensures p.returning == returning && p.gem1Idx == gem1Idx && p.gem2Idx == gem2Idx
    {
      this.(pairState := if hasChained then OtherGemChained else OtherGemDidntChain)
    }
  }

  /** The pair constructor: linked to two gem slots, not finished, not returning. */
  function NewPair(gem1Idx: int, gem2Idx: int): (p: SwappingGemsPair)
    ensures !p.HasFinished() && !p.IsReturning() && !p.HasChained()
    ensures p.gem1Idx == gem1Idx && p.gem2Idx == gem2Idx
  {
    SwappingGemsPair(false, NotFinished, gem1Idx, gem2Idx)
  }

  /** setIsReturning is sticky: no operation on a pair clears it. */
  lemma ReturningIsSticky(p: SwappingGemsPair, idx: int, hasChained: bool)
    requires p.IsReturning()
    ensures p.SetGem1Idx(idx).IsReturning() && p.SetGem2Idx(idx).IsReturning()
    ensures p.SetHasChained(hasChained).IsReturning() && p.SetIsReturning().IsReturning()
  {
  }

  // ---------------------------------------------------------------------------
  // SwappingGem

  /**
   * One half of a swap. The float position, speed and pixel target of the
   * source are left out: arrival is an explicit event of the board's update.
   */
  datatype SwappingGem = SwappingGem(moving: bool, axisX: bool, positiveDir: bool,
                                     destRow: int, destCol: int, swapPairIdx: int, color: int)
  {
    predicate HasValidPair() { swapPairIdx >= 0 }

    function InvalidatePair(): (g: SwappingGem)
      ensures !g.HasValidPair()
      ensures g.(swapPairIdx := swapPairIdx) == this
    {
      this.(swapPairIdx := -1)
    }
  }

  /**
   * The SwappingGem constructor: moving, along the axis on which the start and
   * destination pixel centres differ, toward the destination.
   */
  function NewSwappingGem(startX: int, startY: int, destX: int, destY: int,
                          swapPairIdx: int, destRow: int, destCol: int, color: int): (g: SwappingGem)
    ensures g.moving && g.swapPairIdx == swapPairIdx && g.color == color
    ensures g.destRow == destRow && g.destCol == destCol
  {
    SwappingGem(true, startY == destY, (destX - startX) + (destY - startY) > 0,
                destRow, destCol, swapPairIdx, color)
  }

  /** For two adjacent cells the gem moves along x exactly when they share a row, and positively toward a larger index. */
  lemma NewSwappingGemDirection(l: Layout, r1: int, c1: int, r2: int, c2: int, pairIdx: int, color: int)
    requires l.TileW() > 0 && l.TileH() > 0
    requires (r1 == r2 && (c2 == c1 + 1 || c2 == c1 - 1)) || (c1 == c2 && (r2 == r1 + 1 || r2 == r1 - 1))
    ensures var g := NewSwappingGem(TileCenterX(l, c1), TileCenterY(l, r1), TileCenterX(l, c2), TileCenterY(l, r2),
                                    pairIdx, r2, c2, color);
            g.axisX == (r1 == r2) && g.positiveDir == (r2 > r1 || c2 > c1)
  {
    TileCentersSameRow(l, r1, c1, r2, c2);
    var dx := TileCenterX(l, c2) - TileCenterX(l, c1);
    var dy := TileCenterY(l, r2) - TileCenterY(l, r1);
    assert dx == (c2 - c1) * l.TileW();
    assert dy == (r2 - r1) * l.TileH();
  }

  // ---------------------------------------------------------------------------
  // removeElement

  /** Swap-with-last removal: the last element moves into slot idx and the vector shrinks by one. */
  function RemoveElement<T>(v: seq<T>, idx: int): (r: seq<T>)
    requires 0 <= idx < |v|
    ensures |r| == |v| - 1
    ensures idx < |r| ==> r[idx] == v[|v| - 1]
    ensures forall k :: 0 <= k < |r| && k != idx ==> r[k] == v[k]
  {
    var last := |v| - 1;
    if last != idx then v[idx := v[last]][..last] else v[..last]
  }

  /** Exactly the element at idx leaves the vector; nothing is duplicated or lost. */
  lemma RemoveElementMultiset<T>(v: seq<T>, idx: int)
    requires 0 <= idx < |v|
    ensures multiset(RemoveElement(v, idx)) == multiset(v) - multiset{v[idx]}
  {
    var last := |v| - 1;
    assert v == v[..last] + [v[last]];
    if idx != last {
      var w := v[idx := v[last]];
      assert w == w[..last] + [v[last]];
      assert RemoveElement(v, idx) == w[..last];
      calc {
        multiset(w);
        multiset(v) - multiset{v[idx]} + multiset{v[last]};
      }
    }
  }

  // ---------------------------------------------------------------------------
  // The pair <-> gem index links

  /**
   * Every pair names two distinct gem slots that name it back, and every gem
   * with a valid pair index names a pair that lists it.
   */
  predicate Linked(gems: seq<SwappingGem>, pairs: seq<SwappingGemsPair>)
  {
    (forall p :: 0 <= p < |pairs| ==>
       0 <= pairs[p].gem1Idx < |gems| && 0 <= pairs[p].gem2Idx < |gems| &&
       pairs[p].gem1Idx != pairs[p].gem2Idx &&
       gems[pairs[p].gem1Idx].swapPairIdx == p && gems[pairs[p].gem2Idx].swapPairIdx == p) &&
    (forall i :: 0 <= i < |gems| ==>
       gems[i].swapPairIdx < |pairs| &&
       (gems[i].HasValidPair() ==>
          pairs[gems[i].swapPairIdx].gem1Idx == i || pairs[gems[i].swapPairIdx].gem2Idx == i))
  }

  /** The two gems agree on everything but their pair index. */
  predicate SameButPair(a: SwappingGem, b: SwappingGem)
  {
    a.(swapPairIdx := 0) == b.(swapPairIdx := 0)
  }

  /** releasePair as written: the moved pair's gems are re-pointed only when that pair has not finished (line 414). */
  function ReleasePairAsWritten(gems: seq<SwappingGem>, pairs: seq<SwappingGemsPair>, swapPairIdx: int)
    : (r: (seq<SwappingGem>, seq<SwappingGemsPair>))
    requires Linked(gems, pairs) && 0 <= swapPairIdx < |pairs|
    ensures r.1 == RemoveElement(pairs, swapPairIdx)
    ensures |r.0| == |gems|
    ensures forall i :: 0 <= i < |gems| ==> SameButPair(r.0[i], gems[i])
    ensures !r.0[pairs[swapPairIdx].gem1Idx].HasValidPair() && !r.0[pairs[swapPairIdx].gem2Idx].HasValidPair()
  {
    var pair := pairs[swapPairIdx];
    var g2 := Unpair(gems, pair.gem1Idx, pair.gem2Idx);
    var lastIdx := |pairs| - 1;
    var ps := RemoveElement(pairs, swapPairIdx);
    if swapPairIdx != lastIdx && !ps[swapPairIdx].HasFinished() then
      var moved := ps[swapPairIdx];
      (Repoint(g2, moved.gem1Idx, moved.gem2Idx, swapPairIdx), ps)
    else
      (g2, ps)
  }

  /**
   * releasePair with the moved pair always re-pointed: the pair leaves the
   * vector and its two gems become unpaired (ReleasePairKeepsLinks shows the
   * links stay intact).
   */
  function ReleasePair(gems: seq<SwappingGem>, pairs: seq<SwappingGemsPair>, swapPairIdx: int)
    : (r: (seq<SwappingGem>, seq<SwappingGemsPair>))
    requires Linked(gems, pairs) && 0 <= swapPairIdx < |pairs|
    ensures r.1 == RemoveElement(pairs, swapPairIdx)
    ensures |r.0| == |gems|
    ensures forall i :: 0 <= i < |gems| ==> SameButPair(r.0[i], gems[i])
  {
    var pair := pairs[swapPairIdx];
    var g2 := Unpair(gems, pair.gem1Idx, pair.gem2Idx);
    var lastIdx := |pairs| - 1;
    var ps := RemoveElement(pairs, swapPairIdx);
    if swapPairIdx != lastIdx then
      var moved := ps[swapPairIdx];
      (Repoint(g2, moved.gem1Idx, moved.gem2Idx, swapPairIdx), ps)
    else
      (g2, ps)
  }

  /** Both gems of a released pair lose their pair index. */
  function Unpair(gems: seq<SwappingGem>, a: int, b: int): (r: seq<SwappingGem>)
    requires 0 <= a < |gems| && 0 <= b < |gems|
    ensures |r| == |gems|
    ensures forall i :: 0 <= i < |gems| ==>
              r[i] == if i == a || i == b then gems[i].InvalidatePair() else gems[i]
  {
    var g1 := gems[a := gems[a].InvalidatePair()];
    g1[b := g1[b].InvalidatePair()]
  }

  /** Both gems of a pair that moved to slot p learn its new index. */
  function Repoint(gems: seq<SwappingGem>, c: int, d: int, p: int): (r: seq<SwappingGem>)
    requires 0 <= c < |gems| && 0 <= d < |gems|
    ensures |r| == |gems|
    ensures forall i :: 0 <= i < |gems| ==>
              r[i] == if i == c || i == d then gems[i].(swapPairIdx := p) else gems[i]
  {
    var g3 := gems[c := gems[c].(swapPairIdx := p)];
    g3[d := g3[d].(swapPairIdx := p)]
  }

  /**
   * Releasing a pair keeps every remaining link intact, unpairs exactly the
   * released pair's two gems, and leaves every other gem paired or not as before.
   */
  lemma ReleasePairKeepsLinks(gems: seq<SwappingGem>, pairs: seq<SwappingGemsPair>, swapPairIdx: int)
    requires Linked(gems, pairs) && 0 <= swapPairIdx < |pairs|
    ensures Linked(ReleasePair(gems, pairs, swapPairIdx).0, ReleasePair(gems, pairs, swapPairIdx).1)
    ensures forall i :: 0 <= i < |gems| ==>
              (ReleasePair(gems, pairs, swapPairIdx).0[i].HasValidPair() <==>
               gems[i].HasValidPair() && gems[i].swapPairIdx != swapPairIdx)
  {
    var p := swapPairIdx;
    var L := |pairs| - 1;
    var g2 := Unpair(gems, pairs[p].gem1Idx, pairs[p].gem2Idx);
    if p == L {
      ReleaseLastPairKeepsLinks(gems, pairs, g2);
    } else {
      ReleaseInnerPairKeepsLinks(gems, pairs, p, g2, Repoint(g2, pairs[L].gem1Idx, pairs[L].gem2Idx, p));
    }
  }

  lemma ReleaseLastPairKeepsLinks(gems: seq<SwappingGem>, pairs: seq<SwappingGemsPair>, g2: seq<SwappingGem>)
    requires Linked(gems, pairs) && |pairs| > 0
    requires g2 == Unpair(gems, pairs[|pairs| - 1].gem1Idx, pairs[|pairs| - 1].gem2Idx)
    ensures Linked(g2, pairs[..|pairs| - 1])
    ensures forall i :: 0 <= i < |gems| ==>
              (g2[i].HasValidPair() <==> gems[i].HasValidPair() && gems[i].swapPairIdx != |pairs| - 1)
  {
    var L := |pairs| - 1;
    var a, b := pairs[L].gem1Idx, pairs[L].gem2Idx;
    var ps := pairs[..L];
    forall q | 0 <= q < L
      ensures 0 <= ps[q].gem1Idx < |g2| && 0 <= ps[q].gem2Idx < |g2| && ps[q].gem1Idx != ps[q].gem2Idx
      ensures g2[ps[q].gem1Idx].swapPairIdx == q && g2[ps[q].gem2Idx].swapPairIdx == q
    {
      assert gems[pairs[q].gem1Idx].swapPairIdx == q && gems[pairs[q].gem2Idx].swapPairIdx == q;
    }
    forall i | 0 <= i < |g2|
      ensures g2[i].swapPairIdx < |ps|
      ensures g2[i].HasValidPair() ==> ps[g2[i].swapPairIdx].gem1Idx == i || ps[g2[i].swapPairIdx].gem2Idx == i
    {
    }
  }

  lemma ReleaseInnerPairKeepsLinks(gems: seq<SwappingGem>, pairs: seq<SwappingGemsPair>, p: int,
                                   g2: seq<SwappingGem>, g4: seq<SwappingGem>)
    requires Linked(gems, pairs) && 0 <= p < |pairs| - 1
    requires g2 == Unpair(gems, pairs[p].gem1Idx, pairs[p].gem2Idx)
    requires g4 == Repoint(g2, pairs[|pairs| - 1].gem1Idx, pairs[|pairs| - 1].gem2Idx, p)
    ensures Linked(g4, RemoveElement(pairs, p))
    ensures forall i :: 0 <= i < |gems| ==>
              (g4[i].HasValidPair() <==> gems[i].HasValidPair() && gems[i].swapPairIdx != p)
  {
    var L := |pairs| - 1;
    var a, b := pairs[p].gem1Idx, pairs[p].gem2Idx;
    var c, d := pairs[L].gem1Idx, pairs[L].gem2Idx;
    var ps := RemoveElement(pairs, p);
    assert gems[a].swapPairIdx == p && gems[b].swapPairIdx == p;
    assert gems[c].swapPairIdx == L && gems[d].swapPairIdx == L;
    forall q | 0 <= q < L
      ensures 0 <= ps[q].gem1Idx < |g4| && 0 <= ps[q].gem2Idx < |g4| && ps[q].gem1Idx != ps[q].gem2Idx
      ensures g4[ps[q].gem1Idx].swapPairIdx == q && g4[ps[q].gem2Idx].swapPairIdx == q
    {
      if q != p {
        var e, f := pairs[q].gem1Idx, pairs[q].gem2Idx;
        assert gems[e].swapPairIdx == q && gems[f].swapPairIdx == q;
        assert e != a && e != b && e != c && e != d;
        assert f != a && f != b && f != c && f != d;
      }
    }
    forall i | 0 <= i < |g4|
      ensures g4[i].swapPairIdx < |ps|
      ensures g4[i].HasValidPair() ==> ps[g4[i].swapPairIdx].gem1Idx == i || ps[g4[i].swapPairIdx].gem2Idx == i
      ensures g4[i].HasValidPair() <==> gems[i].HasValidPair() && gems[i].swapPairIdx != p
    {
      if i != a && i != b && i != c && i != d {
        var q := gems[i].swapPairIdx;
        assert q >= 0 ==> pairs[q].gem1Idx == i || pairs[q].gem2Idx == i;
        assert q != p && q != L;
      }
    }
  }

  /** The two agree except in the case line 414 skips: the moved pair has already finished. */
  lemma ReleasePairAsWrittenAgrees(gems: seq<SwappingGem>, pairs: seq<SwappingGemsPair>, swapPairIdx: int)
    requires Linked(gems, pairs) && 0 <= swapPairIdx < |pairs|
    requires swapPairIdx == |pairs| - 1 || !pairs[|pairs| - 1].HasFinished()
    ensures ReleasePairAsWritten(gems, pairs, swapPairIdx) == ReleasePair(gems, pairs, swapPairIdx)
  {
  }

  /**
   * Two pairs that have both finished, as happens when all four gems of two
   * swaps arrive in the same tick: releasing the first one as written leaves
   * the second pair's gems pointing at index 1, past the end of the pair vector.
   */
  lemma ReleasePairAsWrittenBreaksLinks()
    ensures var gems := [SwappingGem(false, true, true, 0, 1, 0, 0), SwappingGem(false, true, false, 0, 0, 0, 1),
                         SwappingGem(false, true, true, 5, 1, 1, 2), SwappingGem(false, true, false, 5, 0, 1, 3)];
            var pairs := [SwappingGemsPair(false, OtherGemChained, 0, 1), SwappingGemsPair(false, OtherGemChained, 2, 3)];
            Linked(gems, pairs) &&
            !Linked(ReleasePairAsWritten(gems, pairs, 0).0, ReleasePairAsWritten(gems, pairs, 0).1) &&
            Linked(ReleasePair(gems, pairs, 0).0, ReleasePair(gems, pairs, 0).1)
  {
    var gems := [SwappingGem(false, true, true, 0, 1, 0, 0), SwappingGem(false, true, false, 0, 0, 0, 1),
                 SwappingGem(false, true, true, 5, 1, 1, 2), SwappingGem(false, true, false, 5, 0, 1, 3)];
    var pairs := [SwappingGemsPair(false, OtherGemChained, 0, 1), SwappingGemsPair(false, OtherGemChained, 2, 3)];
    var r := ReleasePairAsWritten(gems, pairs, 0);
    assert r.0[2].swapPairIdx == 1 && |r.1| == 1;
    ReleasePairKeepsLinks(gems, pairs, 0);
  }

  /**
   * removeSwappingGem: the gem at idx, already unpaired, leaves the vector; the
   * last gem moves into its slot, and its pair is re-pointed from the old last
   * index to idx (RemoveSwappingGemKeepsLinks shows the links stay intact).
   */
  function RemoveSwappingGem(gems: seq<SwappingGem>, pairs: seq<SwappingGemsPair>, idx: int)
    : (r: (seq<SwappingGem>, seq<SwappingGemsPair>))
    requires Linked(gems, pairs) && 0 <= idx < |gems| && !gems[idx].HasValidPair()
    ensures r.0 == RemoveElement(gems, idx)
    ensures |r.1| == |pairs|
    ensures forall p :: 0 <= p < |pairs| ==>
              r.1[p].returning == pairs[p].returning && r.1[p].pairState == pairs[p].pairState
  {
    var lastIdx := |gems| - 1;
    var gs := RemoveElement(gems, idx);
    if idx != lastIdx && gs[idx].HasValidPair() then
      var p := gs[idx].swapPairIdx;
      var pair := pairs[p];
      if pair.gem1Idx == lastIdx then (gs, pairs[p := pair.SetGem1Idx(idx)])
      else (gs, pairs[p := pair.SetGem2Idx(idx)])
    else
      (gs, pairs)
  }

  /**
   * After removeSwappingGem every link is intact, and every pair still names
   * the same two gems, wherever they now sit.
   */
  lemma RemoveSwappingGemKeepsLinks(gems: seq<SwappingGem>, pairs: seq<SwappingGemsPair>, idx: int)
    requires Linked(gems, pairs) && 0 <= idx < |gems| && !gems[idx].HasValidPair()
    ensures Linked(RemoveSwappingGem(gems, pairs, idx).0, RemoveSwappingGem(gems, pairs, idx).1)
    ensures forall p :: 0 <= p < |pairs| ==>
              RemoveSwappingGem(gems, pairs, idx).0[RemoveSwappingGem(gems, pairs, idx).1[p].gem1Idx] == gems[pairs[p].gem1Idx] &&
              RemoveSwappingGem(gems, pairs, idx).0[RemoveSwappingGem(gems, pairs, idx).1[p].gem2Idx] == gems[pairs[p].gem2Idx]
  {
    // no pair names the unpaired gem at idx
    forall q | 0 <= q < |pairs|
      ensures pairs[q].gem1Idx != idx && pairs[q].gem2Idx != idx
    {
      assert gems[pairs[q].gem1Idx].swapPairIdx == q && gems[pairs[q].gem2Idx].swapPairIdx == q;
    }
    if idx != |gems| - 1 && gems[|gems| - 1].HasValidPair() {
      RemoveMovesPairedGem(gems, pairs, idx);
    } else {
      RemoveKeepsPairs(gems, pairs, idx);
    }
  }

  /** The case where the last gem is paired and moves into slot idx: its pair is re-pointed. */
  lemma RemoveMovesPairedGem(gems: seq<SwappingGem>, pairs: seq<SwappingGemsPair>, idx: int)
    requires Linked(gems, pairs) && 0 <= idx < |gems| - 1 && !gems[idx].HasValidPair() && gems[|gems| - 1].HasValidPair()
    requires forall q :: 0 <= q < |pairs| ==> pairs[q].gem1Idx != idx && pairs[q].gem2Idx != idx
    ensures Linked(RemoveSwappingGem(gems, pairs, idx).0, RemoveSwappingGem(gems, pairs, idx).1)
    ensures forall p :: 0 <= p < |pairs| ==>
              RemoveSwappingGem(gems, pairs, idx).0[RemoveSwappingGem(gems, pairs, idx).1[p].gem1Idx] == gems[pairs[p].gem1Idx] &&
              RemoveSwappingGem(gems, pairs, idx).0[RemoveSwappingGem(gems, pairs, idx).1[p].gem2Idx] == gems[pairs[p].gem2Idx]
  {
    var r := RemoveSwappingGem(gems, pairs, idx);
    var last := |gems| - 1;
    var m := gems[last].swapPairIdx;
    assert r.0[idx] == gems[last];
    forall q | 0 <= q < |pairs|
      ensures 0 <= r.1[q].gem1Idx < |r.0| && 0 <= r.1[q].gem2Idx < |r.0| && r.1[q].gem1Idx != r.1[q].gem2Idx
      ensures r.0[r.1[q].gem1Idx] == gems[pairs[q].gem1Idx] && r.0[r.1[q].gem2Idx] == gems[pairs[q].gem2Idx]
    {
      if q != m {
        assert pairs[q].gem1Idx != last && pairs[q].gem2Idx != last;
      }
    }
    forall i | 0 <= i < |r.0|
      ensures r.0[i].HasValidPair() ==> r.1[r.0[i].swapPairIdx].gem1Idx == i || r.1[r.0[i].swapPairIdx].gem2Idx == i
    {
      if i != idx && r.0[i].HasValidPair() {
        var q := gems[i].swapPairIdx;
        assert pairs[q].gem1Idx == i || pairs[q].gem2Idx == i;
      }
    }
  }

  /** The case where no pair is re-pointed: idx is the last slot, or the last gem is unpaired. */
  lemma RemoveKeepsPairs(gems: seq<SwappingGem>, pairs: seq<SwappingGemsPair>, idx: int)
    requires Linked(gems, pairs) && 0 <= idx < |gems| && !gems[idx].HasValidPair()
    requires !(idx != |gems| - 1 && gems[|gems| - 1].HasValidPair())
    requires forall q :: 0 <= q < |pairs| ==> pairs[q].gem1Idx != idx && pairs[q].gem2Idx != idx
    ensures Linked(RemoveSwappingGem(gems, pairs, idx).0, RemoveSwappingGem(gems, pairs, idx).1)
    ensures forall p :: 0 <= p < |pairs| ==>
              RemoveSwappingGem(gems, pairs, idx).0[RemoveSwappingGem(gems, pairs, idx).1[p].gem1Idx] == gems[pairs[p].gem1Idx] &&
              RemoveSwappingGem(gems, pairs, idx).0[RemoveSwappingGem(gems, pairs, idx).1[p].gem2Idx] == gems[pairs[p].gem2Idx]
  {
    var r := RemoveSwappingGem(gems, pairs, idx);
    assert r.1 == pairs;
    forall q | 0 <= q < |pairs|
      ensures pairs[q].gem1Idx < |r.0| && pairs[q].gem2Idx < |r.0|
    {
      assert gems[pairs[q].gem1Idx].swapPairIdx == q && gems[pairs[q].gem2Idx].swapPairIdx == q;
    }
  }

  /**
   * The pool half of swapGems: two moving gems bound for each other's cell,
   * and, when addPair is set, a pair linking their slots n and n + 1.
   */
  function StartSwap(gems: seq<SwappingGem>, pairs: seq<SwappingGemsPair>, l: Layout,
                     row1: int, col1: int, row2: int, col2: int, color1: int, color2: int, addPair: bool)
    : (r: (seq<SwappingGem>, seq<SwappingGemsPair>))
    requires Linked(gems, pairs)
    ensures Linked(r.0, r.1)
    ensures |r.0| == |gems| + 2 && r.0[..|gems|] == gems
    ensures r.0[|gems|].destRow == row2 && r.0[|gems|].destCol == col2 && r.0[|gems|].color == color1
    ensures r.0[|gems| + 1].destRow == row1 && r.0[|gems| + 1].destCol == col1 && r.0[|gems| + 1].color == color2
    ensures r.0[|gems|].moving && r.0[|gems| + 1].moving
    ensures addPair ==> r.1 == pairs + [NewPair(|gems|, |gems| + 1)] &&
                        r.0[|gems|].swapPairIdx == |pairs| == r.0[|gems| + 1].swapPairIdx
    ensures !addPair ==> r.1 == pairs && !r.0[|gems|].HasValidPair() && !r.0[|gems| + 1].HasValidPair()
  {
    var pairIdx := if addPair then |pairs| else -1;
    var ps := if addPair then pairs + [NewPair(|gems|, |gems| + 1)] else pairs;
    var x1, y1 := TileCenterX(l, col1), TileCenterY(l, row1);
    var x2, y2 := TileCenterX(l, col2), TileCenterY(l, row2);
    var gs := gems + [NewSwappingGem(x1, y1, x2, y2, pairIdx, row2, col2, color1),
                      NewSwappingGem(x2, y2, x1, y1, pairIdx, row1, col1, color2)];
    (gs, ps)
  }

  // ---------------------------------------------------------------------------
  // The pool between frames

  /** Every gem of the pool is still on its way. */
  predicate AllMoving(gems: seq<SwappingGem>)
  {
    forall k :: 0 <= k < |gems| ==> gems[k].moving
  }

  /** No pair has seen a gem arrive, and none is on its way back. */
  predicate NoneFinished(pairs: seq<SwappingGemsPair>)
  {
    forall p :: 0 <= p < |pairs| ==> !pairs[p].HasFinished() && !pairs[p].IsReturning()
  }

  /** Starting a swap keeps every gem moving and every pair unfinished. */
  lemma StartSwapKeepsQuiescent(gems: seq<SwappingGem>, pairs: seq<SwappingGemsPair>, l: Layout,
                                row1: int, col1: int, row2: int, col2: int, color1: int, color2: int, addPair: bool)
    requires Linked(gems, pairs) && AllMoving(gems) && NoneFinished(pairs)
    ensures AllMoving(StartSwap(gems, pairs, l, row1, col1, row2, col2, color1, color2, addPair).0)
    ensures NoneFinished(StartSwap(gems, pairs, l, row1, col1, row2, col2, color1, color2, addPair).1)
  {
    var r := StartSwap(gems, pairs, l, row1, col1, row2, col2, color1, color2, addPair);
    forall k | 0 <= k < |r.0|
      ensures r.0[k].moving
    {
      if k < |gems| {
        assert r.0[k] == r.0[..|gems|][k];
      }
    }
  }

  /** No pair is on its way back. */
  predicate NoneReturning(pairs: seq<SwappingGemsPair>)
  {
    forall p :: 0 <= p < |pairs| ==> !pairs[p].IsReturning()
  }

  /** A pair that has finished has a gem that has arrived. */
  predicate FinishedHaveLanded(gems: seq<SwappingGem>, pairs: seq<SwappingGemsPair>)
  {
    forall p :: 0 <= p < |pairs| && pairs[p].HasFinished() ==>
      0 <= pairs[p].gem1Idx < |gems| && 0 <= pairs[p].gem2Idx < |gems| &&
      (!gems[pairs[p].gem1Idx].moving || !gems[pairs[p].gem2Idx].moving)
  }

  /** Once every gem is moving again, no pair can have finished. */
  lemma LandedRemovedMeansQuiescent(gems: seq<SwappingGem>, pairs: seq<SwappingGemsPair>)
    requires AllMoving(gems) && FinishedHaveLanded(gems, pairs) && NoneReturning(pairs)
    ensures NoneFinished(pairs)
  {
    forall p | 0 <= p < |pairs|
      ensures !pairs[p].HasFinished()
    {
      var a, b := pairs[p].gem1Idx, pairs[p].gem2Idx;
      assert (0 <= a < |gems| ==> gems[a].moving) && (0 <= b < |gems| ==> gems[b].moving);
    }
  }

  /** The gem with its pair index blanked out: what SameButPair compares. */
  function Detached(g: SwappingGem): (d: SwappingGem)
    ensures d.moving == g.moving
  {
    g.(swapPairIdx := 0)
  }

  function DetachedAll(gems: seq<SwappingGem>): (r: seq<SwappingGem>)
    ensures |r| == |gems| && forall k :: 0 <= k < |gems| ==> r[k] == Detached(gems[k])
  {
    seq(|gems|, k requires 0 <= k < |gems| => Detached(gems[k]))
  }

  /** A gem that arrives stops moving and keeps its pair. */
  function Land(gems: seq<SwappingGem>, i: int): (r: seq<SwappingGem>)
    requires 0 <= i < |gems|
    ensures |r| == |gems| && r[i].swapPairIdx == gems[i].swapPairIdx && !r[i].moving
    ensures forall k :: 0 <= k < |gems| && k != i ==> r[k] == gems[k]
  {
    gems[i := gems[i].(moving := false)]
  }

  /** Whatever follows a landing without touching the gems but for their pairs keeps every other gem as it was, pair aside. */
  lemma DetachedAfterLanding(gems: seq<SwappingGem>, later: seq<SwappingGem>, i: int)
    requires 0 <= i < |gems| <= |later|
    requires forall k :: 0 <= k < |gems| ==> Detached(later[k]) == Detached(Land(gems, i)[k])
    ensures forall k :: 0 <= k < |gems| && k != i ==> Detached(later[k]) == Detached(gems[k])
  {
  }

  /** Landing a gem keeps every link and the two pool invariants. */
  lemma LandKeepsPool(gems: seq<SwappingGem>, pairs: seq<SwappingGemsPair>, i: int)
    requires Linked(gems, pairs) && FinishedHaveLanded(gems, pairs) && 0 <= i < |gems|
    ensures Linked(Land(gems, i), pairs) && FinishedHaveLanded(Land(gems, i), pairs)
  {
    var r := Land(gems, i);
    forall p | 0 <= p < |pairs| && pairs[p].HasFinished()
      ensures !r[pairs[p].gem1Idx].moving || !r[pairs[p].gem2Idx].moving
    {
    }
  }

  /**
   * Recording the chain result on the pair of a gem that has arrived keeps
   * the links and the pool invariants.
   */
  lemma SetHasChainedKeepsPool(gems: seq<SwappingGem>, pairs: seq<SwappingGemsPair>, i: int, hasChained: bool)
    requires Linked(gems, pairs) && FinishedHaveLanded(gems, pairs) && NoneReturning(pairs)
    requires 0 <= i < |gems| && gems[i].HasValidPair() && !gems[i].moving
    ensures var p := gems[i].swapPairIdx;
            var ps := pairs[p := pairs[p].SetHasChained(hasChained)];
            Linked(gems, ps) && FinishedHaveLanded(gems, ps) && NoneReturning(ps)
  {
  }

  /** Marking a pair returning changes no link and no pair's state. */
  lemma MarkReturningKeepsLinks(gems: seq<SwappingGem>, pairs: seq<SwappingGemsPair>, p: int)
    requires Linked(gems, pairs) && FinishedHaveLanded(gems, pairs) && 0 <= p < |pairs|
    ensures Linked(gems, pairs[p := pairs[p].SetIsReturning()])
    ensures FinishedHaveLanded(gems, pairs[p := pairs[p].SetIsReturning()])
  {
  }

  /**
   * Releasing a pair, even one just marked returning, keeps the pool
   * invariants: the released pair is gone and the pair moved into its slot
   * keeps its state and its gems.
   */
  lemma ReleasePairKeepsInvariants(gems: seq<SwappingGem>, pairs: seq<SwappingGemsPair>, p: int)
    requires Linked(gems, pairs) && FinishedHaveLanded(gems, pairs) && 0 <= p < |pairs|
    requires forall q :: 0 <= q < |pairs| && q != p ==> !pairs[q].IsReturning()
    ensures FinishedHaveLanded(ReleasePair(gems, pairs, p).0, ReleasePair(gems, pairs, p).1)
    ensures NoneReturning(ReleasePair(gems, pairs, p).1)
    ensures DetachedAll(ReleasePair(gems, pairs, p).0) == DetachedAll(gems)
  {
    var r := ReleasePair(gems, pairs, p);
    forall q | 0 <= q < |r.1|
      ensures !r.1[q].IsReturning()
      ensures r.1[q].HasFinished() ==> !r.0[r.1[q].gem1Idx].moving || !r.0[r.1[q].gem2Idx].moving
    {
      var q' := if q == p then |pairs| - 1 else q;
      assert r.1[q] == pairs[q'];
      assert SameButPair(r.0[pairs[q'].gem1Idx], gems[pairs[q'].gem1Idx]);
      assert SameButPair(r.0[pairs[q'].gem2Idx], gems[pairs[q'].gem2Idx]);
    }
    assert DetachedAll(r.0) == DetachedAll(gems);
  }

  /** Starting a swap without a pair keeps the pool invariants: the pairs are unchanged and the old gems stay where they were. */
  lemma StartUnpairedSwapKeepsInvariants(gems: seq<SwappingGem>, pairs: seq<SwappingGemsPair>, l: Layout,
                                         row1: int, col1: int, row2: int, col2: int, color1: int, color2: int)
    requires Linked(gems, pairs) && FinishedHaveLanded(gems, pairs) && NoneReturning(pairs)
    ensures var r := StartSwap(gems, pairs, l, row1, col1, row2, col2, color1, color2, false);
            FinishedHaveLanded(r.0, r.1) && NoneReturning(r.1)
  {
    var r := StartSwap(gems, pairs, l, row1, col1, row2, col2, color1, color2, false);
    forall q | 0 <= q < |pairs| && pairs[q].HasFinished()
      ensures !r.0[pairs[q].gem1Idx].moving || !r.0[pairs[q].gem2Idx].moving
    {
      assert r.0[pairs[q].gem1Idx] == r.0[..|gems|][pairs[q].gem1Idx];
      assert r.0[pairs[q].gem2Idx] == r.0[..|gems|][pairs[q].gem2Idx];
    }
  }

  /**
   * Removing a gem that has arrived keeps the links, the pool invariants and
   * every moving gem: the moving gems form the same multiset, pair indices aside.
   */
  lemma RemoveSwappingGemKeepsInvariants(gems: seq<SwappingGem>, pairs: seq<SwappingGemsPair>, idx: int)
    requires Linked(gems, pairs) && FinishedHaveLanded(gems, pairs) && NoneReturning(pairs)
    requires 0 <= idx < |gems| && !gems[idx].HasValidPair() && !gems[idx].moving
    ensures var r := RemoveSwappingGem(gems, pairs, idx);
            Linked(r.0, r.1) && FinishedHaveLanded(r.0, r.1) && NoneReturning(r.1)
    ensures var r := RemoveSwappingGem(gems, pairs, idx);
            forall x: SwappingGem :: x.moving ==> multiset(DetachedAll(r.0))[x] == multiset(DetachedAll(gems))[x]
  {
    var r := RemoveSwappingGem(gems, pairs, idx);
    RemoveSwappingGemKeepsLinks(gems, pairs, idx);
    forall q | 0 <= q < |r.1| && r.1[q].HasFinished()
      ensures !r.0[r.1[q].gem1Idx].moving || !r.0[r.1[q].gem2Idx].moving
    {
      assert r.0[r.1[q].gem1Idx] == gems[pairs[q].gem1Idx];
      assert r.0[r.1[q].gem2Idx] == gems[pairs[q].gem2Idx];
    }
    var d := DetachedAll(gems);
    assert DetachedAll(r.0) == RemoveElement(d, idx);
    RemoveElementMultiset(d, idx);
  }

  /**
   * Whether a gem that arrived without chaining fills the gap below its cell
   * itself: when it has no pair (it is coming back, or its pair was
   * released), or when its partner has already arrived and chained.
   */
  predicate SolvesFallOnLanding(gem: SwappingGem, pairs: seq<SwappingGemsPair>)
  {
    !gem.HasValidPair() ||
    (gem.swapPairIdx < |pairs| && pairs[gem.swapPairIdx].HasFinished() &&
     !pairs[gem.swapPairIdx].IsReturning() && pairs[gem.swapPairIdx].HasChained())
  }
}
