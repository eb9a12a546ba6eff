// Board-wide constants, the cell colour encoding and the countdown clock
// (SDLGame/Board.h).
module BoardConfig {
  import opened Binary32

  const Rows: int := 8
  const Cols: int := 8
  /** Capacity of each column's falling-gem ring buffer. */
  const RowsPlusOne: int := Rows + 1
  const PixelsPerMeters: int := 45
  const TotalTimeSeconds: int := 60

  /** Cell colour sentinels: any other value is a static gem colour. */
  const Empty: int := -1
  const Locked: int := -2

  /** `uint32_t` arithmetic wraps modulo 2^32. */
  const Uint32Modulus: int := 0x1_0000_0000

  /** A cell holding a gem that may chain or be selected: neither Empty nor Locked. */
  predicate IsStaticGem(color: int)
  {
    color != Empty && color != Locked
  }

  /** The central cell invariant: Empty, Locked or a gem colour below numGemTypes. */
  predicate ValidColor(color: int, numGemTypes: int)
  {
    color == Empty || color == Locked || 0 <= color < numGemTypes
  }

  lemma StaticGemIffNotSentinel(color: int, numGemTypes: int)
    requires ValidColor(color, numGemTypes)
    ensures IsStaticGem(color) <==> 0 <= color < numGemTypes
    ensures !IsStaticGem(color) <==> (color == Empty || color == Locked)
  {
  }

  /** The static_assert and derived constants of the header. */
  lemma ConstantsAreSane()
    ensures RowsPlusOne == Rows + 1
    ensures Rows > 1 && Cols > 1
    // the start/end index vectors have RowsPlusOne entries but are indexed by column
    ensures Cols <= RowsPlusOne
  {
  }

  /** 0.001f is 8589935 * 2^-33 (bit pattern 0x3A83126F): the clock's floats are numerators over 2^33. */
  const MilliNumerator: nat := 8589935
  const ClockScale: nat := 0x2_0000_0000

  /** kTotalTime_s as a numerator over 2^33. */
  const TotalNumerator: nat := TotalTimeSeconds * ClockScale

  /**
   * m_time_ms * 0.001f as a numerator over 2^33: the uint32_t converted to
   * float, multiplied by 0.001f and rounded.
   */
  function ElapsedNumerator(timeMs: nat): (e: nat)
  {
    RoundSignificand(RoundSignificand(timeMs) * MilliNumerator)
  }

  /**
   * kTotalTime_s minus the elapsed float e (a numerator over 2^33), rounded,
   * then truncated toward zero by the cast to int: a negative difference
   * truncates to a non-positive int.
   */
  function TruncatedLeft(e: nat): (left: int)
    ensures e <= TotalNumerator ==> 0 <= left <= TotalTimeSeconds
    ensures e > TotalNumerator ==> left <= 0
  {
    if e <= TotalNumerator then
      TotalIsFloat();
      RoundMonotone(TotalNumerator - e, TotalNumerator);
      RoundSignificand(TotalNumerator - e) / ClockScale
    else -(RoundSignificand(e - TotalNumerator) / ClockScale)
  }

  /** getSecondsLeft in single precision: the truncated difference, clamped at zero. */
  function SecondsLeft(timeMs: int): (s: int)
    requires 0 <= timeMs < Uint32Modulus
    ensures 0 <= s <= TotalTimeSeconds
  {
    var left := TruncatedLeft(ElapsedNumerator(timeMs));
    if left > 0 then left else 0
  }

  /** kTotalTime_s, 60, is a float: rounding leaves it as it is. */
  lemma TotalIsFloat()
    ensures RoundSignificand(TotalNumerator) == TotalNumerator
  {
    Pow2Table();
    UlpExpOf(TotalNumerator, 15);
  }

  lemma SecondsLeftBounds(timeMs: int)
    requires 0 <= timeMs < Uint32Modulus
    ensures 0 <= SecondsLeft(timeMs) <= TotalTimeSeconds
    ensures timeMs == 0 ==> SecondsLeft(timeMs) == TotalTimeSeconds
    ensures timeMs >= 1000 * TotalTimeSeconds ==> SecondsLeft(timeMs) == 0
  {
    var elapsed := ElapsedNumerator(timeMs);
    TotalIsFloat();
    if elapsed <= TotalNumerator {
      RoundMonotone(TotalNumerator - elapsed, TotalNumerator);
    }
    if timeMs == 0 {
      RoundSmall(0);
    }
    if timeMs >= 1000 * TotalTimeSeconds {
      RoundSmall(1000 * TotalTimeSeconds);
      RoundMonotone(1000 * TotalTimeSeconds, timeMs);
      RoundMonotone(TotalNumerator, RoundSignificand(timeMs) * MilliNumerator);
      RoundSmall(0);
    }
  }

  /** More milliseconds never make a smaller elapsed float. */
  lemma ElapsedMonotone(t1: nat, t2: nat)
    requires t1 <= t2
    ensures ElapsedNumerator(t1) <= ElapsedNumerator(t2)
  {
    RoundMonotone(t1, t2);
    MulLe(RoundSignificand(t1), RoundSignificand(t2), MilliNumerator);
    RoundMonotone(RoundSignificand(t1) * MilliNumerator, RoundSignificand(t2) * MilliNumerator);
  }

  /** More elapsed time never leaves more on the clock. */
  lemma TruncatedLeftMonotone(e1: nat, e2: nat)
    requires e1 <= e2
    ensures TruncatedLeft(e2) <= TruncatedLeft(e1)
  {
    if e2 <= TotalNumerator {
      RoundMonotone(TotalNumerator - e2, TotalNumerator - e1);
    } else if e1 > TotalNumerator {
      RoundMonotone(e1 - TotalNumerator, e2 - TotalNumerator);
    }
  }

  /** The clock never runs backwards: more elapsed time never shows more seconds. */
  lemma SecondsLeftMonotone(t1: int, t2: int)
    requires 0 <= t1 <= t2 < Uint32Modulus
    ensures SecondsLeft(t2) <= SecondsLeft(t1)
  {
    ElapsedMonotone(t1, t2);
    TruncatedLeftMonotone(ElapsedNumerator(t1), ElapsedNumerator(t2));
  }

  /**
   * Single precision can show one second less than exact arithmetic would:
   * at 28000 ms the elapsed float rounds up to 28.0000019 and the
   * difference, 31.9999981, truncates to 31.
   */
  lemma SecondsLeftAt28s()
    ensures SecondsLeft(28000) == 31
  {
    Pow2Table();
    RoundSmall(28000);
    UlpExpOf(240518180000, 14);
    assert ElapsedNumerator(28000) == 240518184960;
    UlpExpOf(274877890560, 14);
  }

  /** At 41000 ms the elapsed float rounds up to 41.0000019 and it shows 18 where exact arithmetic gives 19. */
  lemma SecondsLeftAt41s()
    ensures SecondsLeft(41000) == 18
  {
    Pow2Table();
    RoundSmall(41000);
    UlpExpOf(352187335000, 15);
    assert ElapsedNumerator(41000) == 352187351040;
    UlpExpOf(163208724480, 14);
  }
}
