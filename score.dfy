/** The score bookkeeping of tick: the addend returned by the host's score
    function is added to the score in unsigned 32-bit arithmetic, and the
    game is won (the score clamped to maxScore) when that sum wrapped
    around or passed maxScore. */
module Score {
  import opened EngineTypes

  /** The unsigned 32-bit sum `score + addend`: the true sum when it fits,
      otherwise the true sum less 2^32. */
  function WrappingAdd(a: Uint32, b: Uint32): (r: Uint32)
  {
    (a + b) % Two32
  }

  /** The test tick applies to the wrapped sum: it is below the old score
      (the addition wrapped) or above the cap. */
  predicate ReachesMax(score: Uint32, addend: Uint32, maxScore: Uint32)
  {
    var sum := WrappingAdd(score, addend);
    sum < score || sum > maxScore
  }

  /** The wrap-around test is exact: the wrapped sum is below the score
      exactly when the true sum does not fit in 32 bits. Hence the cap is
      reached exactly when the true sum exceeds maxScore; a sum equal to
      maxScore is not a win. */
  lemma ReachesMaxIffExceeds(score: Uint32, addend: Uint32, maxScore: Uint32)
    ensures WrappingAdd(score, addend) < score <==> score + addend >= Two32
    ensures WrappingAdd(score, addend) == if score + addend < Two32 then score + addend else score + addend - Two32
    ensures ReachesMax(score, addend, maxScore) <==> score + addend > maxScore
  {
    var sum := score + addend;
    if sum < Two32 {
      assert WrappingAdd(score, addend) == sum;
    } else {
      assert sum - Two32 < Two32;
      assert WrappingAdd(score, addend) == sum - Two32;
    }
  }

  /** The score tick leaves after a lock: maxScore when the cap is
      reached, the sum otherwise. It never decreases and never passes the
      cap, and it is the true sum whenever that does not exceed the cap. */
  function ScoreAfterLock(score: Uint32, addend: Uint32, maxScore: Uint32): (r: Uint32)
    requires score <= maxScore
    ensures score <= r <= maxScore
    ensures r == if score + addend > maxScore then maxScore else score + addend
  {
    ReachesMaxIffExceeds(score, addend, maxScore);
    if ReachesMax(score, addend, maxScore) then maxScore else WrappingAdd(score, addend)
  }

  /** The score after a sequence of locks, each adding its addend to the score
      the previous one left. Whatever the addends, it stays within the cap
      and never falls below the starting score. The engine stops at the first
      lock that reaches the cap (status EndMaxScoreStatus); applying further
      locks here leaves the score at maxScore, so the value is the score the
      game ends or continues with either way. */
  function ScoreAfterLocks(score: Uint32, addends: seq<Uint32>, maxScore: Uint32): (r: Uint32)
    requires score <= maxScore
    ensures score <= r <= maxScore
    decreases |addends|
  {
    if |addends| == 0 then score
    else
      ScoreAfterLocks(ScoreAfterLock(score, addends[0], maxScore), addends[1..], maxScore)
  }

  function Sum(addends: seq<Uint32>): nat
  {
    if |addends| == 0 then 0 else addends[0] + Sum(addends[1..])
  }

  /** The score after a sequence of locks is the true total of the addends,
      capped at maxScore: no wrap-around ever loses points. */
  lemma {:induction false} ScoreAfterLocksIsCappedTotal(score: Uint32, addends: seq<Uint32>, maxScore: Uint32)
    requires score <= maxScore
    ensures ScoreAfterLocks(score, addends, maxScore) == if score + Sum(addends) > maxScore then maxScore else score + Sum(addends)
    decreases |addends|
  {
    if |addends| > 0 {
      ScoreAfterLocksIsCappedTotal(ScoreAfterLock(score, addends[0], maxScore), addends[1..], maxScore);
    }
  }
}
