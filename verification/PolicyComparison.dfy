/** Every policy of lab9 against MIN, on every request string. */
module PolicyComparison {
  import opened Paging
  import ClockCompetitive
  import ClockPaging
  import opened Competitive
  import FifoPaging
  import LruPaging
  import SecondChancePaging
  import SegmentCompetitive

  /** No policy beats the score MIN returns. */
  lemma NoneBeatsMin(order: seq<int>, k: nat, best: nat)
    requires k >= 1 && Optimal(order, k, best)
    ensures |order| - |FifoPaging.Faults(order, k, |order|)| <= best
    ensures LruPaging.RecentHits(order, k, |order|) <= best
    ensures ClockPaging.NoMarker(order) ==> ClockPaging.ClockHits(order, k, |order|) <= best
    ensures k >= 2 ==> SecondChancePaging.SegmentHits(order, k, |order|) <= best
  {
    FifoPaging.FifoIsAchievable(order, k);
    LruPaging.LruIsAchievable(order, k);
    if ClockPaging.NoMarker(order) {
      ClockPaging.ClockIsAchievable(order, k);
    }
    if k >= 2 {
      SecondChancePaging.SecondChanceIsAchievable(order, k);
    }
  }

  /** Each policy, with as many frames, faults at most `k` times as often as MIN. */
  lemma WithinFactorOfMin(order: seq<int>, k: nat, best: nat)
    requires k >= 1 && Optimal(order, k, best)
    ensures Missed(order, LruPaging.RecentHits(order, k, |order|)) <= k * Missed(order, best)
    ensures |FifoPaging.Faults(order, k, |order|)| <= k * Missed(order, best)
    ensures ClockPaging.NoMarker(order) ==>
              Missed(order, ClockPaging.ClockHits(order, k, |order|)) <= k * Missed(order, best)
    ensures k >= 2 ==> Missed(order, SecondChancePaging.SegmentHits(order, k, |order|)) <= k * Missed(order, best)
  {
    LruCompetitive(order, k, k, best);
    FifoCompetitive(order, k, k, best);
    if ClockPaging.NoMarker(order) {
      ClockCompetitive.ClockCompetes(order, k, k, best);
    }
    if k >= 2 {
      SegmentCompetitive.SegmentCompetes(order, k, k, best);
    }
  }
}
