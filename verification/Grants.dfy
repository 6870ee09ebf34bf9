/** Amounts committed or authorized for actions, and their sums. */
module Grants {
  import opened Ordering
  import opened Policy

  datatype Grant = Grant(scope: TrustedScope, actionId: string, amount: int)

  function Total(gs: seq<Grant>): int {
    if gs == [] then 0 else Total(gs[..|gs| - 1]) + gs[|gs| - 1].amount
  }

  lemma {:induction false} TotalWithout(gs: seq<Grant>, k: nat)
    requires k < |gs|
    ensures Total(gs) == Total(gs[..k] + gs[k + 1..]) + gs[k].amount
  {
    var n := |gs| - 1;
    if k == n {
      assert gs[..k] + gs[k + 1..] == gs[..n];
    } else {
      TotalWithout(gs[..n], k);
      var rest := gs[..k] + gs[k + 1..];
      assert rest[..|rest| - 1] == gs[..n][..k] + gs[..n][k + 1..];
    }
  }

  lemma {:induction false} TotalNonNegative(gs: seq<Grant>)
    requires forall k :: 0 <= k < |gs| ==> gs[k].amount >= 0
    ensures Total(gs) >= 0
  {
    if gs != [] {
      TotalNonNegative(gs[..|gs| - 1]);
    }
  }

  /** Distinct grants drawn from a list add up to no more than the list. */
  lemma {:induction false} TotalOfPart(part: seq<Grant>, whole: seq<Grant>)
    requires Distinct(part) && (forall g :: g in part ==> g in whole)
    requires forall k :: 0 <= k < |whole| ==> whole[k].amount >= 0
    ensures Total(part) <= Total(whole)
    decreases |part|
  {
    if part == [] {
      TotalNonNegative(whole);
    } else {
      var n := |part| - 1;
      assert part[n] in part;
      var k :| 0 <= k < |whole| && whole[k] == part[n];
      var rest := whole[..k] + whole[k + 1..];
      forall g | g in part[..n]
        ensures g in rest
      {
        assert g in part && g != part[n];
        var m :| 0 <= m < |whole| && whole[m] == g;
        assert rest[if m < k then m else m - 1] == g;
      }
      TotalOfPart(part[..n], rest);
      TotalWithout(whole, k);
    }
  }
}
