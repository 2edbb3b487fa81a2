/** The tally `_send_announcement_to_groups` returns after trying every
    registered group once. Whether a send to the group at position `j` of the
    registry goes through is an input, `delivered(j)`. */
module Delivery {
  import opened Registry

  /** The summary text's content: the early "no enabled group" answer, or the counts of
      successful and failed sends and the ids of the groups that failed, in registry order. */
  datatype Summary = NoGroups | Report(successes: nat, failures: nat, failedIds: seq<string>)

  /** How many of the first `n` sends went through. */
  function Successes(n: nat, delivered: nat -> bool): (c: nat)
    ensures c <= n
  {
    if n == 0 then 0 else Successes(n - 1, delivered) + (if delivered(n - 1) then 1 else 0)
  }

  /** All of the first `n` sends went through exactly when all `n` count as successes. */
  lemma {:induction false} AllDelivered(n: nat, delivered: nat -> bool)
    ensures Successes(n, delivered) == n <==> forall j :: 0 <= j < n ==> delivered(j)
  {
    if n > 0 {
      AllDelivered(n - 1, delivered);
    }
  }

  /** The positions, in increasing order, of the failed sends among the first `n`. */
  function FailedPositions(n: nat, delivered: nat -> bool): (ps: seq<nat>)
    ensures |ps| + Successes(n, delivered) == n
    ensures forall k :: 0 <= k < |ps| ==> ps[k] < n && !delivered(ps[k])
    ensures forall j :: 0 <= j < n && !delivered(j) ==> j in ps
    ensures forall k, l :: 0 <= k < l < |ps| ==> ps[k] < ps[l]
  {
    if n == 0 then [] else FailedPositions(n - 1, delivered) + (if delivered(n - 1) then [] else [n - 1])
  }

  /** `fail_groups`: the id of every group whose send failed, appended in registry order. */
  function FailedIds(groups: seq<Group>, delivered: nat -> bool): (ids: seq<string>)
    ensures |ids| + Successes(|groups|, delivered) == |groups|
  {
    if groups == [] then []
    else
      var n := |groups| - 1;
      FailedIds(groups[..n], delivered) + (if delivered(n) then [] else [groups[n].groupId])
  }

  /** The failed-id list is exactly the ids at the failed positions, in order: the
      subsequence of the registry made of the groups whose send failed. */
  lemma {:induction false} FailedIdsAtFailedPositions(groups: seq<Group>, delivered: nat -> bool)
    ensures var ps, ids := FailedPositions(|groups|, delivered), FailedIds(groups, delivered);
      |ids| == |ps| && forall k :: 0 <= k < |ps| ==> ids[k] == groups[ps[k]].groupId
  {
    if groups != [] {
      var n := |groups| - 1;
      var init := groups[..n];
      FailedIdsAtFailedPositions(init, delivered);
      var ps, ids := FailedPositions(n, delivered), FailedIds(init, delivered);
      forall k | 0 <= k < |ps| ensures ids[k] == groups[ps[k]].groupId {
        assert init[ps[k]] == groups[ps[k]];
      }
    }
  }

  /** The summary of a broadcast to `groups`. */
  function Summarize(groups: seq<Group>, delivered: nat -> bool): (r: Summary)
    ensures r.NoGroups? <==> groups == []
    ensures r.Report? ==> r.successes + r.failures == |groups| && r.failures == |r.failedIds|
  {
    if groups == [] then NoGroups
    else
      var ok := Successes(|groups|, delivered);
      Report(ok, |groups| - ok, FailedIds(groups, delivered))
  }

  /** A broadcast reports no failure exactly when every send went through. */
  lemma NoFailureIff(groups: seq<Group>, delivered: nat -> bool)
    requires groups != []
    ensures Summarize(groups, delivered).failures == 0 <==> forall j :: 0 <= j < |groups| ==> delivered(j)
  {
    AllDelivered(|groups|, delivered);
  }
}
