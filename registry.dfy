/** The registry of groups that receive announcements (`enabled_groups`): its
    records and the pure list operations `cmd_push_start` and `cmd_push_stop`
    apply to it. */
module Registry {

  /** One entry of `enabled_groups`: the group, the session identifier messages are
      sent to, and when the group was added. */
  datatype Group = Group(groupId: string, umo: string, addTime: string)

  /** Some entry of `groups` carries `groupId`. */
  predicate Enabled(groups: seq<Group>, groupId: string) {
    exists k :: 0 <= k < |groups| && groups[k].groupId == groupId
  }

  /** No two entries share a group id. */
  predicate UniqueIds(groups: seq<Group>) {
    forall i, j :: 0 <= i < j < |groups| ==> groups[i].groupId != groups[j].groupId
  }

  /** The filter of `cmd_push_stop`: every entry whose id differs from `groupId`. */
  function WithoutGroup(groups: seq<Group>, groupId: string): (r: seq<Group>)
    ensures |r| <= |groups|
    ensures forall g :: g in r <==> g in groups && g.groupId != groupId
    ensures |r| == |groups| <==> !Enabled(groups, groupId)
  {
    if groups == [] then []
    else
      var rest := WithoutGroup(groups[1..], groupId);
      assert Enabled(groups, groupId) <==> groups[0].groupId == groupId || Enabled(groups[1..], groupId) by {
        if Enabled(groups[1..], groupId) {
          var k :| 0 <= k < |groups| - 1 && groups[1..][k].groupId == groupId;
          assert groups[k + 1].groupId == groupId;
        }
        if Enabled(groups, groupId) && groups[0].groupId != groupId {
          var k :| 0 <= k < |groups| && groups[k].groupId == groupId;
          assert groups[1..][k - 1].groupId == groupId;
        }
      }
      if groups[0].groupId == groupId then rest else [groups[0]] + rest
  }

  /** The filter keeps the order of what it keeps: it distributes over concatenation. */
  lemma {:induction false} WithoutGroupAppend(a: seq<Group>, b: seq<Group>, groupId: string)
    ensures WithoutGroup(a + b, groupId) == WithoutGroup(a, groupId) + WithoutGroup(b, groupId)
  {
    if a != [] {
      assert (a + b)[1..] == a[1..] + b;
      WithoutGroupAppend(a[1..], b, groupId);
    } else {
      assert a + b == b;
    }
  }

  /** Removing a group that is not registered yields the very same list. */
  lemma {:induction false} WithoutAbsentGroup(groups: seq<Group>, groupId: string)
    requires !Enabled(groups, groupId)
    ensures WithoutGroup(groups, groupId) == groups
  {
    if groups != [] {
      assert groups[0].groupId != groupId;
      assert !Enabled(groups[1..], groupId);
      WithoutAbsentGroup(groups[1..], groupId);
      assert groups == [groups[0]] + groups[1..];
    }
  }

  /** Removing a group keeps the ids of the list unique. */
  lemma {:induction false} WithoutGroupKeepsUnique(groups: seq<Group>, groupId: string)
    requires UniqueIds(groups)
    ensures UniqueIds(WithoutGroup(groups, groupId))
  {
    if groups != [] {
      var rest := WithoutGroup(groups[1..], groupId);
      assert UniqueIds(groups[1..]) by {
        forall i, j | 0 <= i < j < |groups| - 1
          ensures groups[1..][i].groupId != groups[1..][j].groupId
        {
          assert groups[1..][i] == groups[i + 1] && groups[1..][j] == groups[j + 1];
        }
      }
      WithoutGroupKeepsUnique(groups[1..], groupId);
      if groups[0].groupId != groupId {
        var r := [groups[0]] + rest;
        forall i, j | 0 <= i < j < |r| ensures r[i].groupId != r[j].groupId {
          if i == 0 {
            assert r[j] in groups[1..];
            HeadIdNotInTail(groups, r[j]);
          } else {
            assert r[i] == rest[i - 1] && r[j] == rest[j - 1];
          }
        }
      }
    }
  }

  /** With unique ids, no later entry shares the first entry's id. */
  lemma HeadIdNotInTail(groups: seq<Group>, g: Group)
    requires UniqueIds(groups) && groups != [] && g in groups[1..]
    ensures g.groupId != groups[0].groupId
  {
    var k :| 0 <= k < |groups| - 1 && groups[1..][k] == g;
    assert groups[k + 1] == g;
  }

  /** Appending an entry whose id is not yet registered keeps the ids unique. */
  lemma AppendNewKeepsUnique(groups: seq<Group>, g: Group)
    requires UniqueIds(groups) && !Enabled(groups, g.groupId)
    ensures UniqueIds(groups + [g])
  {
    var r := groups + [g];
    forall i, j | 0 <= i < j < |r| ensures r[i].groupId != r[j].groupId {
      if j == |groups| {
        assert r[i] == groups[i];
      } else {
        assert r[i] == groups[i] && r[j] == groups[j];
      }
    }
  }
}
