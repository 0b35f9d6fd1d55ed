/** The failure detector of group/failure_detector.py as an object: the live
    membership list, the tombstones, the successors and the join flag, with
    the sequential steps of `update`, `update_successors`, the two position
    searches and the post-round marking of `ping_monitor`. Each step is
    proved equal to its counterpart in `MembershipView`, whose lemmas carry
    the invariants. Sockets, threads, sleeps and locks are not modelled: each
    method is one atomic step, and the listeners are a log of the lists they
    were handed. */
module GroupFailureDetector {
  import opened Config
  import opened GroupNode
  import opened GroupMessage
  import opened KeyedLists
  import opened MembershipView

  class FailureDetector {
    const hash: Hasher
    var currNode: Node
    var membershipList: seq<Node>
    var deadNodeLookup: map<string, Node>
    var successors: seq<Node>
    var isJoin: bool
    /** Every membership list handed to the listeners, oldest first. */
    var notified: seq<seq<Node>>

    ghost function State(): View
      reads this
    {
      View(membershipList, deadNodeLookup)
    }

    ghost predicate Valid()
      reads this
    {
      WellFormed(hash, currNode) && ViewInv(hash, State())
    }

    constructor (hash: Hasher, hostname: string, timestamp: int)
      ensures this.hash == hash && currNode == NewNode(hash, hostname, timestamp, Alive, timestamp)
      ensures membershipList == [] && deadNodeLookup == map[] && successors == []
      ensures !isJoin && notified == []
      ensures Valid()
    {
      this.hash := hash;
      currNode := NewNode(hash, hostname, timestamp, Alive, timestamp);
      membershipList := [];
      deadNodeLookup := map[];
      successors := [];
      isJoin := false;
      notified := [];
    }

    /** `get_current_pos`: the first index holding the node's identity, or -1. */
    method GetCurrentPos(node: Node) returns (pos: int)
      ensures pos == PosOf(Id, membershipList, Id(node))
      ensures pos >= 0 ==> Id(membershipList[pos]) == Id(node)
      ensures pos == -1 <==> Id(node) !in KeysOf(Id, membershipList)
    {
      var nodeName := Id(node);
      pos := 0;
      while pos < |membershipList|
        invariant 0 <= pos <= |membershipList|
        invariant forall j :: 0 <= j < pos ==> Id(membershipList[j]) != nodeName
      {
        if Id(membershipList[pos]) == nodeName {
          return;
        }
        pos := pos + 1;
      }
      pos := -1;
    }

    /** `find_empty_pos`: the first index whose ring position is strictly
        below the node's, or the length. */
    method FindEmptyPos(node: Node) returns (pos: int)
      ensures pos == InsertPos(membershipList, node.hashCode)
      ensures 0 <= pos <= |membershipList|
      ensures forall j :: 0 <= j < pos ==> membershipList[j].hashCode >= node.hashCode
      ensures pos < |membershipList| ==> membershipList[pos].hashCode < node.hashCode
    {
      pos := 0;
      while pos < |membershipList|
        invariant 0 <= pos <= |membershipList|
        invariant forall j :: 0 <= j < pos ==> membershipList[j].hashCode >= node.hashCode
      {
        if node.hashCode > membershipList[pos].hashCode {
          return;
        }
        pos := pos + 1;
      }
    }

    /** `update_successors`. */
    method UpdateSuccessors()
      modifies this`successors
      ensures successors == Successors(membershipList, currNode)
    {
      var currPos := GetCurrentPos(currNode);
      var numSuc := if |membershipList| - 1 < NUM_SUC then |membershipList| - 1 else NUM_SUC;
      successors := [];
      var i := 0;
      while i < numSuc
        invariant 0 <= i && (i <= numSuc || i == 0)
        invariant successors == Following(membershipList, currPos, i)
      {
        FollowingSnoc(membershipList, currPos, i);
        successors := successors + [membershipList[(currPos + i + 1) % |membershipList|]];
        i := i + 1;
      }
    }

    /** `on_update_membership`: every listener is handed the live list. */
    method OnUpdateMembership()
      modifies this`notified
      ensures notified == old(notified) + [membershipList]
    {
      notified := notified + [membershipList];
    }

    /** The common tail of `update` and `ping_monitor`: tell the listeners
        if anything moved, then recompute the successors. */
    method AfterChange(isChange: bool)
      modifies this`successors, this`notified
      ensures notified == old(notified) + if isChange then [membershipList] else []
      ensures successors == Successors(membershipList, currNode)
    {
      if isChange {
        OnUpdateMembership();
      }
      UpdateSuccessors();
    }

    /** The merge of one record, as the body of `update`'s loop does it. */
    method MergeOne(member: Node) returns (isChange: bool)
      modifies this`membershipList, this`deadNodeLookup
      ensures State() == MergeRecord(old(State()), member).view
      ensures isChange == MergeRecord(old(State()), member).changed
    {
      var memberName := Id(member);
      var pos := GetCurrentPos(member);
      isChange := false;
      if pos != -1 {
        var myMember := membershipList[pos];
        if member.state == Alive {
          if member.latestAck > myMember.latestAck {
            membershipList := membershipList[pos := member];
          }
        } else {
          if member.latestAck >= myMember.latestAck {
            membershipList := RemoveAt(membershipList, pos);
            deadNodeLookup := deadNodeLookup[memberName := member];
            isChange := true;
          }
        }
      } else if memberName in deadNodeLookup {
        var deadNode := deadNodeLookup[memberName];
        if member.state == Alive {
          if member.latestAck > deadNode.latestAck {
            deadNodeLookup := deadNodeLookup - {memberName};
            var newPos := FindEmptyPos(member);
            membershipList := InsertAt(membershipList, newPos, member);
            isChange := true;
          }
        } else {
          if member.latestAck > deadNode.latestAck {
            deadNodeLookup := deadNodeLookup[memberName := member];
          }
        }
      } else {
        if member.state == Dead {
          deadNodeLookup := deadNodeLookup[memberName := member];
        } else {
          var newPos := FindEmptyPos(member);
          membershipList := InsertAt(membershipList, newPos, member);
        }
        isChange := true;
      }
    }

    /** The loop of `update`: every gossiped record merged in order. */
    method MergeMembers(members: seq<Node>) returns (isChange: bool)
      modifies this`membershipList, this`deadNodeLookup
      ensures State() == MergeAll(old(State()), members).view
      ensures isChange == MergeAll(old(State()), members).changed
    {
      ghost var v0 := State();
      isChange := false;
      var i := 0;
      while i < |members|
        invariant 0 <= i <= |members|
        invariant State() == MergeAll(v0, members[..i]).view
        invariant isChange == MergeAll(v0, members[..i]).changed
      {
        assert members[..i + 1][..i] == members[..i];
        var c := MergeOne(members[i]);
        isChange := isChange || c;
        i := i + 1;
      }
      assert members[..i] == members;
    }

    /** `update`: merge every gossiped record in order, tell the listeners if
        anything moved, and recompute the successors. */
    method Update(msg: Message)
      requires Valid()
      requires forall i :: 0 <= i < |msg.members| ==> WellFormed(hash, msg.members[i])
      modifies this`membershipList, this`deadNodeLookup, this`successors, this`notified
      ensures Valid()
      ensures State() == MergeAll(old(State()), msg.members).view
      ensures notified == old(notified) + if MergeAll(old(State()), msg.members).changed then [membershipList] else []
      ensures successors == Successors(membershipList, currNode)
    {
      ghost var v0 := State();
      MergeAllInv(hash, v0, msg.members);
      var isChange := MergeMembers(msg.members);
      AfterChange(isChange);
    }

    /** The marking of one successor whose ping went unanswered. */
    method MarkOne(pingNode: Node) returns (isChange: bool)
      modifies this`membershipList, this`deadNodeLookup
      ensures State() == MarkFailed(old(State()), pingNode).view
      ensures isChange == MarkFailed(old(State()), pingNode).changed
    {
      isChange := false;
      var pos := GetCurrentPos(pingNode);
      if pos != -1 {
        var marked := membershipList[pos].(state := Dead);
        deadNodeLookup := deadNodeLookup[Id(pingNode) := marked];
        membershipList := RemoveAt(membershipList, pos);
        isChange := true;
      }
    }

    /** The loop of a `ping_monitor` round over the zipped snapshot and
        ping results. */
    method MarkMembers(pingNodes: seq<Node>, pingRecords: seq<bool>) returns (isChange: bool)
      modifies this`membershipList, this`deadNodeLookup
      ensures State() == MarkAll(old(State()), pingNodes, pingRecords).view
      ensures isChange == MarkAll(old(State()), pingNodes, pingRecords).changed
    {
      ghost var v0 := State();
      var n := if |pingNodes| < |pingRecords| then |pingNodes| else |pingRecords|;
      isChange := false;
      var i := 0;
      while i < n
        invariant 0 <= i <= n
        invariant State() == MarkUpTo(v0, pingNodes, pingRecords, i).view
        invariant isChange == MarkUpTo(v0, pingNodes, pingRecords, i).changed
      {
        MarkUpToStep(v0, pingNodes, pingRecords, i);
        if !pingRecords[i] {
          var c := MarkOne(pingNodes[i]);
          isChange := isChange || c;
        }
        i := i + 1;
      }
    }

    /** The end of a `ping_monitor` round: `pingNodes` is the successor
        snapshot taken before the pings and `pingRecords` says which of them
        answered. */
    method MarkUnackedDead(pingNodes: seq<Node>, pingRecords: seq<bool>)
      requires Valid()
      modifies this`membershipList, this`deadNodeLookup, this`successors, this`notified
      ensures Valid()
      ensures State() == MarkAll(old(State()), pingNodes, pingRecords).view
      ensures notified == old(notified) + if MarkAll(old(State()), pingNodes, pingRecords).changed then [membershipList] else []
      ensures successors == Successors(membershipList, currNode)
    {
      ghost var v0 := State();
      MarkUpToSpec(hash, v0, pingNodes, pingRecords, if |pingNodes| < |pingRecords| then |pingNodes| else |pingRecords|);
      var isChange := MarkMembers(pingNodes, pingRecords);
      AfterChange(isChange);
    }

    /** `listen_ack`: the introducer's answer to a join is merged once; a
        node that has already joined ignores it. */
    method ListenAck(msg: Message)
      requires Valid()
      requires forall i :: 0 <= i < |msg.members| ==> WellFormed(hash, msg.members[i])
      modifies this`membershipList, this`deadNodeLookup, this`successors, this`notified, this`isJoin
      ensures Valid() && isJoin
      ensures old(isJoin) ==> State() == old(State()) && successors == old(successors) && notified == old(notified)
      ensures !old(isJoin) ==> State() == MergeAll(old(State()), msg.members).view
    {
      if isJoin {
        return;
      }
      Update(msg);
      isJoin := true;
    }

    /** `listen_join`: only the introducer merges a joining node's records. */
    method ListenJoin(msg: Message)
      requires Valid()
      requires forall i :: 0 <= i < |msg.members| ==> WellFormed(hash, msg.members[i])
      modifies this`membershipList, this`deadNodeLookup, this`successors, this`notified
      ensures Valid()
      ensures currNode.hostname == INTRODUCER_HOSTNAME ==> State() == MergeAll(old(State()), msg.members).view
      ensures currNode.hostname != INTRODUCER_HOSTNAME ==> State() == old(State()) && notified == old(notified)
    {
      if currNode.hostname == INTRODUCER_HOSTNAME {
        Update(msg);
      }
    }

    /** `listen_ping`: refresh the local node's ack with the current time,
        merge the pinger's records, and answer with the local node alone. */
    method ListenPing(now: int, msg: Message) returns (reply: Message)
      requires Valid()
      requires forall i :: 0 <= i < |msg.members| ==> WellFormed(hash, msg.members[i])
      modifies this`currNode, this`membershipList, this`deadNodeLookup, this`successors, this`notified
      ensures Valid()
      ensures currNode == old(currNode).(latestAck := now)
      ensures State() == MergeAll(old(State()), msg.members).view
      ensures reply == Message(Ack, [currNode])
    {
      currNode := currNode.(latestAck := now);
      Update(msg);
      reply := Message(Ack, [currNode]);
    }
  }
}
