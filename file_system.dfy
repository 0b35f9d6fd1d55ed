/** The file-system node of sdfs/file_system.py as an object: the membership
    snapshot, the ring neighbours and the two file directories, with the
    sequential steps of `get_main_node`, `store_file`, `delete_file`,
    `handle_upload`, `on_recv_membership_update`, `leave_adjust` and
    `join_adjust`. Each step is proved against the definitions in
    `SdfsDirectory`. File transfers, file messages, disk moves and locks are
    not modelled: the disk is a set of stored names, and the replies of the
    replicas are a vector of booleans. */
module SdfsFileSystem {
  import opened Wrappers
  import opened Config
  import opened GroupNode
  import opened KeyedLists
  import opened SdfsDirectory

  class FileSystem {
    const strHash: StrHasher
    var currNode: Node
    var membershipList: seq<Node>
    var successors: seq<Node>
    var predecessor: Option<Node>
    var mainFiles: map<string, int>
    var replicatedFiles: map<string, int>

    ghost function Dirs(): Directory
      reads this`mainFiles, this`replicatedFiles
    {
      Directory(mainFiles, replicatedFiles)
    }

    constructor (strHash: StrHasher, currNode: Node)
      ensures this.strHash == strHash && this.currNode == currNode
      ensures membershipList == [] && successors == [] && predecessor == None
      ensures mainFiles == map[] && replicatedFiles == map[]
    {
      this.strHash := strHash;
      this.currNode := currNode;
      membershipList := [];
      successors := [];
      predecessor := None;
      mainFiles := map[];
      replicatedFiles := map[];
    }

    /** `get_main_node`: scans the list for the first member at or above the
        file's ring position, starting from the head as the default. */
    method GetMainNode(filename: string) returns (mainNode: Node)
      requires |membershipList| > 0
      ensures mainNode == MainNode(strHash, membershipList, filename)
    {
      var fileHashCode := strHash(filename) % HASH_M;
      mainNode := membershipList[0];
      var i := 0;
      while i < |membershipList|
        invariant 0 <= i <= |membershipList|
        invariant forall j :: 0 <= j < i ==> membershipList[j].hashCode < fileHashCode
      {
        if fileHashCode <= membershipList[i].hashCode {
          mainNode := membershipList[i];
          return;
        }
        i := i + 1;
      }
    }

    /** `store_file`: the owner records the version in `main_files`, any
        other member in `replicated_files`, by the rule of `StoreVersion`;
        the other directory is untouched. */
    method StoreFile(filename: string, version: int) returns (ok: bool)
      requires |membershipList| > 0
      modifies this`mainFiles, this`replicatedFiles
      ensures Owns(strHash, membershipList, currNode.hostname, filename) ==>
        && (mainFiles, ok) == StoreVersion(old(mainFiles), filename, version)
        && replicatedFiles == old(replicatedFiles)
      ensures !Owns(strHash, membershipList, currNode.hostname, filename) ==>
        && (replicatedFiles, ok) == StoreVersion(old(replicatedFiles), filename, version)
        && mainFiles == old(mainFiles)
    {
      var mainNode := GetMainNode(filename);
      if mainNode.hostname == currNode.hostname {
        mainFiles := Touch(mainFiles, filename);
        if mainFiles[filename] + 1 == version {
          mainFiles := mainFiles[filename := version];
        } else if mainFiles[filename] >= version {
          return true;
        } else {
          return false;
        }
      } else {
        replicatedFiles := Touch(replicatedFiles, filename);
        if replicatedFiles[filename] + 1 == version {
          replicatedFiles := replicatedFiles[filename := version];
        } else if replicatedFiles[filename] >= version {
          return true;
        } else {
          return false;
        }
      }
      return true;
    }

    /** `delete_file` on the directories; `onDisk` holds the names present
        in the storage directory. */
    method DeleteFile(filename: string, onDisk: set<string>) returns (ok: bool)
      modifies this`mainFiles, this`replicatedFiles
      ensures (Dirs(), ok) == DeleteLatest(old(Dirs()), filename, onDisk)
    {
      var version;
      if filename in mainFiles {
        version := mainFiles[filename];
      } else if filename in replicatedFiles {
        version := replicatedFiles[filename];
      } else {
        return false;
      }
      if GetFilename(filename, version) !in onDisk {
        return false;
      }
      if version == 1 {
        if filename in mainFiles {
          mainFiles := mainFiles - {filename};
        } else if filename in replicatedFiles {
          replicatedFiles := replicatedFiles - {filename};
        }
      }
      return true;
    }

    /** The loop of `handle_upload` over the successors: counts the replicas
        that acknowledged the new version and remembers them. Each round
        reads `main_files[filename]`, which touches the key. */
    method CollectAcks(filename: string, acks: seq<bool>) returns (numSuccess: nat, successNodes: seq<Node>)
      requires |acks| == |successors|
      modifies this`mainFiles
      ensures numSuccess == CountTrue(acks)
      ensures successNodes == Acked(successors, acks)
      ensures mainFiles == if |successors| > 0 then Touch(old(mainFiles), filename) else old(mainFiles)
    {
      numSuccess := 0;
      successNodes := [];
      var i := 0;
      while i < |successors|
        invariant 0 <= i <= |successors|
        invariant numSuccess == CountTrue(acks[..i])
        invariant successNodes == Acked(successors[..i], acks[..i])
        invariant mainFiles == if i > 0 then Touch(old(mainFiles), filename) else old(mainFiles)
      {
        mainFiles := Touch(mainFiles, filename);
        assert acks[..i + 1][..i] == acks[..i];
        assert successors[..i + 1][..i] == successors[..i];
        if acks[i] {
          numSuccess := numSuccess + 1;
          successNodes := successNodes + [successors[i]];
        }
        i := i + 1;
      }
      assert acks[..i] == acks && successors[..i] == successors;
    }

    /** `handle_upload`: `acks[i]` is whether successor `i` took the new
        version. It commits, storing the next version locally, when at least
        `min(n - 1, NUM_REPLICA)` replicas acknowledged; otherwise it asks
        exactly the nodes that acknowledged to drop it again (`rollback`). */
    method HandleUpload(filename: string, acks: seq<bool>) returns (committed: bool, rollback: seq<Node>)
      requires |acks| == |successors|
      requires |membershipList| > 0
      modifies this`mainFiles, this`replicatedFiles
      ensures committed <==> CountTrue(acks) >= ReplicaCount(|membershipList|)
      ensures rollback == if committed then [] else Acked(successors, acks)
      ensures !committed ==> replicatedFiles == old(replicatedFiles)
      ensures !committed ==> mainFiles == if |successors| > 0 then Touch(old(mainFiles), filename) else old(mainFiles)
      ensures committed && Owns(strHash, membershipList, currNode.hostname, filename) ==>
        && mainFiles == StoreVersion(old(mainFiles), filename, Version(old(mainFiles), filename) + 1).0
        && replicatedFiles == old(replicatedFiles)
      ensures committed && !Owns(strHash, membershipList, currNode.hostname, filename) ==>
        && mainFiles == Touch(old(mainFiles), filename)
        && replicatedFiles == StoreVersion(old(replicatedFiles), filename, Version(old(mainFiles), filename) + 1).0
    {
      var numReplica := ReplicaCount(|membershipList|);
      var numSuccess, successNodes := CollectAcks(filename, acks);
      if numSuccess >= numReplica {
        mainFiles := Touch(mainFiles, filename);
        var _ := StoreFile(filename, mainFiles[filename] + 1);
        return true, [];
      } else {
        return false, successNodes;
      }
    }

    /** `on_recv_membership_update`: takes the new list, recomputes the
        replica holders and the predecessor, then re-replicates: the leave
        path when the list shrank, the join path otherwise. An empty list
        is allowed only when the path taken has no files to place. */
    method OnRecvMembershipUpdate(latest: seq<Node>) returns (leave: bool, ok: bool, ghost demoted: set<string>)
      requires |latest| > 0 || (if |membershipList| > 0 then replicatedFiles == map[] else mainFiles == map[])
      modifies this`membershipList, this`successors, this`predecessor, this`mainFiles, this`replicatedFiles
      ensures leave <==> |old(membershipList)| > |latest|
      ensures membershipList == latest
      ensures successors == ReplicaSuccessors(latest, currNode)
      ensures predecessor == Predecessor(latest, currNode)
      ensures leave ==> ok && Dirs() == Promote(old(Dirs()), OwnedAmong(strHash, latest, currNode.hostname, old(replicatedFiles).Keys))
      ensures !leave ==>
                var disowned := DisownedAmong(strHash, latest, currNode.hostname, old(mainFiles).Keys);
                && (!ok <==> |latest| <= 1 && Unsendable(old(Dirs()), disowned) != {})
                && demoted <= disowned
                && (ok ==> demoted == disowned)
                && (!ok ==> demoted !! Unsendable(old(Dirs()), disowned))
                && Dirs() == Demote(old(Dirs()), demoted)
    {
      leave := |membershipList| > |latest|;
      membershipList := latest;
      UpdateNeighbours();
      if leave {
        LeaveAdjust();
        ok, demoted := true, {};
      } else {
        ok, demoted := JoinAdjust();
      }
    }

    /** The recomputation of `successors` and `predecessor` in
        `on_recv_membership_update`. */
    method UpdateNeighbours()
      modifies this`successors, this`predecessor
      ensures successors == ReplicaSuccessors(membershipList, currNode)
      ensures predecessor == Predecessor(membershipList, currNode)
    {
      var curIdx := FindSelf();
      var numMember := |membershipList|;
      var pred := None;
      if numMember > 1 {
        pred := Some(PyIndex(membershipList, curIdx - 1));
      }
      FillSuccessors(curIdx, ReplicaCount(numMember));
      predecessor := pred;
    }

    /** The loop `for i in range(1, num_replica + 1)` collecting the members
        after `curIdx`, cyclically. */
    method FillSuccessors(curIdx: int, numReplica: int)
      requires curIdx >= 0 && (numReplica <= 0 || |membershipList| > 0)
      modifies this`successors
      ensures successors == Following(membershipList, curIdx, if numReplica < 0 then 0 else numReplica)
    {
      successors := [];
      var i := 1;
      while i < numReplica + 1
        invariant 1 <= i && (i <= numReplica + 1 || i == 1)
        invariant successors == Following(membershipList, curIdx, i - 1)
      {
        FollowingSnoc(membershipList, curIdx, i - 1);
        successors := successors + [membershipList[(curIdx + i) % |membershipList|]];
        i := i + 1;
      }
    }

    /** The scan for the local node's index, 0 when it is not listed. */
    method FindSelf() returns (curIdx: int)
      ensures curIdx == CurIdx(membershipList, currNode)
    {
      curIdx := 0;
      var idx := 0;
      while idx < |membershipList|
        invariant 0 <= idx <= |membershipList|
        invariant forall j :: 0 <= j < idx ==> Id(membershipList[j]) != Id(currNode)
      {
        if Id(membershipList[idx]) == Id(currNode) {
          curIdx := idx;
          return;
        }
        idx := idx + 1;
      }
    }

    /** `leave_adjust`: every replicated file now owned locally becomes a
        main file with the same version. */
    method LeaveAdjust()
      requires |membershipList| > 0 || replicatedFiles == map[]
      modifies this`mainFiles, this`replicatedFiles
      ensures Dirs() == Promote(old(Dirs()), OwnedAmong(strHash, membershipList, currNode.hostname, old(replicatedFiles).Keys))
    {
      ghost var d0 := Dirs();
      ghost var done: set<string> := {};
      var todo := replicatedFiles.Keys;
      while todo != {}
        invariant done !! todo && done + todo == d0.replicated.Keys
        invariant Dirs() == Promote(d0, OwnedAmong(strHash, membershipList, currNode.hostname, done))
        decreases todo
      {
        var filename :| filename in todo;
        ghost var mine := OwnedAmong(strHash, membershipList, currNode.hostname, done);
        OwnedAmongStep(strHash, membershipList, currNode.hostname, done, filename);
        PromoteStep(d0, mine, filename);
        PromoteIfOwned(filename);
        done := done + {filename};
        todo := todo - {filename};
      }
    }

    /** One round of `leave_adjust`'s loop: a replicated file now owned
        locally becomes a main file with its version. */
    method PromoteIfOwned(filename: string)
      requires |membershipList| > 0 && filename in replicatedFiles
      modifies this`mainFiles, this`replicatedFiles
      ensures Owns(strHash, membershipList, currNode.hostname, filename) ==> Dirs() == PromoteFile(old(Dirs()), filename)
      ensures !Owns(strHash, membershipList, currNode.hostname, filename) ==> Dirs() == old(Dirs())
    {
      var mainNode := GetMainNode(filename);
      if mainNode.hostname == currNode.hostname {
        mainFiles := mainFiles[filename := replicatedFiles[filename]];
        replicatedFiles := replicatedFiles - {filename};
      }
    }

    /** `join_adjust`: every main file no longer owned locally leaves
        `main_files`, and its `replicated_files` count goes up by one. With
        no predecessor (a list of at most one member) the first disowned
        file holding a version raises AttributeError, and the files the
        loop had not reached stay where they are; which files came before
        it depends on the dict's order, so `demoted` is any set of
        disowned files that cannot raise. */
    method JoinAdjust() returns (ok: bool, ghost demoted: set<string>)
      requires |membershipList| > 0 || mainFiles == map[]
      modifies this`mainFiles, this`replicatedFiles
      ensures var disowned := DisownedAmong(strHash, membershipList, currNode.hostname, old(mainFiles).Keys);
              && (!ok <==> predecessor.None? && Unsendable(old(Dirs()), disowned) != {})
              && demoted <= disowned
              && (ok ==> demoted == disowned)
              && (!ok ==> demoted !! Unsendable(old(Dirs()), disowned))
              && Dirs() == Demote(old(Dirs()), demoted)
    {
      ghost var d0 := Dirs();
      ghost var done: set<string> := {};
      ghost var all := DisownedAmong(strHash, membershipList, currNode.hostname, d0.main.Keys);
      var todo := mainFiles.Keys;
      ok, demoted := true, {};
      while todo != {}
        invariant done !! todo && done + todo == d0.main.Keys
        invariant demoted == DisownedAmong(strHash, membershipList, currNode.hostname, done)
        invariant Dirs() == Demote(d0, demoted)
        invariant predecessor.None? ==> forall g :: g in demoted && g in d0.main ==> d0.main[g] < 1
        decreases todo
      {
        var filename :| filename in todo;
        ghost var next;
        ok, next := DemoteRound(filename, d0, done, demoted);
        if !ok {
          UnsendableFound(d0, demoted, all, filename);
          return;
        }
        demoted, done, todo := next, done + {filename}, todo - {filename};
      }
      if predecessor.None? {
        UnsendableNone(d0, all);
      }
    }

    /** One round of the loop with its bookkeeping: the disowned files among
        those looked at so far, and the directories they give. */
    method DemoteRound(filename: string, ghost d0: Directory, ghost done: set<string>, ghost demoted: set<string>)
        returns (ok: bool, ghost next: set<string>)
      requires |membershipList| > 0 && filename in d0.main && filename !in done && done <= d0.main.Keys
      requires demoted == DisownedAmong(strHash, membershipList, currNode.hostname, done)
      requires Dirs() == Demote(d0, demoted)
      modifies this`mainFiles, this`replicatedFiles
      ensures next == DisownedAmong(strHash, membershipList, currNode.hostname, done + {filename})
      ensures !ok <==> predecessor.None? && filename in next && d0.main[filename] >= 1
      ensures ok ==> Dirs() == Demote(d0, next)
      ensures !ok ==> Dirs() == Demote(d0, demoted)
    {
      DisownedAmongStep(strHash, membershipList, currNode.hostname, done, filename);
      DemoteStep(d0, demoted, filename);
      next := DisownedAmong(strHash, membershipList, currNode.hostname, done + {filename});
      ok := DemoteIfDisowned(filename);
    }

    /** One round of `join_adjust`'s second loop: a main file no longer
        owned locally leaves `main_files`, its replica count up by one. It
        is first sent to the predecessor, version by version; with no
        predecessor and a version to send that raises, and nothing
        changes. */
    method DemoteIfDisowned(filename: string) returns (ok: bool)
      requires |membershipList| > 0 && filename in mainFiles
      modifies this`mainFiles, this`replicatedFiles
      ensures !ok <==> !Owns(strHash, membershipList, currNode.hostname, filename)
                       && predecessor.None? && old(mainFiles)[filename] >= 1
      ensures ok && !Owns(strHash, membershipList, currNode.hostname, filename) ==>
                Dirs() == DemoteFile(old(Dirs()), filename)
      ensures !ok || Owns(strHash, membershipList, currNode.hostname, filename) ==> Dirs() == old(Dirs())
    {
      ok := true;
      var mainNode := GetMainNode(filename);
      if mainNode.hostname != currNode.hostname {
        if predecessor.None? && mainFiles[filename] >= 1 {
          return false;
        }
        replicatedFiles := replicatedFiles[filename := Version(replicatedFiles, filename) + 1];
        mainFiles := mainFiles - {filename};
      }
    }
  }
}
