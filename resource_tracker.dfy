/** The resource tracker of the coordinator (coordinator/resource_tracker.py):
    the workers alive in the latest membership list and the ones among them
    that are free. Nodes compare by identity (`hostname_timestamp`), so
    `in` and `list.remove` look the identity up. The lock is left out: each
    method is one atomic step. */
module CoordinatorResourceTracker {
  import opened Wrappers
  import opened GroupNode
  import opened KeyedLists

  /** `if node in free: free.remove(node)`: drop the first node with the
      same identity, if there is one. */
  function RemoveFirst(free: seq<Node>, node: Node): (r: seq<Node>)
    ensures Id(node) in KeysOf(Id, free) ==> |r| == |free| - 1
    ensures Id(node) !in KeysOf(Id, free) ==> r == free
  {
    var p := PosOf(Id, free, Id(node));
    if p >= 0 then RemoveAt(free, p) else free
  }

  /** The free list after the failure loop of `update_resource`: each
      failed node, in turn, removed once. */
  function RemoveEach(free: seq<Node>, gone: seq<Node>): (r: seq<Node>)
    ensures |r| <= |free|
    decreases |gone|
  {
    if gone == [] then free
    else RemoveFirst(RemoveEach(free, gone[..|gone| - 1]), gone[|gone| - 1])
  }

  lemma RemoveEachSnoc(free: seq<Node>, gone: seq<Node>, node: Node)
    ensures RemoveEach(free, gone + [node]) == RemoveFirst(RemoveEach(free, gone), node)
  {
    assert (gone + [node])[..|gone|] == gone;
  }

  /** On a free list without repeats, removing the failed nodes one by one
      filters their identities out, keeping the order of the rest. */
  lemma {:induction false} RemoveEachFilters(free: seq<Node>, ks: set<string>, gone: seq<Node>)
    requires NoDupKeys(Id, free)
    ensures RemoveEach(FilterOut(Id, free, ks), gone) == FilterOut(Id, free, ks + KeysOf(Id, gone))
    decreases |gone|
  {
    if gone == [] {
      assert ks + KeysOf(Id, gone) == ks;
    } else {
      var init, last := gone[..|gone| - 1], gone[|gone| - 1];
      assert gone == init + [last];
      KeysOfSnoc(Id, init, last);
      RemoveEachFilters(free, ks, init);
      RemoveFirstFiltered(free, ks + KeysOf(Id, init), last);
      assert ks + KeysOf(Id, gone) == ks + KeysOf(Id, init) + {Id(last)};
    }
  }

  /** Removing the first copy of a node from a filtered list without
      repeats filters its identity out. */
  lemma RemoveFirstFiltered(free: seq<Node>, ks: set<string>, node: Node)
    requires NoDupKeys(Id, free)
    ensures RemoveFirst(FilterOut(Id, free, ks), node) == FilterOut(Id, free, ks + {Id(node)})
  {
    var f := FilterOut(Id, free, ks);
    if PosOf(Id, f, Id(node)) >= 0 {
      FilterOutRemove(Id, free, ks, Id(node));
    } else {
      FilterOutKeys(Id, free, ks);
      if Id(node) in ks {
        assert ks + {Id(node)} == ks;
      } else {
        FilterOutNoop(Id, free, ks, Id(node));
      }
    }
  }

  /** The nodes `update_resource` reports as failed: the alive ones missing
      from the new list, in alive order. */
  function Failed(alive: seq<Node>, resources: seq<Node>): (r: seq<Node>)
    ensures KeysOf(Id, r) == KeysOf(Id, alive) - KeysOf(Id, resources)
  {
    FilterOutKeys(Id, alive, KeysOf(Id, resources));
    FilterOut(Id, alive, KeysOf(Id, resources))
  }

  /** The nodes of the new list that were not alive, in input order. */
  function Joined(alive: seq<Node>, resources: seq<Node>): (r: seq<Node>)
    ensures KeysOf(Id, r) == KeysOf(Id, resources) - KeysOf(Id, alive)
  {
    FilterOutKeys(Id, resources, KeysOf(Id, alive));
    FilterOut(Id, resources, KeysOf(Id, alive))
  }

  /** When every free node is alive and the free list has no repeats, after
      `update_resource` the failed nodes are exactly the ones gone from the
      free list and every free node is alive in the new list. */
  lemma UpdateKeepsFreeAlive(alive: seq<Node>, free: seq<Node>, resources: seq<Node>)
    requires NoDupKeys(Id, free) && KeysOf(Id, free) <= KeysOf(Id, alive)
    ensures RemoveEach(free, Failed(alive, resources)) == FilterOut(Id, free, KeysOf(Id, Failed(alive, resources)))
    ensures KeysOf(Id, RemoveEach(free, Failed(alive, resources)) + Joined(alive, resources)) <= KeysOf(Id, resources)
  {
    var gone := Failed(alive, resources);
    FilterOutNone(Id, free);
    RemoveEachFilters(free, {}, gone);
    assert {} + KeysOf(Id, gone) == KeysOf(Id, gone);
    var kept := FilterOut(Id, free, KeysOf(Id, gone));
    FilterOutKeys(Id, free, KeysOf(Id, gone));
    KeysOfAppend(Id, kept, Joined(alive, resources));
  }

  /** A node released twice sits twice on the free list; when it fails,
      only one copy is removed, and the free list keeps a node that is no
      longer alive. */
  lemma RepeatedFreeNodeSurvivesFailure(n: Node)
    ensures RemoveEach([n, n], Failed([n], [])) == [n]
    ensures Id(n) !in KeysOf(Id, [] + Joined([n], []))
  {
    assert Failed([n], []) == [n];
    assert [n][..0] == [];
    assert PosOf(Id, [n, n], Id(n)) == 0;
  }

  class ResourceTracker {
    var aliveNodes: seq<Node>
    var freeNodes: seq<Node>

    constructor ()
      ensures aliveNodes == [] && freeNodes == []
    {
      aliveNodes := [];
      freeNodes := [];
    }

    /** `update_resource`: report the alive nodes missing from `resources`
        and take each off the free list once; the new list becomes the alive
        list and its newcomers join the end of the free list. */
    method UpdateResource(resources: seq<Node>) returns (failNodes: seq<Node>)
      modifies this
      ensures failNodes == Failed(old(aliveNodes), resources)
      ensures aliveNodes == resources
      ensures freeNodes == RemoveEach(old(freeNodes), failNodes) + Joined(old(aliveNodes), resources)
    {
      failNodes := DropFailed(resources);
      var joinNodes := FindJoined(aliveNodes, resources);
      aliveNodes := resources;
      freeNodes := freeNodes + joinNodes;
    }

    /** The first loop of `update_resource`, over the alive nodes. */
    method DropFailed(resources: seq<Node>) returns (failNodes: seq<Node>)
      modifies this`freeNodes
      ensures failNodes == Failed(aliveNodes, resources)
      ensures freeNodes == RemoveEach(old(freeNodes), failNodes)
    {
      var present := KeysOf(Id, resources);
      var alive := aliveNodes;
      ghost var free0 := freeNodes;
      failNodes := [];
      var i := 0;
      while i < |alive|
        invariant 0 <= i <= |alive|
        invariant failNodes == FilterOut(Id, alive[..i], present)
        invariant freeNodes == RemoveEach(free0, failNodes)
      {
        var node := alive[i];
        FilterOutStep(Id, alive, i, present);
        if Id(node) !in present {
          RemoveEachSnoc(free0, failNodes, node);
          var p := PosOf(Id, freeNodes, Id(node));
          if p >= 0 {
            freeNodes := RemoveAt(freeNodes, p);
          }
          failNodes := failNodes + [node];
        }
        i := i + 1;
      }
      assert alive[..i] == alive;
    }

    /** The second loop of `update_resource`, over the new list. */
    method FindJoined(alive: seq<Node>, resources: seq<Node>) returns (joinNodes: seq<Node>)
      ensures joinNodes == Joined(alive, resources)
    {
      var known := KeysOf(Id, alive);
      joinNodes := [];
      var i := 0;
      while i < |resources|
        invariant 0 <= i <= |resources|
        invariant joinNodes == FilterOut(Id, resources[..i], known)
      {
        var node := resources[i];
        FilterOutStep(Id, resources, i, known);
        if Id(node) !in known {
          joinNodes := joinNodes + [node];
        }
        i := i + 1;
      }
      assert resources[..i] == resources;
    }

    /** `release_resources`: a node that is alive goes back to the end of
        the free list — even if it is already there. */
    method ReleaseResources(node: Node)
      modifies this`freeNodes
      ensures Id(node) in KeysOf(Id, aliveNodes) ==> freeNodes == old(freeNodes) + [node]
      ensures Id(node) !in KeysOf(Id, aliveNodes) ==> freeNodes == old(freeNodes)
    {
      if Id(node) in KeysOf(Id, aliveNodes) {
        freeNodes := freeNodes + [node];
      }
    }

    /** `get_free_resource`: the most recently freed node, left on the
        list. */
    function GetFreeResource(): (r: Option<Node>)
      reads this
      ensures r.None? <==> freeNodes == []
      ensures r.Some? ==> r.value == freeNodes[|freeNodes| - 1] && r.value in freeNodes
    {
      if |freeNodes| == 0 then None else Some(freeNodes[|freeNodes| - 1])
    }

    /** `num_resources`. */
    function NumResources(): (n: nat)
      reads this
      ensures n == 0 <==> aliveNodes == []
    {
      |aliveNodes|
    }

    /** With no worker listed twice, `num_resources` counts the distinct
        workers alive. */
    lemma NumResourcesCountsWorkers()
      requires NoDupKeys(Id, aliveNodes)
      ensures NumResources() == |KeysOf(Id, aliveNodes)|
    {
      KeysOfCount(Id, aliveNodes);
    }

    /** `occupy_resources`: when the node is alive and some node is free,
        its first copy leaves the free list; a node that is not free then
        makes `remove` raise ValueError, with nothing changed. */
    method OccupyResources(node: Node) returns (ok: bool)
      modifies this`freeNodes
      ensures !ok <==> Id(node) in KeysOf(Id, aliveNodes) && old(freeNodes) != []
                       && Id(node) !in KeysOf(Id, old(freeNodes))
      ensures Id(node) in KeysOf(Id, aliveNodes) && old(freeNodes) != [] ==>
                freeNodes == RemoveFirst(old(freeNodes), node)
      ensures !(Id(node) in KeysOf(Id, aliveNodes) && old(freeNodes) != []) ==> freeNodes == old(freeNodes)
    {
      ok := true;
      if Id(node) in KeysOf(Id, aliveNodes) && freeNodes != [] {
        var p := PosOf(Id, freeNodes, Id(node));
        if p < 0 {
          return false;
        }
        freeNodes := RemoveAt(freeNodes, p);
      }
    }
  }
}
