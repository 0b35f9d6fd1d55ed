/** The failure detector's bookkeeping as a value: the live list, kept
    non-increasing by ring position, and the tombstones keyed by identity
    string. `MergeRecord` is the per-record rule of `update`, `MarkFailed`
    the post-round marking of `ping_monitor`; both are proved to keep the
    invariant, and the merge is proved to be a join on the identity-keyed
    map of everything the node knows. */
module MembershipView {
  import opened Config
  import opened GroupNode
  import opened KeyedLists

  datatype View = View(live: seq<Node>, dead: map<string, Node>)

  /** A new view and whether the listeners are told (`is_change`). */
  datatype Merged = Merged(view: View, changed: bool)

  /** Non-increasing by ring position: the order `find_empty_pos` keeps. */
  predicate NonIncreasing(s: seq<Node>)
  {
    forall i, j :: 0 <= i < j < |s| ==> s[i].hashCode >= s[j].hashCode
  }

  /** Live entries are well-formed ALIVE records. */
  ghost predicate LiveOk(hash: Hasher, live: seq<Node>)
  {
    forall i :: 0 <= i < |live| ==> WellFormed(hash, live[i]) && live[i].state == Alive
  }

  /** Tombstones are well-formed DEAD records stored under their identity. */
  ghost predicate DeadOk(hash: Hasher, dead: map<string, Node>)
  {
    forall k :: k in dead ==> Id(dead[k]) == k && WellFormed(hash, dead[k]) && dead[k].state == Dead
  }

  ghost predicate Disjoint(live: seq<Node>, dead: map<string, Node>)
  {
    forall k :: k in dead ==> k !in KeysOf(Id, live)
  }

  /** No identity twice in the live list, none both live and tombstoned,
      and the live list non-increasing by ring position. */
  ghost predicate ViewInv(hash: Hasher, v: View)
  {
    && LiveOk(hash, v.live)
    && NoDupKeys(Id, v.live)
    && NonIncreasing(v.live)
    && Disjoint(v.live, v.dead)
    && DeadOk(hash, v.dead)
  }

  /** Every record the node holds, live or tombstoned, by identity. */
  ghost function Known(v: View): map<string, Node>
  {
    AsMap(Id, v.live) + v.dead
  }

  /** The first index whose ring position is strictly below `hashCode`, or
      the length: where a record with that position is inserted. */
  function InsertPos(s: seq<Node>, hashCode: int): (p: int)
    ensures 0 <= p <= |s|
    ensures forall j :: 0 <= j < p ==> s[j].hashCode >= hashCode
    ensures p < |s| ==> s[p].hashCode < hashCode
    decreases |s|
  {
    if s == [] then 0
    else if hashCode > s[0].hashCode then 0
    else 1 + InsertPos(s[1..], hashCode)
  }

  lemma InsertAtSorted(s: seq<Node>, x: Node)
    requires NonIncreasing(s)
    ensures NonIncreasing(InsertAt(s, InsertPos(s, x.hashCode), x))
  {
  }

  lemma RemoveAtSorted(s: seq<Node>, p: int)
    requires NonIncreasing(s) && 0 <= p < |s|
    ensures NonIncreasing(RemoveAt(s, p))
  {
  }

  /** Record `r` wins over record `o` of the same identity: a strictly newer
      ack, or an equal ack where `r` says DEAD and `o` says ALIVE. */
  predicate Supersedes(r: Node, o: Node)
  {
    r.latestAck > o.latestAck || (r.latestAck == o.latestAck && r.state == Dead && o.state == Alive)
  }

  /** Knowledge after hearing record `r`: `r` unless a record the node already
      holds for that identity wins over it. */
  ghost function Join(m: map<string, Node>, r: Node): map<string, Node>
  {
    if Id(r) in m && !Supersedes(r, m[Id(r)]) then m else m[Id(r) := r]
  }

  /** The merge of one gossiped record, branch by branch as `update` does it. */
  function MergeRecord(v: View, r: Node): Merged
  {
    var id := Id(r);
    var p := PosOf(Id, v.live, id);
    if p != -1 then
      if r.state == Alive then
        if r.latestAck > v.live[p].latestAck then Merged(View(v.live[p := r], v.dead), false)
        else Merged(v, false)
      else if r.latestAck >= v.live[p].latestAck then
        Merged(View(RemoveAt(v.live, p), v.dead[id := r]), true)
      else Merged(v, false)
    else if id in v.dead then
      if r.state == Alive then
        if r.latestAck > v.dead[id].latestAck then
          Merged(View(InsertAt(v.live, InsertPos(v.live, r.hashCode), r), v.dead - {id}), true)
        else Merged(v, false)
      else if r.latestAck > v.dead[id].latestAck then Merged(View(v.live, v.dead[id := r]), false)
      else Merged(v, false)
    else if r.state == Dead then Merged(View(v.live, v.dead[id := r]), true)
    else Merged(View(InsertAt(v.live, InsertPos(v.live, r.hashCode), r), v.dead), true)
  }

  lemma SameIdSameHash(hash: Hasher, a: Node, b: Node)
    requires WellFormed(hash, a) && WellFormed(hash, b) && Id(a) == Id(b)
    ensures a.hashCode == b.hashCode
  {
    IdInjective(a, b);
  }

  /** The facts about the old view that every branch of the merge uses. */
  lemma KnownSplit(hash: Hasher, v: View, id: string)
    requires ViewInv(hash, v)
    ensures id in Known(v) <==> id in KeysOf(Id, v.live) || id in v.dead
    ensures PosOf(Id, v.live, id) != -1 ==> Known(v)[id] == v.live[PosOf(Id, v.live, id)] && id !in v.dead
    ensures PosOf(Id, v.live, id) == -1 && id in v.dead ==> Known(v)[id] == v.dead[id]
  {
    var p := PosOf(Id, v.live, id);
    if p != -1 {
      AsMapAt(Id, v.live, p);
    }
  }

  /** How an update of one identity in either part shows in their union
      (the right operand of `+` wins on shared keys). */
  lemma UnionUpdate(a: map<string, Node>, d: map<string, Node>, id: string, t: Node)
    ensures (a - {id}) + d[id := t] == (a + d)[id := t]
    ensures a[id := t] + (d - {id}) == (a + d)[id := t]
    ensures a + d[id := t] == (a + d)[id := t]
    ensures id !in d ==> a[id := t] + d == (a + d)[id := t]
  {
    var u := (a + d)[id := t];
    assert ((a - {id}) + d[id := t]).Keys == u.Keys;
    assert (a[id := t] + (d - {id})).Keys == u.Keys;
    assert (a + d[id := t]).Keys == u.Keys;
  }

  lemma LiveOkInsert(hash: Hasher, live: seq<Node>, q: int, r: Node)
    requires LiveOk(hash, live) && 0 <= q <= |live| && WellFormed(hash, r) && r.state == Alive
    ensures LiveOk(hash, InsertAt(live, q, r))
  {
  }

  lemma LiveOkRemove(hash: Hasher, live: seq<Node>, p: int)
    requires LiveOk(hash, live) && 0 <= p < |live|
    ensures LiveOk(hash, RemoveAt(live, p))
  {
  }

  /** Inserting an ALIVE record at its ring position (dropping any tombstone). */
  lemma InsertLive(hash: Hasher, v: View, r: Node)
    requires ViewInv(hash, v) && WellFormed(hash, r) && r.state == Alive
    requires Id(r) !in KeysOf(Id, v.live)
    ensures ViewInv(hash, View(InsertAt(v.live, InsertPos(v.live, r.hashCode), r), v.dead - {Id(r)}))
    ensures Known(View(InsertAt(v.live, InsertPos(v.live, r.hashCode), r), v.dead - {Id(r)})) == Known(v)[Id(r) := r]
  {
    var q := InsertPos(v.live, r.hashCode);
    var l := InsertAt(v.live, q, r);
    LiveOkInsert(hash, v.live, q, r);
    InsertAtKeys(Id, v.live, q, r);
    InsertAtSorted(v.live, r);
    assert Disjoint(l, v.dead - {Id(r)});
    InsertAtView(Id, v.live, q, r);
    UnionUpdate(AsMap(Id, v.live), v.dead, Id(r), r);
  }

  /** Popping a live entry and tombstoning `t`, a DEAD record of its identity. */
  lemma RemoveLive(hash: Hasher, v: View, p: int, t: Node)
    requires ViewInv(hash, v) && 0 <= p < |v.live|
    requires WellFormed(hash, t) && t.state == Dead && Id(t) == Id(v.live[p])
    ensures ViewInv(hash, View(RemoveAt(v.live, p), v.dead[Id(t) := t]))
    ensures Known(View(RemoveAt(v.live, p), v.dead[Id(t) := t])) == Known(v)[Id(t) := t]
  {
    var l := RemoveAt(v.live, p);
    LiveOkRemove(hash, v.live, p);
    RemoveAtKeys(Id, v.live, p);
    RemoveAtSorted(v.live, p);
    assert Disjoint(l, v.dead[Id(t) := t]);
    assert DeadOk(hash, v.dead[Id(t) := t]);
    RemoveAtView(Id, v.live, p);
    UnionUpdate(AsMap(Id, v.live), v.dead, Id(t), t);
  }

  /** Overwriting a live entry with a newer ALIVE record of the same identity. */
  lemma ReplaceLive(hash: Hasher, v: View, p: int, r: Node)
    requires ViewInv(hash, v) && 0 <= p < |v.live|
    requires WellFormed(hash, r) && r.state == Alive && Id(r) == Id(v.live[p])
    ensures ViewInv(hash, View(v.live[p := r], v.dead))
    ensures Known(View(v.live[p := r], v.dead)) == Known(v)[Id(r) := r]
  {
    SameIdSameHash(hash, r, v.live[p]);
    ReplaceKeys(Id, v.live, p, r);
    assert LiveOk(hash, v.live[p := r]);
    assert NonIncreasing(v.live[p := r]);
    ReplaceView(Id, v.live, p, r);
    assert Id(r) !in v.dead;
    UnionUpdate(AsMap(Id, v.live), v.dead, Id(r), r);
  }

  /** Recording a DEAD record for an identity that is not live. */
  lemma Tombstone(hash: Hasher, v: View, t: Node)
    requires ViewInv(hash, v) && WellFormed(hash, t) && t.state == Dead
    requires Id(t) !in KeysOf(Id, v.live)
    ensures ViewInv(hash, View(v.live, v.dead[Id(t) := t]))
    ensures Known(View(v.live, v.dead[Id(t) := t])) == Known(v)[Id(t) := t]
  {
    UnionUpdate(AsMap(Id, v.live), v.dead, Id(t), t);
  }

  lemma MergeLiveNewerAlive(hash: Hasher, v: View, r: Node)
    requires ViewInv(hash, v) && WellFormed(hash, r)
    requires PosOf(Id, v.live, Id(r)) != -1 && r.state == Alive
    requires r.latestAck > v.live[PosOf(Id, v.live, Id(r))].latestAck
    ensures ViewInv(hash, MergeRecord(v, r).view)
    ensures Known(MergeRecord(v, r).view) == Join(Known(v), r)
    ensures !MergeRecord(v, r).changed && Id(r) in KeysOf(Id, MergeRecord(v, r).view.live)
  {
    var p := PosOf(Id, v.live, Id(r));
    KnownSplit(hash, v, Id(r));
    assert MergeRecord(v, r) == Merged(View(v.live[p := r], v.dead), false);
    ReplaceLive(hash, v, p, r);
    ReplaceKeys(Id, v.live, p, r);
  }

  lemma MergeLiveDead(hash: Hasher, v: View, r: Node)
    requires ViewInv(hash, v) && WellFormed(hash, r)
    requires PosOf(Id, v.live, Id(r)) != -1 && r.state == Dead
    requires r.latestAck >= v.live[PosOf(Id, v.live, Id(r))].latestAck
    ensures ViewInv(hash, MergeRecord(v, r).view)
    ensures Known(MergeRecord(v, r).view) == Join(Known(v), r)
    ensures MergeRecord(v, r).changed && Id(r) !in KeysOf(Id, MergeRecord(v, r).view.live)
  {
    var p := PosOf(Id, v.live, Id(r));
    KnownSplit(hash, v, Id(r));
    assert MergeRecord(v, r) == Merged(View(RemoveAt(v.live, p), v.dead[Id(r) := r]), true);
    RemoveLive(hash, v, p, r);
    RemoveAtKeys(Id, v.live, p);
  }

  lemma MergeLiveStale(v: View, r: Node)
    requires PosOf(Id, v.live, Id(r)) != -1
    requires r.state == Alive ==> r.latestAck <= v.live[PosOf(Id, v.live, Id(r))].latestAck
    requires r.state == Dead ==> r.latestAck < v.live[PosOf(Id, v.live, Id(r))].latestAck
    ensures MergeRecord(v, r) == Merged(v, false)
  {
  }

  lemma MergeDeadStale(v: View, r: Node)
    requires PosOf(Id, v.live, Id(r)) == -1 && Id(r) in v.dead
    requires r.latestAck <= v.dead[Id(r)].latestAck
    ensures MergeRecord(v, r) == Merged(v, false)
  {
  }

  lemma MergeLiveCase(hash: Hasher, v: View, r: Node)
    requires ViewInv(hash, v) && WellFormed(hash, r)
    requires PosOf(Id, v.live, Id(r)) != -1
    ensures ViewInv(hash, MergeRecord(v, r).view)
    ensures Known(MergeRecord(v, r).view) == Join(Known(v), r)
    ensures MergeRecord(v, r).changed <==> Id(r) !in KeysOf(Id, MergeRecord(v, r).view.live)
  {
    var o := v.live[PosOf(Id, v.live, Id(r))];
    if r.state == Alive && r.latestAck > o.latestAck {
      MergeLiveNewerAlive(hash, v, r);
    } else if r.state == Dead && r.latestAck >= o.latestAck {
      MergeLiveDead(hash, v, r);
    } else {
      MergeLiveStale(v, r);
      var p := PosOf(Id, v.live, Id(r));
      KnownSplit(hash, v, Id(r));
      LiveAlive(hash, v.live, p);
      JoinKept(Known(v), r, v.live[p]);
    }
  }

  /** A record that does not supersede the one held changes nothing. */
  lemma JoinKept(m: map<string, Node>, r: Node, o: Node)
    requires Id(r) in m && m[Id(r)] == o && o.state == Alive
    requires r.state == Alive ==> r.latestAck <= o.latestAck
    requires r.state == Dead ==> r.latestAck < o.latestAck
    ensures Join(m, r) == m
  {
  }

  lemma LiveAlive(hash: Hasher, live: seq<Node>, p: int)
    requires LiveOk(hash, live) && 0 <= p < |live|
    ensures live[p].state == Alive
  {
  }

  lemma MergeDeadCase(hash: Hasher, v: View, r: Node)
    requires ViewInv(hash, v) && WellFormed(hash, r)
    requires PosOf(Id, v.live, Id(r)) == -1 && Id(r) in v.dead
    ensures ViewInv(hash, MergeRecord(v, r).view)
    ensures Known(MergeRecord(v, r).view) == Join(Known(v), r)
    ensures MergeRecord(v, r).changed <==> Id(r) in KeysOf(Id, MergeRecord(v, r).view.live)
  {
    var o := v.dead[Id(r)];
    if r.state == Alive && r.latestAck > o.latestAck {
      MergeDeadRevive(hash, v, r);
    } else if r.state == Dead && r.latestAck > o.latestAck {
      MergeDeadNewer(hash, v, r);
    } else {
      MergeDeadKept(hash, v, r);
    }
  }

  lemma MergeDeadRevive(hash: Hasher, v: View, r: Node)
    requires ViewInv(hash, v) && WellFormed(hash, r)
    requires PosOf(Id, v.live, Id(r)) == -1 && Id(r) in v.dead
    requires r.state == Alive && r.latestAck > v.dead[Id(r)].latestAck
    ensures ViewInv(hash, MergeRecord(v, r).view)
    ensures Known(MergeRecord(v, r).view) == Join(Known(v), r)
    ensures MergeRecord(v, r).changed && Id(r) in KeysOf(Id, MergeRecord(v, r).view.live)
  {
    var id := Id(r);
    KnownSplit(hash, v, id);
    assert Known(v)[id] == v.dead[id];
    var q := InsertPos(v.live, r.hashCode);
    assert MergeRecord(v, r) == Merged(View(InsertAt(v.live, q, r), v.dead - {id}), true);
    InsertLive(hash, v, r);
    InsertAtKeys(Id, v.live, q, r);
  }

  lemma MergeDeadNewer(hash: Hasher, v: View, r: Node)
    requires ViewInv(hash, v) && WellFormed(hash, r)
    requires PosOf(Id, v.live, Id(r)) == -1 && Id(r) in v.dead
    requires r.state == Dead && r.latestAck > v.dead[Id(r)].latestAck
    ensures ViewInv(hash, MergeRecord(v, r).view)
    ensures Known(MergeRecord(v, r).view) == Join(Known(v), r)
    ensures !MergeRecord(v, r).changed && Id(r) !in KeysOf(Id, MergeRecord(v, r).view.live)
  {
    var id := Id(r);
    KnownSplit(hash, v, id);
    assert Known(v)[id] == v.dead[id];
    assert MergeRecord(v, r) == Merged(View(v.live, v.dead[id := r]), false);
    Tombstone(hash, v, r);
  }

  lemma MergeDeadKept(hash: Hasher, v: View, r: Node)
    requires ViewInv(hash, v) && WellFormed(hash, r)
    requires PosOf(Id, v.live, Id(r)) == -1 && Id(r) in v.dead
    requires r.state == Alive ==> r.latestAck <= v.dead[Id(r)].latestAck
    requires r.state == Dead ==> r.latestAck <= v.dead[Id(r)].latestAck
    ensures MergeRecord(v, r) == Merged(v, false)
    ensures Known(v) == Join(Known(v), r)
    ensures Id(r) !in KeysOf(Id, v.live)
  {
    var id := Id(r);
    KnownSplit(hash, v, id);
    var o := v.dead[id];
    assert Known(v)[id] == o && o.state == Dead;
    assert !Supersedes(r, o);
  }

  lemma MergeUnknownCase(hash: Hasher, v: View, r: Node)
    requires ViewInv(hash, v) && WellFormed(hash, r)
    requires PosOf(Id, v.live, Id(r)) == -1 && Id(r) !in v.dead
    ensures ViewInv(hash, MergeRecord(v, r).view)
    ensures Known(MergeRecord(v, r).view) == Join(Known(v), r)
    ensures MergeRecord(v, r).changed && Id(r) !in Known(v)
  {
    var id := Id(r);
    KnownSplit(hash, v, id);
    if r.state == Dead {
      assert MergeRecord(v, r) == Merged(View(v.live, v.dead[id := r]), true);
      Tombstone(hash, v, r);
    } else {
      var q := InsertPos(v.live, r.hashCode);
      assert v.dead - {id} == v.dead;
      assert MergeRecord(v, r) == Merged(View(InsertAt(v.live, q, r), v.dead - {id}), true);
      InsertLive(hash, v, r);
    }
  }

  /** Merging a record keeps the invariant, changes the node's knowledge
      exactly as `Join` says, and tells the listeners iff the identity was
      unknown or moved between the live list and the tombstones. */
  lemma MergeRecordIsJoin(hash: Hasher, v: View, r: Node)
    requires ViewInv(hash, v) && WellFormed(hash, r)
    ensures ViewInv(hash, MergeRecord(v, r).view)
    ensures Known(MergeRecord(v, r).view) == Join(Known(v), r)
    ensures MergeRecord(v, r).changed <==>
      (Id(r) !in Known(v) || (Id(r) in KeysOf(Id, MergeRecord(v, r).view.live)) != (Id(r) in KeysOf(Id, v.live)))
  {
    var id := Id(r);
    KnownSplit(hash, v, id);
    if PosOf(Id, v.live, id) != -1 {
      MergeLiveCase(hash, v, r);
    } else if id in v.dead {
      MergeDeadCase(hash, v, r);
    } else {
      MergeUnknownCase(hash, v, r);
    }
  }

  /** A record that does not win over what the node already holds for its
      identity leaves the view as it is and tells no listener. */
  lemma MergeStaleIsNoop(hash: Hasher, v: View, r: Node)
    requires ViewInv(hash, v) && WellFormed(hash, r)
    requires Id(r) in Known(v) && !Supersedes(r, Known(v)[Id(r)])
    ensures MergeRecord(v, r) == Merged(v, false)
  {
    KnownSplit(hash, v, Id(r));
    var p := PosOf(Id, v.live, Id(r));
    if p != -1 {
      assert v.live[p].state == Alive;
      MergeLiveStale(v, r);
    } else {
      MergeDeadStale(v, r);
    }
  }

  /** Hearing the same record twice is the same as hearing it once: the
      second merge changes nothing and tells no listener. */
  lemma MergeRecordIdempotent(hash: Hasher, v: View, r: Node)
    requires ViewInv(hash, v) && WellFormed(hash, r)
    ensures MergeRecord(MergeRecord(v, r).view, r) == Merged(MergeRecord(v, r).view, false)
  {
    var w := MergeRecord(v, r).view;
    MergeRecordIsJoin(hash, v, r);
    if Id(r) in Known(v) && !Supersedes(r, Known(v)[Id(r)]) {
      MergeStaleIsNoop(hash, v, r);
    } else {
      assert Known(w)[Id(r)] == r;
      MergeStaleIsNoop(hash, w, r);
    }
  }

  /** The record-by-record merge of a gossiped list, in list order. */
  function MergeAll(v: View, rs: seq<Node>): Merged
    decreases |rs|
  {
    if rs == [] then Merged(v, false)
    else
      var m := MergeAll(v, rs[..|rs| - 1]);
      var s := MergeRecord(m.view, rs[|rs| - 1]);
      Merged(s.view, m.changed || s.changed)
  }

  ghost function JoinAll(k: map<string, Node>, rs: seq<Node>): map<string, Node>
    decreases |rs|
  {
    if rs == [] then k else Join(JoinAll(k, rs[..|rs| - 1]), rs[|rs| - 1])
  }

  /** `update` keeps the invariant. */
  lemma {:induction false} MergeAllInv(hash: Hasher, v: View, rs: seq<Node>)
    requires ViewInv(hash, v)
    requires forall i :: 0 <= i < |rs| ==> WellFormed(hash, rs[i])
    ensures ViewInv(hash, MergeAll(v, rs).view)
    decreases |rs|
  {
    if rs != [] {
      MergeAllInv(hash, v, rs[..|rs| - 1]);
      MergeRecordIsJoin(hash, MergeAll(v, rs[..|rs| - 1]).view, rs[|rs| - 1]);
    }
  }

  /** `update` keeps the invariant and folds `Join` over the message. */
  lemma {:induction false} MergeAllIsJoin(hash: Hasher, v: View, rs: seq<Node>)
    requires ViewInv(hash, v)
    requires forall i :: 0 <= i < |rs| ==> WellFormed(hash, rs[i])
    ensures ViewInv(hash, MergeAll(v, rs).view)
    ensures Known(MergeAll(v, rs).view) == JoinAll(Known(v), rs)
    decreases |rs|
  {
    if rs != [] {
      MergeAllIsJoin(hash, v, rs[..|rs| - 1]);
      MergeRecordIsJoin(hash, MergeAll(v, rs[..|rs| - 1]).view, rs[|rs| - 1]);
    }
  }

  /** The node's knowledge of every identity only ever stores well-formed
      records under their own identity. */
  ghost predicate Consistent(hash: Hasher, k: map<string, Node>)
  {
    forall id :: id in k ==> Id(k[id]) == id && WellFormed(hash, k[id])
  }

  /** Two well-formed records of one identity are equal or one wins over the
      other: the order `Join` uses is total. */
  lemma SupersedesTotal(hash: Hasher, a: Node, b: Node)
    requires WellFormed(hash, a) && WellFormed(hash, b) && Id(a) == Id(b)
    ensures a == b || Supersedes(a, b) || Supersedes(b, a)
    ensures !(Supersedes(a, b) && Supersedes(b, a))
  {
    IdInjective(a, b);
  }

  /** The order in which two records are heard does not change what the node
      knows afterwards (the live list may still order equal ring positions
      differently). */
  lemma JoinCommutes(hash: Hasher, k: map<string, Node>, a: Node, b: Node)
    requires Consistent(hash, k) && WellFormed(hash, a) && WellFormed(hash, b)
    ensures Join(Join(k, a), b) == Join(Join(k, b), a)
  {
    if Id(a) == Id(b) {
      JoinSameId(hash, k, a, b);
    } else {
      JoinOther(k, a, b);
      JoinOther(k, b, a);
    }
  }

  lemma JoinSameId(hash: Hasher, k: map<string, Node>, a: Node, b: Node)
    requires Consistent(hash, k) && WellFormed(hash, a) && WellFormed(hash, b) && Id(a) == Id(b)
    ensures Join(Join(k, a), b) == Join(Join(k, b), a)
  {
    SupersedesTotal(hash, a, b);
    if Id(a) in k {
      SupersedesTotal(hash, a, k[Id(a)]);
      SupersedesTotal(hash, b, k[Id(a)]);
    }
  }

  /** Joining `a` leaves the entry for any other identity as it was. */
  lemma JoinOther(k: map<string, Node>, a: Node, b: Node)
    requires Id(a) != Id(b)
    ensures Id(b) in Join(k, a) <==> Id(b) in k
    ensures Id(b) in k ==> Join(k, a)[Id(b)] == k[Id(b)]
    ensures Join(Join(k, a), b) == (if Id(b) in k && !Supersedes(b, k[Id(b)]) then Join(k, a) else Join(k, a)[Id(b) := b])
  {
  }

  /** Marking one successor that did not answer: if it is still live it is
      set DEAD, tombstoned under its identity and popped from the list. */
  function MarkFailed(v: View, n: Node): Merged
  {
    var p := PosOf(Id, v.live, Id(n));
    if p == -1 then Merged(v, false)
    else Merged(View(RemoveAt(v.live, p), v.dead[Id(n) := v.live[p].(state := Dead)]), true)
  }

  /** The marking of `ping_monitor` over the first `k` pairs of the
      successor snapshot and the ping-result vector. */
  function MarkUpTo(v: View, nodes: seq<Node>, records: seq<bool>, k: nat): Merged
    requires k <= |nodes| && k <= |records|
    decreases k
  {
    if k == 0 then Merged(v, false)
    else
      var m := MarkUpTo(v, nodes, records, k - 1);
      if records[k - 1] then m
      else
        var s := MarkFailed(m.view, nodes[k - 1]);
        Merged(s.view, m.changed || s.changed)
  }

  /** One more pair of the zipped round: a failed ping marks its node. */
  lemma MarkUpToStep(v: View, nodes: seq<Node>, records: seq<bool>, i: nat)
    requires i < |nodes| && i < |records|
    ensures var m := MarkUpTo(v, nodes, records, i);
            var m' := MarkUpTo(v, nodes, records, i + 1);
            && (records[i] ==> m' == m)
            && (!records[i] ==> m'.view == MarkFailed(m.view, nodes[i]).view
                                && m'.changed == (m.changed || MarkFailed(m.view, nodes[i]).changed))
  {
  }

  /** `zip` stops at the shorter of the two lists. */
  function MarkAll(v: View, nodes: seq<Node>, records: seq<bool>): Merged
  {
    MarkUpTo(v, nodes, records, if |nodes| < |records| then |nodes| else |records|)
  }

  /** The identities of the snapshotted successors whose ping failed. */
  function FailedIds(nodes: seq<Node>, records: seq<bool>, k: nat): set<string>
    requires k <= |nodes| && k <= |records|
  {
    set i | 0 <= i < k && !records[i] :: Id(nodes[i])
  }

  /** The live entry of a failed identity, set DEAD: its tombstone. */
  function KilledEntry(live: seq<Node>, id: string): Node
    requires id in KeysOf(Id, live)
  {
    live[PosOf(Id, live, id)].(state := Dead)
  }

  lemma MarkStepMiss(hash: Hasher, v: View, f: set<string>, id: string)
    requires ViewInv(hash, v)
    requires id !in KeysOf(Id, FilterOut(Id, v.live, f))
    ensures FilterOut(Id, v.live, f + {id}) == FilterOut(Id, v.live, f)
    ensures forall y :: y in f + {id} && y in KeysOf(Id, v.live) <==> y in f && y in KeysOf(Id, v.live)
  {
    FilterOutKeys(Id, v.live, f);
    if id in f {
      assert f + {id} == f;
    } else {
      FilterOutNoop(Id, v.live, f, id);
    }
  }

  lemma MarkStepHit(hash: Hasher, v: View, f: set<string>, id: string)
    requires ViewInv(hash, v)
    requires PosOf(Id, FilterOut(Id, v.live, f), id) != -1
    ensures RemoveAt(FilterOut(Id, v.live, f), PosOf(Id, FilterOut(Id, v.live, f), id)) == FilterOut(Id, v.live, f + {id})
    ensures id !in f && id in KeysOf(Id, v.live)
    ensures FilterOut(Id, v.live, f)[PosOf(Id, FilterOut(Id, v.live, f), id)].(state := Dead) == KilledEntry(v.live, id)
  {
    FilterOutRemove(Id, v.live, f, id);
    FilterOutKeys(Id, v.live, f);
    FilteredEntry(v.live, FilterOut(Id, v.live, f), id);
  }

  /** In a duplicate-free list, the entry a sub-list holds for an identity
      is the list's own. */
  lemma FilteredEntry(live: seq<Node>, l: seq<Node>, id: string)
    requires NoDupKeys(Id, live)
    requires forall i :: 0 <= i < |l| ==> l[i] in live
    requires PosOf(Id, l, id) != -1
    ensures id in KeysOf(Id, live)
    ensures l[PosOf(Id, l, id)] == live[PosOf(Id, live, id)]
  {
    var x := l[PosOf(Id, l, id)];
    assert x in live;
    var j :| 0 <= j < |live| && live[j] == x;
    assert PosOf(Id, live, id) == j;
  }

  lemma FailedIdsStep(nodes: seq<Node>, records: seq<bool>, k: nat)
    requires 0 < k <= |nodes| && k <= |records|
    ensures FailedIds(nodes, records, k) ==
      if records[k - 1] then FailedIds(nodes, records, k - 1)
      else FailedIds(nodes, records, k - 1) + {Id(nodes[k - 1])}
  {
  }

  /** `w` is `v` after marking the identities `f` failed: the live list
      without them, in the same order; each of them that was live tombstoned
      as its live entry set DEAD; no other tombstone changed; `changed` iff
      at least one entry was removed. */
  ghost predicate MarkedFrom(hash: Hasher, v: View, w: View, f: set<string>, changed: bool)
  {
    && ViewInv(hash, w)
    && w.live == FilterOut(Id, v.live, f)
    && DeadMarked(v, w.dead, f)
    && (changed <==> exists id :: id in f && id in KeysOf(Id, v.live))
  }

  /** The tombstones after marking `f` failed: the old ones, plus each
      identity of `f` that was live, as its live entry set DEAD. */
  ghost predicate DeadMarked(v: View, dead: map<string, Node>, f: set<string>)
  {
    && (forall id :: id in dead <==> id in v.dead || (id in f && id in KeysOf(Id, v.live)))
    && (forall id :: id in dead ==>
          dead[id] == if id in f && id in KeysOf(Id, v.live) then KilledEntry(v.live, id) else v.dead[id])
  }

  lemma DeadMarkedStep(v: View, dead: map<string, Node>, f: set<string>, id: string)
    requires DeadMarked(v, dead, f) && id !in f && id in KeysOf(Id, v.live)
    ensures DeadMarked(v, dead[id := KilledEntry(v.live, id)], f + {id})
  {
  }

  lemma MarkStepMissCase(hash: Hasher, v: View, w: View, f: set<string>, changed: bool, n: Node)
    requires ViewInv(hash, v) && MarkedFrom(hash, v, w, f, changed)
    requires PosOf(Id, w.live, Id(n)) == -1
    ensures MarkedFrom(hash, v, w, f + {Id(n)}, changed)
  {
    MarkStepMiss(hash, v, f, Id(n));
  }

  lemma MarkStepHitCase(hash: Hasher, v: View, w: View, f: set<string>, changed: bool, n: Node)
    requires ViewInv(hash, v) && MarkedFrom(hash, v, w, f, changed)
    requires PosOf(Id, w.live, Id(n)) != -1
    ensures MarkedFrom(hash, v, MarkFailed(w, n).view, f + {Id(n)}, true)
  {
    var id := Id(n);
    var p := PosOf(Id, w.live, id);
    MarkStepHit(hash, v, f, id);
    var x := w.live[p];
    var t := x.(state := Dead);
    assert t == KilledEntry(v.live, id);
    assert MarkFailed(w, n).view == View(RemoveAt(w.live, p), w.dead[id := t]);
    assert WellFormed(hash, x) && x.state == Alive;
    RemoveLive(hash, w, p, t);
    DeadMarkedStep(v, w.dead, f, id);
  }

  lemma MarkStep(hash: Hasher, v: View, w: View, f: set<string>, changed: bool, n: Node)
    requires ViewInv(hash, v) && MarkedFrom(hash, v, w, f, changed)
    ensures MarkedFrom(hash, v, MarkFailed(w, n).view, f + {Id(n)}, changed || MarkFailed(w, n).changed)
  {
    if PosOf(Id, w.live, Id(n)) == -1 {
      MarkStepMissCase(hash, v, w, f, changed, n);
    } else {
      MarkStepHitCase(hash, v, w, f, changed, n);
    }
  }

  /** The marking over the first `k` pairs of the snapshot and the ping
      results is `MarkedFrom` the identities whose ping failed. */
  lemma {:induction false} MarkUpToSpec(hash: Hasher, v: View, nodes: seq<Node>, records: seq<bool>, k: nat)
    requires ViewInv(hash, v) && k <= |nodes| && k <= |records|
    ensures MarkedFrom(hash, v, MarkUpTo(v, nodes, records, k).view, FailedIds(nodes, records, k),
                       MarkUpTo(v, nodes, records, k).changed)
    decreases k
  {
    if k == 0 {
      MarkNothing(hash, v, nodes, records);
    } else {
      var m := MarkUpTo(v, nodes, records, k - 1);
      var f := FailedIds(nodes, records, k - 1);
      MarkUpToSpec(hash, v, nodes, records, k - 1);
      MarkUpToStep(v, nodes, records, k - 1);
      FailedIdsStep(nodes, records, k);
      if !records[k - 1] {
        MarkStep(hash, v, m.view, f, m.changed, nodes[k - 1]);
      }
    }
  }

  lemma MarkNothing(hash: Hasher, v: View, nodes: seq<Node>, records: seq<bool>)
    requires ViewInv(hash, v)
    ensures MarkedFrom(hash, v, v, FailedIds(nodes, records, 0), false)
  {
    FilterOutNone(Id, v.live);
    assert FailedIds(nodes, records, 0) == {};
  }

  /** `min(n - 1, NUM_SUC)`, where a negative count is an empty range. */
  function SuccessorCount(n: int): (c: nat)
    ensures c <= NUM_SUC && (n >= 1 ==> c <= n - 1)
    ensures c == NUM_SUC || c == n - 1 || (n <= 1 && c == 0)
  {
    if n - 1 < NUM_SUC then (if n >= 1 then n - 1 else 0) else NUM_SUC
  }

  /** `update_successors`: the members after the local node's first
      position, cyclically. */
  function Successors(live: seq<Node>, self: Node): (s: seq<Node>)
  {
    Following(live, PosOf(Id, live, Id(self)), SuccessorCount(|live|))
  }

  /** When the local node is live among `n` members its successors are the
      `min(n - 1, NUM_SUC)` distinct members after it, never itself; with at
      most one member there are none. */
  lemma SuccessorsDistinct(live: seq<Node>, self: Node)
    requires NoDupKeys(Id, live)
    ensures |live| <= 1 ==> Successors(live, self) == []
    ensures forall i :: 0 <= i < |Successors(live, self)| ==> Successors(live, self)[i] in live
    ensures Id(self) in KeysOf(Id, live) ==>
      && |Successors(live, self)| == (if |live| - 1 < NUM_SUC then |live| - 1 else NUM_SUC)
      && NoDupKeys(Id, Successors(live, self))
      && forall i :: 0 <= i < |Successors(live, self)| ==> Id(Successors(live, self)[i]) != Id(self)
  {
    SuccessorsInList(live, self);
    var pos := PosOf(Id, live, Id(self));
    if pos != -1 {
      FollowingDistinct(Id, live, pos, SuccessorCount(|live|));
    }
  }

  lemma SuccessorsInList(live: seq<Node>, self: Node)
    ensures forall i :: 0 <= i < |Successors(live, self)| ==> Successors(live, self)[i] in live
  {
    FollowingIn(live, PosOf(Id, live, Id(self)), SuccessorCount(|live|));
  }
}
