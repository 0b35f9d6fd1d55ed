/** The file directory of sdfs/file_system.py as values: which member owns
    a file on the ring, the version discipline of `store_file`, the
    directory part of `delete_file`, the replica quorum of `handle_upload`,
    the ring neighbours of `on_recv_membership_update` and the promote and
    demote steps of `leave_adjust` and `join_adjust`. The `FileSystem`
    class in `SdfsFileSystem` is proved to follow these definitions. */
module SdfsDirectory {
  import opened Wrappers
  import opened Config
  import opened Decimal
  import opened GroupNode
  import opened KeyedLists
  import opened MembershipView

  /** The process's salted `hash(filename)`. */
  type StrHasher = string -> int

  /** `main_files` and `replicated_files`: file name to latest version. */
  datatype Directory = Directory(main: map<string, int>, replicated: map<string, int>)

  /** `get_filename`: the on-disk name of one version of a file. */
  function GetFilename(filename: string, version: int): (r: string)
    ensures |r| > |filename| + 1 && r[..|filename|] == filename && r[|filename|] == '-'
    ensures ParseInt(r[|filename| + 1..]) == Some(version)
  {
    ParseIntToString(version);
    var r := filename + "-" + IntToString(version);
    assert r[|filename| + 1..] == IntToString(version);
    r
  }

  /** Versions are counted from 1, and the on-disk names of distinct
      (file, version) pairs differ: the printed version holds no '-'. */
  lemma GetFilenameInjective(f1: string, v1: int, f2: string, v2: int)
    requires v1 >= 0 && v2 >= 0
    ensures GetFilename(f1, v1) == GetFilename(f2, v2) <==> f1 == f2 && v1 == v2
  {
    if GetFilename(f1, v1) == GetFilename(f2, v2) {
      assert '-' !in IntToString(v1) && '-' !in IntToString(v2) by {
        assert AllDigits(NatToString(v1)) && AllDigits(NatToString(v2));
      }
      SplitAtSeparator('-', f1, IntToString(v1), f2, IntToString(v2));
      IntToStringInjective(v1, v2);
    }
  }

  /** A negative version breaks that: `get_filename("a-", 1)` is
      `get_filename("a", -1)`. */
  lemma GetFilenameNegativeClash()
    ensures GetFilename("a-", 1) == GetFilename("a", -1)
  {
    assert IntToString(1) == "1";
    assert IntToString(-1) == "-1";
  }

  // ---------------------------------------------------------------------
  // Ring ownership (`get_main_node`)
  // ---------------------------------------------------------------------

  /** `hash(filename) % HASH_M`: the file's ring position. */
  function FileHash(strHash: StrHasher, filename: string): (h: int)
    ensures 0 <= h < HASH_M
  {
    strHash(filename) % HASH_M
  }

  /** The first index, in list order, whose ring position is at least `fh`,
      or -1 when there is none. */
  function FirstAtOrAbove(ml: seq<Node>, fh: int): (p: int)
    ensures -1 <= p < |ml|
    ensures p >= 0 ==> fh <= ml[p].hashCode
    ensures p >= 0 ==> forall j :: 0 <= j < p ==> ml[j].hashCode < fh
    ensures p == -1 <==> forall j :: 0 <= j < |ml| ==> ml[j].hashCode < fh
  {
    if ml == [] then -1
    else if fh <= ml[0].hashCode then 0
    else
      var p := FirstAtOrAbove(ml[1..], fh);
      if p == -1 then -1 else p + 1
  }

  /** `get_main_node`: the first member whose ring position is at least the
      file's, and the head of the list when none is. */
  function MainNode(strHash: StrHasher, ml: seq<Node>, filename: string): (n: Node)
    requires |ml| > 0
    ensures n in ml
  {
    var p := FirstAtOrAbove(ml, FileHash(strHash, filename));
    if p == -1 then ml[0] else ml[p]
  }

  /** The failure detector keeps its list non-increasing by ring position,
      so the scan stops at the head or finds nothing: every file is owned by
      the first member. */
  lemma MainNodeIsHead(strHash: StrHasher, ml: seq<Node>, filename: string)
    requires |ml| > 0 && NonIncreasing(ml)
    ensures MainNode(strHash, ml, filename) == ml[0]
  {
    assert forall j :: 0 <= j < |ml| ==> ml[j].hashCode <= ml[0].hashCode;
  }

  /** The local process (by hostname) owns the file on this ring. */
  predicate Owns(strHash: StrHasher, ml: seq<Node>, host: string, filename: string)
  {
    |ml| > 0 && MainNode(strHash, ml, filename).hostname == host
  }

  // ---------------------------------------------------------------------
  // Version discipline (`store_file`)
  // ---------------------------------------------------------------------

  /** A `defaultdict(int)` read: the recorded version, 0 when missing. */
  function Version(dir: map<string, int>, f: string): int
  {
    if f in dir then dir[f] else 0
  }

  /** The side effect of a `defaultdict` read: a missing key is inserted
      with 0. */
  function Touch(dir: map<string, int>, f: string): (r: map<string, int>)
    ensures f in r && r[f] == Version(dir, f)
    ensures r - {f} == dir - {f}
  {
    if f in dir then dir else dir[f := 0]
  }

  /** One branch of `store_file` on the directory it picked: the next
      version is recorded, a version already held is acknowledged without
      change, and a gap is refused. The read touches the key. */
  function StoreVersion(dir: map<string, int>, f: string, version: int): (r: (map<string, int>, bool))
    ensures f in r.0
    ensures r.0 - {f} == dir - {f}
    ensures r.1 <==> version <= Version(dir, f) + 1
    ensures r.0[f] == if version == Version(dir, f) + 1 then version else Version(dir, f)
  {
    var stored := Version(dir, f);
    if stored + 1 == version then (Touch(dir, f)[f := version], true)
    else if stored >= version then (Touch(dir, f), true)
    else (Touch(dir, f), false)
  }

  /** Recorded versions never go back and never skip. */
  lemma StoreVersionSteps(dir: map<string, int>, f: string, version: int)
    ensures Version(dir, f) <= Version(StoreVersion(dir, f, version).0, f) <= Version(dir, f) + 1
  {
  }

  /** A retransmitted version is acknowledged and changes nothing more. */
  lemma StoreVersionIdempotent(dir: map<string, int>, f: string, version: int)
    ensures var once := StoreVersion(dir, f, version);
            StoreVersion(once.0, f, version) == (once.0, once.1 || version == Version(dir, f) + 1)
  {
  }

  /** Several `store_file` calls for one file, in order; `ok` is whether
      every one was accepted. */
  function StoreAll(dir: map<string, int>, f: string, versions: seq<int>): (r: (map<string, int>, bool))
  {
    if versions == [] then (dir, true)
    else
      var prev := StoreAll(dir, f, versions[..|versions| - 1]);
      var last := StoreVersion(prev.0, f, versions[|versions| - 1]);
      (last.0, prev.1 && last.1)
  }

  /** The versions 1..k, in order. */
  function UpTo(k: nat): (s: seq<int>)
    ensures |s| == k && forall i :: 0 <= i < k ==> s[i] == i + 1
  {
    seq(k, i => i + 1)
  }

  /** Delivering versions 1..k one by one to a directory that has never
      seen the file accepts them all and records k. */
  lemma {:induction false} StoreInOrder(dir: map<string, int>, f: string, k: nat)
    requires Version(dir, f) == 0
    ensures StoreAll(dir, f, UpTo(k)).1
    ensures Version(StoreAll(dir, f, UpTo(k)).0, f) == k
  {
    if k > 0 {
      assert UpTo(k)[..k - 1] == UpTo(k - 1);
      StoreInOrder(dir, f, k - 1);
    }
  }

  /** Skipping a version is refused and records nothing new. */
  lemma StoreGapRefused(dir: map<string, int>, f: string, version: int)
    requires version > Version(dir, f) + 1
    ensures !StoreVersion(dir, f, version).1
    ensures StoreVersion(dir, f, version).0 == Touch(dir, f)
  {
  }

  // ---------------------------------------------------------------------
  // `delete_file`
  // ---------------------------------------------------------------------

  /** The directory part of `delete_file`. `onDisk` is the set of file
      names present in the storage directory. The latest version is looked
      up in `main_files` first; an untracked name or a missing on-disk file
      fails; the entry is dropped only when its version is 1. */
  function DeleteLatest(d: Directory, f: string, onDisk: set<string>): (r: (Directory, bool))
    ensures f !in d.main && f !in d.replicated ==> r == (d, false)
    ensures r.1 <==> (f in d.main || f in d.replicated)
                     && GetFilename(f, if f in d.main then d.main[f] else d.replicated[f]) in onDisk
    ensures !r.1 ==> r.0 == d
    ensures r.0.main - {f} == d.main - {f} && r.0.replicated - {f} == d.replicated - {f}
    ensures f in r.0.main ==> f in d.main && r.0.main[f] == d.main[f]
    ensures f in r.0.replicated ==> f in d.replicated && r.0.replicated[f] == d.replicated[f]
    ensures r.1 && f in d.main ==> (f in r.0.main <==> d.main[f] != 1) && r.0.replicated == d.replicated
    ensures r.1 && f !in d.main ==> (f in r.0.replicated <==> d.replicated[f] != 1) && r.0.main == d.main
  {
    if f !in d.main && f !in d.replicated then (d, false)
    else
      var version := if f in d.main then d.main[f] else d.replicated[f];
      if GetFilename(f, version) !in onDisk then (d, false)
      else if version == 1 then
        if f in d.main then (d.(main := d.main - {f}), true)
        else (d.(replicated := d.replicated - {f}), true)
      else (d, true)
  }

  // ---------------------------------------------------------------------
  // Replica quorum (`handle_upload`)
  // ---------------------------------------------------------------------

  /** `min(len(membership_list) - 1, NUM_REPLICA)`; negative for an empty
      list. */
  function ReplicaCount(n: int): int
  {
    if n - 1 < NUM_REPLICA then n - 1 else NUM_REPLICA
  }

  /** The number of successful acknowledgements. */
  function CountTrue(acks: seq<bool>): (n: nat)
    ensures n <= |acks|
  {
    if acks == [] then 0
    else CountTrue(acks[..|acks| - 1]) + if acks[|acks| - 1] then 1 else 0
  }

  /** The nodes whose acknowledgement succeeded, in order. */
  function Acked(nodes: seq<Node>, acks: seq<bool>): (r: seq<Node>)
    requires |nodes| == |acks|
    ensures |r| == CountTrue(acks)
    ensures forall x :: x in r ==> x in nodes
  {
    if acks == [] then []
    else
      var prev := Acked(nodes[..|nodes| - 1], acks[..|acks| - 1]);
      if acks[|acks| - 1] then prev + [nodes[|nodes| - 1]] else prev
  }

  /** Every node that acknowledged is asked to roll back, and no other. */
  lemma {:induction false} AckedExactly(nodes: seq<Node>, acks: seq<bool>, x: Node)
    requires |nodes| == |acks|
    ensures x in Acked(nodes, acks) <==> exists i :: 0 <= i < |acks| && acks[i] && nodes[i] == x
  {
    if acks != [] {
      var n := |acks| - 1;
      AckedExactly(nodes[..n], acks[..n], x);
      if x in Acked(nodes, acks) && !(acks[n] && nodes[n] == x) {
        var i :| 0 <= i < n && acks[..n][i] && nodes[..n][i] == x;
        assert acks[i] && nodes[i] == x;
      }
      if exists i :: 0 <= i < |acks| && acks[i] && nodes[i] == x {
        var i :| 0 <= i < |acks| && acks[i] && nodes[i] == x;
        if i < n {
          assert acks[..n][i] && nodes[..n][i] == x;
        }
      }
    }
  }

  /** With all acknowledgements in, the upload commits exactly when the
      replica count is reached. */
  lemma AllAckedCommits(acks: seq<bool>, members: nat)
    requires forall i :: 0 <= i < |acks| ==> acks[i]
    requires |acks| == (if ReplicaCount(members) < 0 then 0 else ReplicaCount(members))
    ensures CountTrue(acks) >= ReplicaCount(members)
  {
    AllTrueCount(acks);
  }

  lemma {:induction false} AllTrueCount(acks: seq<bool>)
    requires forall i :: 0 <= i < |acks| ==> acks[i]
    ensures CountTrue(acks) == |acks|
  {
    if acks != [] {
      AllTrueCount(acks[..|acks| - 1]);
    }
  }

  // ---------------------------------------------------------------------
  // Ring neighbours (`on_recv_membership_update`)
  // ---------------------------------------------------------------------

  /** The local node's index: its first position by identity, 0 if absent. */
  function CurIdx(ml: seq<Node>, self: Node): (i: int)
    ensures 0 <= i && (|ml| > 0 ==> i < |ml|)
    ensures Id(self) in KeysOf(Id, ml) ==> i == PosOf(Id, ml, Id(self))
  {
    var p := PosOf(Id, ml, Id(self));
    if p == -1 then 0 else p
  }

  /** The replica holders: the `min(n - 1, NUM_REPLICA)` members after the
      local index, cyclically. */
  function ReplicaSuccessors(ml: seq<Node>, self: Node): seq<Node>
  {
    var k := ReplicaCount(|ml|);
    Following(ml, CurIdx(ml, self), if k < 0 then 0 else k)
  }

  /** Python's `s[i]`, where a negative index counts from the end. */
  function PyIndex<T>(s: seq<T>, i: int): T
    requires -|s| <= i < |s|
  {
    if i < 0 then s[|s| + i] else s[i]
  }

  /** `list[cur_idx - 1]` when there are at least two members. */
  function Predecessor(ml: seq<Node>, self: Node): Option<Node>
  {
    if |ml| > 1 then Some(PyIndex(ml, CurIdx(ml, self) - 1)) else None
  }

  /** The replica holders are distinct members other than the local node,
      `min(n - 1, NUM_REPLICA)` of them, and none with one member. */
  lemma ReplicaSuccessorsSpec(ml: seq<Node>, self: Node)
    requires NoDupKeys(Id, ml)
    ensures |ml| <= 1 ==> ReplicaSuccessors(ml, self) == []
    ensures forall i :: 0 <= i < |ReplicaSuccessors(ml, self)| ==> ReplicaSuccessors(ml, self)[i] in ml
    ensures Id(self) in KeysOf(Id, ml) ==>
      && |ReplicaSuccessors(ml, self)| == (if |ml| - 1 < NUM_REPLICA then |ml| - 1 else NUM_REPLICA)
      && NoDupKeys(Id, ReplicaSuccessors(ml, self))
      && forall i :: 0 <= i < |ReplicaSuccessors(ml, self)| ==> Id(ReplicaSuccessors(ml, self)[i]) != Id(self)
  {
    var k := ReplicaCount(|ml|);
    FollowingIn(ml, CurIdx(ml, self), if k < 0 then 0 else k);
    if Id(self) in KeysOf(Id, ml) {
      FollowingDistinct(Id, ml, CurIdx(ml, self), k);
    }
  }

  /** Although written `cur_idx - 1 % num_member`, the index is the cyclic
      predecessor: another position, whose first successor is the local
      index. */
  lemma PredecessorIsCyclic(ml: seq<Node>, self: Node)
    requires |ml| > 1
    ensures var c := CurIdx(ml, self);
            var q := if c == 0 then |ml| - 1 else c - 1;
            && q != c
            && Predecessor(ml, self) == Some(ml[q])
            && Following(ml, q, 1) == [ml[c]]
  {
    PredecessorAt(ml, CurIdx(ml, self));
  }

  /** The cyclic predecessor of index `c`: `list[c - 1]` reads it, and the
      ring walk from it reaches `c` first. */
  lemma PredecessorAt(ml: seq<Node>, c: int)
    requires |ml| > 1 && 0 <= c < |ml|
    ensures var q := if c == 0 then |ml| - 1 else c - 1;
            && PyIndex(ml, c - 1) == ml[q]
            && Following(ml, q, 1) == [ml[c]]
  {
    var n := |ml|;
    var q := if c == 0 then n - 1 else c - 1;
    ModBelowTwice(q + 1, n);
    assert Following(ml, q, 1)[0] == ml[c];
  }

  /** With distinct members and the local node among them, the predecessor
      is another member. */
  lemma PredecessorNotSelf(ml: seq<Node>, self: Node)
    requires |ml| > 1 && NoDupKeys(Id, ml) && Id(self) in KeysOf(Id, ml)
    ensures Predecessor(ml, self).Some?
    ensures Id(Predecessor(ml, self).value) != Id(self)
  {
    PredecessorIsCyclic(ml, self);
  }

  // ---------------------------------------------------------------------
  // Re-replication (`leave_adjust`, `join_adjust`)
  // ---------------------------------------------------------------------

  /** The replicated files among `keys` that the local process owns on the
      ring `ml`. */
  function OwnedAmong(strHash: StrHasher, ml: seq<Node>, host: string, keys: set<string>): (s: set<string>)
    ensures s <= keys
  {
    set f | f in keys && Owns(strHash, ml, host, f)
  }

  /** The main files among `keys` the local process no longer owns. */
  function DisownedAmong(strHash: StrHasher, ml: seq<Node>, host: string, keys: set<string>): (s: set<string>)
    ensures s <= keys
  {
    set f | f in keys && !Owns(strHash, ml, host, f)
  }

  /** `leave_adjust`'s first loop over the files in `mine`: each moves from
      `replicated_files` to `main_files` with its version. */
  function Promote(d: Directory, mine: set<string>): (r: Directory)
    requires mine <= d.replicated.Keys
  {
    Directory(
      map f | f in d.main.Keys + mine :: if f in mine then d.replicated[f] else d.main[f],
      map f | f in d.replicated.Keys - mine :: d.replicated[f])
  }

  /** `join_adjust`'s second loop over the files in `gone`: each leaves
      `main_files`, and its `replicated_files` count (0 when missing) goes
      up by one. */
  function Demote(d: Directory, gone: set<string>): (r: Directory)
    requires gone <= d.main.Keys
  {
    Directory(
      map f | f in d.main.Keys - gone :: d.main[f],
      map f | f in d.replicated.Keys + gone :: Version(d.replicated, f) + if f in gone then 1 else 0)
  }

  /** After `leave_adjust` no tracked file is lost, every promoted file keeps
      its version, and no replicated file is owned locally any more. */
  lemma PromoteSettles(strHash: StrHasher, ml: seq<Node>, host: string, d: Directory)
    ensures var mine := OwnedAmong(strHash, ml, host, d.replicated.Keys);
            var r := Promote(d, mine);
            && r.main.Keys + r.replicated.Keys == d.main.Keys + d.replicated.Keys
            && (forall f :: f in mine ==> r.main[f] == d.replicated[f])
            && (forall f :: f in d.main && f !in mine ==> r.main[f] == d.main[f])
            && (forall f :: f in r.replicated ==> r.replicated[f] == d.replicated[f] && !Owns(strHash, ml, host, f))
  {
  }

  /** After `join_adjust` no tracked file is lost, every main file left is
      owned locally, and each demoted file's replica count went up by
      exactly one; other entries are unchanged. */
  lemma DemoteSettles(strHash: StrHasher, ml: seq<Node>, host: string, d: Directory)
    ensures var gone := DisownedAmong(strHash, ml, host, d.main.Keys);
            var r := Demote(d, gone);
            && r.main.Keys + r.replicated.Keys == d.main.Keys + d.replicated.Keys
            && (forall f :: f in r.main ==> r.main[f] == d.main[f] && Owns(strHash, ml, host, f))
            && (forall f :: f in gone ==> r.replicated[f] == Version(d.replicated, f) + 1)
            && (forall f :: f in d.replicated && f !in gone ==> r.replicated[f] == d.replicated[f])
  {
  }

  /** One file of `leave_adjust`'s loop: it moves to `main_files` with its
      version. */
  function PromoteFile(d: Directory, f: string): (r: Directory)
    requires f in d.replicated
    ensures f in r.main && f !in r.replicated && r.main[f] == d.replicated[f]
  {
    Directory(d.main[f := d.replicated[f]], d.replicated - {f})
  }

  /** One file of `join_adjust`'s loop: it leaves `main_files` and its
      replica count goes up by one. */
  function DemoteFile(d: Directory, f: string): (r: Directory)
    ensures f !in r.main && f in r.replicated && r.replicated[f] == Version(d.replicated, f) + 1
  {
    Directory(d.main - {f}, d.replicated[f := Version(d.replicated, f) + 1])
  }

  /** One more promoted file is one more step of the loop. */
  lemma PromoteStep(d: Directory, mine: set<string>, f: string)
    requires mine <= d.replicated.Keys && f in d.replicated && f !in mine
    ensures f in Promote(d, mine).replicated && Promote(d, mine).replicated[f] == d.replicated[f]
    ensures Promote(d, mine + {f}) == PromoteFile(Promote(d, mine), f)
  {
  }

  /** One more demoted file is one more step of the loop. */
  lemma DemoteStep(d: Directory, gone: set<string>, f: string)
    requires gone <= d.main.Keys && f in d.main && f !in gone
    ensures f in Demote(d, gone).main && Demote(d, gone).main[f] == d.main[f]
    ensures Version(Demote(d, gone).replicated, f) == Version(d.replicated, f)
    ensures Demote(d, gone + {f}) == DemoteFile(Demote(d, gone), f)
  {
  }

  /** The disowned main files `join_adjust` cannot hand over when there is
      no predecessor: each holds a version, so `send_files(..., [None])`
      reads `None.hostname` and raises AttributeError. */
  function Unsendable(d: Directory, gone: set<string>): (s: set<string>)
    ensures forall f :: f in s <==> f in gone && f in d.main && d.main[f] >= 1
  {
    set f | f in gone && f in d.main && d.main[f] >= 1
  }

  /** `join_adjust` with no predecessor stops at an unsendable file: the
      files demoted before it are not unsendable. */
  lemma UnsendableFound(d: Directory, demoted: set<string>, disowned: set<string>, f: string)
    requires demoted <= disowned && f in disowned && f in d.main && d.main[f] >= 1
    requires forall g :: g in demoted && g in d.main ==> d.main[g] < 1
    ensures Unsendable(d, disowned) != {} && demoted !! Unsendable(d, disowned)
  {
    assert f in Unsendable(d, disowned);
  }

  /** `join_adjust` with no predecessor runs to the end only when no
      disowned file is unsendable. */
  lemma UnsendableNone(d: Directory, disowned: set<string>)
    requires forall g :: g in disowned && g in d.main ==> d.main[g] < 1
    ensures Unsendable(d, disowned) == {}
  {
  }

  /** The owned set grows by the file just looked at, when it is owned. */
  lemma OwnedAmongStep(strHash: StrHasher, ml: seq<Node>, host: string, done: set<string>, f: string)
    ensures OwnedAmong(strHash, ml, host, done + {f}) ==
      if Owns(strHash, ml, host, f) then OwnedAmong(strHash, ml, host, done) + {f}
      else OwnedAmong(strHash, ml, host, done)
  {
  }

  /** The disowned set grows by the file just looked at, when it is not
      owned. */
  lemma DisownedAmongStep(strHash: StrHasher, ml: seq<Node>, host: string, done: set<string>, f: string)
    ensures DisownedAmong(strHash, ml, host, done + {f}) ==
      if Owns(strHash, ml, host, f) then DisownedAmong(strHash, ml, host, done)
      else DisownedAmong(strHash, ml, host, done) + {f}
  {
  }
}
