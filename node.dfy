/** Node identity (group/node.py): a cluster member, its identity string,
    its ring position and its wire form. */
module GroupNode {
  import opened Wrappers
  import opened Wire
  import opened Config
  import opened Decimal

  /** NodeState.ALIVE = 1, NodeState.DEAD = 2. */
  datatype NodeState = Alive | Dead

  function StateTag(s: NodeState): int
  {
    match s
    case Alive => 1
    case Dead => 2
  }

  function ParseState(tag: int): (r: Option<NodeState>)
    ensures r.Some? ==> StateTag(r.value) == tag
    ensures (tag == 1 || tag == 2) ==> r.Some?
  {
    if tag == 1 then Some(Alive) else if tag == 2 then Some(Dead) else None
  }

  /** The process's salted `hash((hostname, timestamp))`. Python salts string
      hashes per process, so each process is modelled by its own function. */
  type Hasher = (string, int) -> int

  /** A member record. `hashCode` is computed once, by the process that built
      the record, and is its ring position. */
  datatype Node = Node(hostname: string, timestamp: int, state: NodeState, latestAck: int, hashCode: int)

  /** True when `n.hashCode` is what a process hashing with `hash` computes. */
  predicate WellFormed(hash: Hasher, n: Node)
  {
    n.hashCode == hash(n.hostname, n.timestamp) % HASH_M
  }

  /** The constructor `Node(hostname, timestamp, state, latest_ack)`. */
  function NewNode(hash: Hasher, hostname: string, timestamp: int, state: NodeState, latestAck: int): (n: Node)
    ensures 0 <= n.hashCode < HASH_M
    ensures WellFormed(hash, n)
    ensures n.hostname == hostname && n.timestamp == timestamp
    ensures n.state == state && n.latestAck == latestAck
  {
    Node(hostname, timestamp, state, latestAck, hash(hostname, timestamp) % HASH_M)
  }

  /** `str(node)`: the identity string used by `==`, by `in` and as the
      tombstone key. */
  function Id(n: Node): string
  {
    n.hostname + "_" + IntToString(n.timestamp)
  }

  /** `node.__hash__()`. */
  function PyHash(hash: Hasher, n: Node): int
  {
    hash(n.hostname, n.timestamp)
  }

  lemma NoSeparatorInTimestamp(t: int)
    ensures '_' !in IntToString(t)
  {
    IntToStringChars(t);
  }

  /** Two records are the same member (`==`) exactly when hostname and join
      timestamp agree; state and latest_ack play no part. */
  lemma IdInjective(a: Node, b: Node)
    ensures Id(a) == Id(b) <==> (a.hostname == b.hostname && a.timestamp == b.timestamp)
  {
    if Id(a) == Id(b) {
      NoSeparatorInTimestamp(a.timestamp);
      NoSeparatorInTimestamp(b.timestamp);
      SplitAtSeparator('_', a.hostname, IntToString(a.timestamp), b.hostname, IntToString(b.timestamp));
      IntToStringInjective(a.timestamp, b.timestamp);
    }
  }

  /** Equal members hash alike, and records built by one process carry the
      same ring position. */
  lemma EqualNodesHashAlike(hash: Hasher, a: Node, b: Node)
    requires Id(a) == Id(b)
    ensures PyHash(hash, a) == PyHash(hash, b)
    ensures WellFormed(hash, a) && WellFormed(hash, b) ==> a.hashCode == b.hashCode
  {
    IdInjective(a, b);
  }

  /** `encode_node`: `[hostname, timestamp, state, latest_ack]`. */
  function EncodeNode(n: Node): (v: Value)
    ensures v.List? && |v.items| == 4
    ensures v.items[0] == Str(n.hostname) && v.items[1] == Int(n.timestamp)
    ensures v.items[2] == Int(StateTag(n.state)) && v.items[3] == Int(n.latestAck)
  {
    List([Str(n.hostname), Int(n.timestamp), Int(StateTag(n.state)), Int(n.latestAck)])
  }

  /** `decode_node`: reads fields 0..3 and rebuilds the record, recomputing
      the ring position with the receiving process's hash. A list that is too
      short or holds values of the wrong kind is `None`. */
  function DecodeNode(hash: Hasher, v: Value): (r: Option<Node>)
    ensures r.Some? <==> && v.List? && |v.items| >= 4 && v.items[0].Str? && v.items[1].Int?
                         && v.items[2].Int? && (v.items[2].i == 1 || v.items[2].i == 2) && v.items[3].Int?
    ensures r.Some? ==> && r.value.hostname == v.items[0].s && r.value.timestamp == v.items[1].i
                        && StateTag(r.value.state) == v.items[2].i && r.value.latestAck == v.items[3].i
    ensures r.Some? ==> WellFormed(hash, r.value)
  {
    if v.List? && |v.items| >= 4 && v.items[0].Str? && v.items[1].Int?
       && v.items[2].Int? && ParseState(v.items[2].i).Some? && v.items[3].Int?
    then Some(NewNode(hash, v.items[0].s, v.items[1].i, ParseState(v.items[2].i).value, v.items[3].i))
    else None
  }

  /** Decoding an encoded record gives back its hostname, timestamp, state
      and latest_ack, with the ring position the decoding process computes;
      within one process that is the record itself. */
  lemma DecodeEncodeNode(hash: Hasher, n: Node)
    ensures DecodeNode(hash, EncodeNode(n)) == Some(n.(hashCode := hash(n.hostname, n.timestamp) % HASH_M))
    ensures WellFormed(hash, n) ==> DecodeNode(hash, EncodeNode(n)) == Some(n)
  {
  }
}
