/** Gossip messages (group/message.py): a type tag and a membership snapshot,
    and their wire form `[type, encoded member, ...]`. */
module GroupMessage {
  import opened Wrappers
  import opened Wire
  import opened GroupNode

  /** MessageType.PING = 1, ACK = 2, JOIN = 3. */
  datatype MessageType = Ping | Ack | Join

  function TypeTag(t: MessageType): int
  {
    match t
    case Ping => 1
    case Ack => 2
    case Join => 3
  }

  datatype Message = Message(msgType: MessageType, members: seq<Node>)

  /** The constructor `Message(msg_type, membership_list)`: a tag other than
      PING, ACK or JOIN ends the process, modelled as `None`. */
  function NewMessage(tag: int, members: seq<Node>): (r: Option<Message>)
    ensures r.Some? <==> (tag == 1 || tag == 2 || tag == 3)
    ensures r.Some? ==> TypeTag(r.value.msgType) == tag && r.value.members == members
  {
    if tag == 1 then Some(Message(Ping, members))
    else if tag == 2 then Some(Message(Ack, members))
    else if tag == 3 then Some(Message(Join, members))
    else None
  }

  /** `[encode_node(member) for member in membership_list]`. */
  function EncodeNodes(ns: seq<Node>): (vs: seq<Value>)
    ensures |vs| == |ns|
    ensures forall i :: 0 <= i < |ns| ==> vs[i] == EncodeNode(ns[i])
  {
    seq(|ns|, i requires 0 <= i < |ns| => EncodeNode(ns[i]))
  }

  /** `encode_message`: the type tag, then one encoded record per member, in
      list order. */
  function EncodeMessage(m: Message): (v: Value)
    ensures v.List? && |v.items| == 1 + |m.members|
    ensures v.items[0] == Int(TypeTag(m.msgType))
    ensures forall i :: 0 <= i < |m.members| ==> v.items[i + 1] == EncodeNode(m.members[i])
  {
    List([Int(TypeTag(m.msgType))] + EncodeNodes(m.members))
  }

  /** `[decode_node(node_list) for node_list in msg_list[1:]]`; the first
      record that cannot be decoded makes the whole list fail. */
  function DecodeNodes(hash: Hasher, vs: seq<Value>): (r: Option<seq<Node>>)
    ensures r.Some? <==> forall i :: 0 <= i < |vs| ==> DecodeNode(hash, vs[i]).Some?
    ensures r.Some? ==> |r.value| == |vs|
    ensures r.Some? ==> forall i :: 0 <= i < |vs| ==> DecodeNode(hash, vs[i]) == Some(r.value[i])
  {
    if vs == [] then Some([])
    else
      match DecodeNode(hash, vs[0])
      case None => None
      case Some(n) =>
        match DecodeNodes(hash, vs[1..])
        case None => None
        case Some(rest) => Some([n] + rest)
  }

  /** `decode_message`: field 0 is the tag, the rest are member records. An
      empty list (IndexError), a record that cannot be decoded and a bad tag
      (process exit) are `None`. */
  function DecodeMessage(hash: Hasher, v: Value): (r: Option<Message>)
    ensures r.Some? <==> && v.List? && |v.items| >= 1 && v.items[0].Int?
                         && (v.items[0].i == 1 || v.items[0].i == 2 || v.items[0].i == 3)
                         && forall i :: 1 <= i < |v.items| ==> DecodeNode(hash, v.items[i]).Some?
    ensures r.Some? ==> && TypeTag(r.value.msgType) == v.items[0].i && |r.value.members| == |v.items| - 1
                        && forall i :: 0 <= i < |r.value.members| ==> DecodeNode(hash, v.items[i + 1]) == Some(r.value.members[i])
  {
    if v.List? && |v.items| >= 1 && v.items[0].Int? then
      match DecodeNodes(hash, v.items[1..])
      case None => None
      case Some(ns) => NewMessage(v.items[0].i, ns)
    else None
  }

  lemma {:induction false} DecodeEncodeNodes(hash: Hasher, ns: seq<Node>)
    ensures DecodeNodes(hash, EncodeNodes(ns)).Some?
  {
    if ns != [] {
      assert EncodeNodes(ns)[1..] == EncodeNodes(ns[1..]);
      DecodeEncodeNode(hash, ns[0]);
      DecodeEncodeNodes(hash, ns[1..]);
    }
  }

  /** Decoding an encoded message, in any process, gives the same type and
      a member list that is equal member by member (same identity, state and
      latest_ack, in order); in the encoding process it is the message
      itself. */
  lemma DecodeEncodeMessage(hash: Hasher, m: Message)
    ensures DecodeMessage(hash, EncodeMessage(m)).Some?
    ensures var d := DecodeMessage(hash, EncodeMessage(m)).value;
      && d.msgType == m.msgType
      && |d.members| == |m.members|
      && forall i :: 0 <= i < |m.members| ==>
           Id(d.members[i]) == Id(m.members[i]) && d.members[i].state == m.members[i].state
           && d.members[i].latestAck == m.members[i].latestAck
    ensures (forall i :: 0 <= i < |m.members| ==> WellFormed(hash, m.members[i])) ==>
      DecodeMessage(hash, EncodeMessage(m)) == Some(m)
  {
    var v := EncodeMessage(m);
    assert v.items[1..] == EncodeNodes(m.members);
    DecodeEncodeNodes(hash, m.members);
    var ns := DecodeNodes(hash, v.items[1..]).value;
    forall i | 0 <= i < |m.members|
      ensures ns[i] == m.members[i].(hashCode := ns[i].hashCode)
    {
      DecodeEncodeNode(hash, m.members[i]);
    }
    if forall i :: 0 <= i < |m.members| ==> WellFormed(hash, m.members[i]) {
      forall i | 0 <= i < |m.members| ensures ns[i] == m.members[i] {
        DecodeEncodeNode(hash, m.members[i]);
      }
      assert ns == m.members;
    }
  }
}
