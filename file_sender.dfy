/** The sending side of the streaming file transfer (sdfs/file_sender.py):
    a metadata frame, `name&size` behind its 4-byte big-endian length, then
    the file in chunks of at most `buff_size` bytes, each behind its own
    length. The connection is the byte sequence written to it; the sender
    then waits for one reply and closes, which ends the stream. */
module SdfsFileSender {
  import opened Wrappers
  import opened Decimal
  import opened Bytes
  import opened Utf8

  /** `f"{remote_filename}&{file_size}"`. */
  function MetaText(remoteFilename: string, fileSize: int): string
  {
    remoteFilename + "&" + IntToString(fileSize)
  }

  /** The metadata frame. A text whose encoding is too long for four length
      bytes makes `to_bytes` raise before anything is sent: `None`. */
  function MetaFrame(remoteFilename: string, fileSize: int): (r: Option<seq<byte>>)
    ensures r.Some? <==> |Encode(MetaText(remoteFilename, fileSize))| < TWO_32
    ensures r.Some? ==> |r.value| == 4 + |Encode(MetaText(remoteFilename, fileSize))|
  {
    var meta := Encode(MetaText(remoteFilename, fileSize));
    if |meta| < TWO_32 then Some(BE4(|meta|) + meta) else None
  }

  function Min(a: int, b: int): int
  {
    if a < b then a else b
  }

  /** The successive `f.read(buff_size)` results, up to the first empty
      one: chunks of exactly `buffSize` bytes, then the rest. */
  function Chunks(content: seq<byte>, buffSize: int): (cs: seq<seq<byte>>)
    requires buffSize > 0
    ensures forall i :: 0 <= i < |cs| ==> 0 < |cs[i]| <= buffSize
    ensures forall i :: 0 <= i < |cs| - 1 ==> |cs[i]| == buffSize
    decreases |content|
  {
    if content == [] then []
    else
      var n := Min(buffSize, |content|);
      [content[..n]] + Chunks(content[n..], buffSize)
  }

  /** All chunks, one after the other. */
  function Flatten(cs: seq<seq<byte>>): seq<byte>
  {
    if cs == [] then [] else cs[0] + Flatten(cs[1..])
  }

  /** Each chunk behind its 4-byte length. */
  function Frames(cs: seq<seq<byte>>): seq<byte>
    requires forall i :: 0 <= i < |cs| ==> |cs[i]| < TWO_32
  {
    if cs == [] then [] else BE4(|cs[0]|) + cs[0] + Frames(cs[1..])
  }

  /** The frames `send_file` writes for a file's bytes. */
  function FileFrames(content: seq<byte>, buffSize: int): seq<byte>
    requires 0 < buffSize < TWO_32
  {
    Frames(Chunks(content, buffSize))
  }

  /** The chunks, in order, make up the file. */
  lemma {:induction false} FlattenChunks(content: seq<byte>, buffSize: int)
    requires buffSize > 0
    ensures Flatten(Chunks(content, buffSize)) == content
    decreases |content|
  {
    if content != [] {
      var n := Min(buffSize, |content|);
      FlattenChunks(content[n..], buffSize);
      assert content[..n] + content[n..] == content;
    }
  }

  /** There are `ceil(len / buff_size)` chunks: the fewest that hold the
      file. */
  lemma {:induction false} ChunkCount(content: seq<byte>, buffSize: int)
    requires buffSize > 0
    ensures var k := |Chunks(content, buffSize)|;
            (k - 1) * buffSize < |content| <= k * buffSize
    decreases |content|
  {
    if content != [] {
      var n := Min(buffSize, |content|);
      ChunkCount(content[n..], buffSize);
      var k := |Chunks(content[n..], buffSize)|;
      assert |Chunks(content, buffSize)| == k + 1;
      assert (k + 1) * buffSize == k * buffSize + buffSize;
    }
  }

  /** The frames of a non-empty file start with its first chunk. */
  lemma FramesHead(content: seq<byte>, buffSize: int)
    requires 0 < buffSize < TWO_32 && content != []
    ensures var n := Min(buffSize, |content|);
            FileFrames(content, buffSize) == BE4(n) + content[..n] + FileFrames(content[n..], buffSize)
  {
  }

  /** Sending the next chunk from `cursor` is the first frame of what
      remains from there. */
  lemma FramesStep(content: seq<byte>, cursor: int, buffSize: int)
    requires 0 < buffSize < TWO_32 && 0 <= cursor < |content|
    ensures var n := Min(buffSize, |content| - cursor);
            FileFrames(content[cursor..], buffSize)
            == BE4(n) + content[cursor..cursor + n] + FileFrames(content[cursor + n..], buffSize)
  {
    var rest := content[cursor..];
    var n := Min(buffSize, |rest|);
    assert rest[..n] == content[cursor..cursor + n];
    assert rest[n..] == content[cursor + n..];
  }

  /** Everything `send_file` writes for a file of these bytes. */
  function SendStream(content: seq<byte>, remoteFilename: string, buffSize: int): Option<seq<byte>>
    requires 0 < buffSize < TWO_32
  {
    match MetaFrame(remoteFilename, |content|)
    case None => None
    case Some(meta) => Some(meta + FileFrames(content, buffSize))
  }

  /** Writing the next frame after `out` leaves the frames of the rest to
      write. */
  lemma SendStep(out: seq<byte>, content: seq<byte>, cursor: int, buffSize: int, data: seq<byte>)
    requires 0 < buffSize < TWO_32 && 0 <= cursor < |content|
    requires data == content[cursor..Min(cursor + buffSize, |content|)]
    ensures out + BE4(|data|) + data + FileFrames(content[cursor + |data|..], buffSize)
            == out + FileFrames(content[cursor..], buffSize)
  {
    var n := Min(buffSize, |content| - cursor);
    assert |data| == n;
    FramesStep(content, cursor, buffSize);
    AppendAssoc(out, BE4(n) + content[cursor..cursor + n], FileFrames(content[cursor + n..], buffSize));
  }

  /** What `send_file` writes when it sends anything: the metadata frame,
      then the file's frames. */
  lemma SendStreamShape(content: seq<byte>, remoteFilename: string, buffSize: int)
    requires 0 < buffSize < TWO_32 && SendStream(content, remoteFilename, buffSize).Some?
    ensures var meta := Encode(MetaText(remoteFilename, |content|));
            && |meta| < TWO_32
            && SendStream(content, remoteFilename, buffSize).value == BE4(|meta|) + meta + FileFrames(content, buffSize)
  {
  }

  lemma AppendAssoc(a: seq<byte>, b: seq<byte>, c: seq<byte>)
    ensures a + b + c == a + (b + c)
  {
  }

  /** `send_file`: the metadata frame, then one frame per non-empty read.
      `content` is the file's bytes, so `os.path.getsize` is its length. */
  method SendFile(buffSize: int, content: seq<byte>, remoteFilename: string) returns (sent: Option<seq<byte>>)
    requires 0 < buffSize < TWO_32
    ensures sent == SendStream(content, remoteFilename, buffSize)
  {
    var fileSize := |content|;
    var encodedMetaData := Encode(MetaText(remoteFilename, fileSize));
    var metaChunkSize := |encodedMetaData|;
    if metaChunkSize >= TWO_32 {
      return None;
    }
    var out := SendChunks(buffSize, content, BE4(metaChunkSize) + encodedMetaData);
    return Some(out);
  }

  /** The read-and-send loop of `send_file`, writing after `sent`. */
  method SendChunks(buffSize: int, content: seq<byte>, sent: seq<byte>) returns (out: seq<byte>)
    requires 0 < buffSize < TWO_32
    ensures out == sent + FileFrames(content, buffSize)
  {
    out := sent;
    var cursor := 0;
    assert content[cursor..] == content;
    while true
      invariant 0 <= cursor <= |content|
      invariant out + FileFrames(content[cursor..], buffSize) == sent + FileFrames(content, buffSize)
      decreases |content| - cursor
    {
      var eof;
      out, cursor, eof := SendNext(buffSize, content, cursor, out);
      if eof {
        break;
      }
    }
    assert content[cursor..] == [];
  }

  /** One round of the loop: `f.read(buff_size)`, and unless that is empty,
      the length and the data on the connection. */
  method SendNext(buffSize: int, content: seq<byte>, cursor: int, out: seq<byte>)
      returns (out': seq<byte>, cursor': int, eof: bool)
    requires 0 < buffSize < TWO_32 && 0 <= cursor <= |content|
    ensures eof <==> cursor == |content|
    ensures eof ==> out' == out && cursor' == cursor
    ensures !eof ==> cursor < cursor' <= |content|
    ensures !eof ==> out' + FileFrames(content[cursor'..], buffSize)
                     == out + FileFrames(content[cursor..], buffSize)
  {
    var data := content[cursor..Min(cursor + buffSize, |content|)];
    if data == [] {
      return out, cursor, true;
    }
    var chunkSize := |data|;
    SendStep(out, content, cursor, buffSize, data);
    out' := out + BE4(chunkSize) + data;
    cursor' := cursor + chunkSize;
    eof := false;
  }
}
