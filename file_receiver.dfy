/** The receiving side of the streaming file transfer
    (sdfs/file_receiver.py, `process`): read a 4-byte length and that many
    metadata bytes, split `name&size`, then read length-prefixed chunks
    until one comes back empty, writing each to the staged file. The
    connection is the byte sequence the peer wrote; `recv(n)` returns the
    next `min(n, remaining)` bytes, and nothing once the peer has closed. */
module SdfsFileReceiver {
  import opened Wrappers
  import opened Decimal
  import opened Bytes
  import opened Utf8
  import opened SdfsFileSender

  /** What `process` ends with: the staged file, a metadata frame it cannot
      read (the UnicodeDecodeError, IndexError and ValueError cases), or a
      chunk whose bytes never all arrive, on which the source waits
      forever. */
  datatype Outcome = Received(filename: string, fileSize: int, content: seq<byte>) | Malformed | Stalled

  /** `conn.recv(n)` with the read position at `pos`. */
  function Recv(stream: seq<byte>, pos: int, n: nat): (r: seq<byte>)
    requires 0 <= pos <= |stream|
    ensures |r| == Min(n, |stream| - pos)
    ensures r == stream[pos..pos + |r|]
  {
    stream[pos..Min(pos + n, |stream|)]
  }

  /** Python's `s.split(sep)`: the pieces between separators, one more
      than there are separators. */
  function Split(s: string, sep: char): (items: seq<string>)
    ensures |items| >= 1
  {
    if s == [] then [""]
    else
      var rest := Split(s[1..], sep);
      if s[0] == sep then [""] + rest else [[s[0]] + rest[0]] + rest[1..]
  }

  /** Text without a separator is one piece. */
  lemma {:induction false} SplitNone(s: string, sep: char)
    requires sep !in s
    ensures Split(s, sep) == [s]
  {
    if s != [] {
      SplitNone(s[1..], sep);
      assert [s[0]] + s[1..] == s;
    }
  }

  /** A separator-free head comes off as the first piece. */
  lemma {:induction false} SplitHead(head: string, sep: char, tail: string)
    requires sep !in head
    ensures Split(head + [sep] + tail, sep) == [head] + Split(tail, sep)
  {
    if head == [] {
      assert head + [sep] + tail == [sep] + tail;
    } else {
      SplitHead(head[1..], sep, tail);
      assert (head + [sep] + tail)[1..] == head[1..] + [sep] + tail;
      assert [head[0]] + head[1..] == head;
    }
  }

  /** Lines 41-43: `item = data.split("&")`, the file name is `item[0]` and
      the size `int(item[1])`; later pieces are ignored. */
  function ParseMetaText(text: string): (r: Option<(string, int)>)
    ensures r.Some? <==> |Split(text, '&')| >= 2 && ParseInt(Split(text, '&')[1]).Some?
    ensures r.Some? ==> r.value == (Split(text, '&')[0], ParseInt(Split(text, '&')[1]).value)
  {
    var items := Split(text, '&');
    if |items| < 2 then None
    else
      match ParseInt(items[1])
      case None => None
      case Some(size) => Some((items[0], size))
  }

  /** Lines 38-43: the metadata bytes, decoded and parsed. */
  function ParseMeta(metaBytes: seq<byte>): (r: Option<(string, int)>)
    ensures r.Some? ==> Decode(metaBytes).Some? && r == ParseMetaText(Decode(metaBytes).value)
  {
    match Decode(metaBytes)
    case None => None
    case Some(text) => ParseMetaText(text)
  }

  /** Empty metadata is one empty piece, with no size to read. */
  lemma ParseMetaEmpty()
    ensures ParseMeta([]) == None
  {
    assert Split("", '&') == [""];
  }

  /** A name without `&` and the size come back out of `name&size`. */
  lemma ParseMetaTextRoundTrip(name: string, size: int)
    requires '&' !in name
    ensures ParseMetaText(MetaText(name, size)) == Some((name, size))
  {
    var digits := IntToString(size);
    IntToStringChars(size);
    assert '&' !in digits;
    SplitHead(name, '&', digits);
    SplitNone(digits, '&');
    ParseIntToString(size);
  }

  /** The chunk loop (lines 52-62) from read position `pos`: the bytes it
      writes to the staged file, or `None` when a chunk is cut short. A
      header of fewer than four bytes is read as the shorter number it
      spells, as `int.from_bytes` does. */
  function ReceiveChunks(stream: seq<byte>, pos: int): (r: Option<seq<byte>>)
    requires 0 <= pos <= |stream|
    ensures pos == |stream| ==> r == Some([])
    ensures r.Some? ==> |r.value| <= |stream| - pos
    decreases |stream| - pos
  {
    var header := Recv(stream, pos, 4);
    var size := FromBE(header);
    var start := pos + |header|;
    var data := Recv(stream, start, size);
    if |data| < size then None
    else if data == [] then Some([])
    else
      match ReceiveChunks(stream, start + |data|)
      case None => None
      case Some(rest) => Some(data + rest)
  }

  /** Everything `process` does with one connection. */
  function Receive(stream: seq<byte>): (r: Outcome)
    ensures |stream| < 4 ==> r == Malformed
    ensures r.Received? ==> |r.content| <= |stream| - 4
  {
    ParseMetaEmpty();
    var header := Recv(stream, 0, 4);
    var metaBytes := Recv(stream, |header|, FromBE(header));
    match ParseMeta(metaBytes)
    case None => Malformed
    case Some((filename, fileSize)) =>
      match ReceiveChunks(stream, |header| + |metaBytes|)
      case None => Stalled
      case Some(content) => Received(filename, fileSize, content)
  }

  /** `file` written ahead of whatever the rest of the loop writes. */
  function Then(file: seq<byte>, r: Option<seq<byte>>): Option<seq<byte>>
  {
    match r
    case None => None
    case Some(rest) => Some(file + rest)
  }

  lemma ThenThen(file: seq<byte>, data: seq<byte>, r: Option<seq<byte>>)
    ensures Then(file, Then(data, r)) == Then(file + data, r)
  {
    if r.Some? {
      assert file + (data + r.value) == file + data + r.value;
    }
  }

  /** One frame `BE4(n) + data` at `pos` is read as a header and a full
      chunk, leaving the read position after it. */
  lemma ReadFrame(stream: seq<byte>, pos: int, n: int, data: seq<byte>, tail: seq<byte>)
    requires 0 <= n < TWO_32 && |data| == n && 0 <= pos <= |stream|
    requires stream[pos..] == BE4(n) + data + tail
    ensures pos + 4 + n <= |stream|
    ensures Recv(stream, pos, 4) == BE4(n)
    ensures FromBE(Recv(stream, pos, 4)) == n
    ensures Recv(stream, pos + 4, n) == data
    ensures stream[pos + 4 + n..] == tail
  {
    assert |stream| - pos == 4 + n + |tail|;
    assert stream[pos..pos + 4] == stream[pos..][..4] == BE4(n);
    FromBEBE4(n);
    assert stream[pos + 4..pos + 4 + n] == stream[pos..][4..4 + n] == data;
    assert stream[pos + 4 + n..] == stream[pos..][4 + n..] == tail;
  }

  lemma TakeDrop(s: seq<byte>, n: int)
    requires 0 <= n <= |s|
    ensures s[..n] + s[n..] == s
  {
  }

  /** At the end of the stream the loop stops: the peer has closed, so the
      header read is empty and announces no bytes. */
  lemma ReceiveChunksEnd(stream: seq<byte>)
    ensures ReceiveChunks(stream, |stream|) == Some([])
  {
    assert Recv(stream, |stream|, 4) == [];
  }

  /** A complete non-empty chunk at `pos` is written, and the loop goes on
      after it. */
  lemma ReceiveChunksFrame(stream: seq<byte>, pos: int, n: int, data: seq<byte>)
    requires 0 < n && |data| == n && 0 <= pos && pos + 4 + n <= |stream|
    requires FromBE(Recv(stream, pos, 4)) == n && Recv(stream, pos + 4, n) == data
    ensures ReceiveChunks(stream, pos) == Then(data, ReceiveChunks(stream, pos + 4 + n))
  {
  }

  /** The first frame of a non-empty file is read as its first chunk. */
  lemma ReceiveFirstFrame(stream: seq<byte>, pos: int, content: seq<byte>, buffSize: int)
    requires 0 < buffSize < TWO_32 && 0 <= pos <= |stream| && content != []
    requires stream[pos..] == FileFrames(content, buffSize)
    ensures pos + 4 + Min(buffSize, |content|) <= |stream|
    ensures stream[pos + 4 + Min(buffSize, |content|)..] == FileFrames(content[Min(buffSize, |content|)..], buffSize)
    ensures ReceiveChunks(stream, pos)
            == Then(content[..Min(buffSize, |content|)], ReceiveChunks(stream, pos + 4 + Min(buffSize, |content|)))
  {
    var n := Min(buffSize, |content|);
    FirstFrameAt(stream, pos, content, buffSize);
    ReceiveChunksFrame(stream, pos, n, content[..n]);
  }

  /** Where the first frame of a non-empty file sits in the stream. */
  lemma FirstFrameAt(stream: seq<byte>, pos: int, content: seq<byte>, buffSize: int)
    requires 0 < buffSize < TWO_32 && 0 <= pos <= |stream| && content != []
    requires stream[pos..] == FileFrames(content, buffSize)
    ensures var n := Min(buffSize, |content|);
            && pos + 4 + n <= |stream|
            && stream[pos + 4 + n..] == FileFrames(content[n..], buffSize)
            && FromBE(Recv(stream, pos, 4)) == n && Recv(stream, pos + 4, n) == content[..n]
  {
    var n := Min(buffSize, |content|);
    var head := content[..n];
    var tail := FileFrames(content[n..], buffSize);
    FramesHead(content, buffSize);
    assert stream[pos..] == BE4(n) + head + tail;
    ReadFrame(stream, pos, n, head, tail);
  }

  /** The chunk frames of a file, followed by the end of the stream, read
      back as the file. */
  lemma {:induction false} ReceiveFrames(stream: seq<byte>, pos: int, content: seq<byte>, buffSize: int)
    requires 0 < buffSize < TWO_32 && 0 <= pos <= |stream|
    requires stream[pos..] == FileFrames(content, buffSize)
    ensures ReceiveChunks(stream, pos) == Some(content)
    decreases |content|
  {
    if content == [] {
      assert Chunks(content, buffSize) == [];
      assert |stream[pos..]| == 0;
      ReceiveChunksEnd(stream);
    } else {
      var n := Min(buffSize, |content|);
      ReceiveFirstFrame(stream, pos, content, buffSize);
      ReceiveFrames(stream, pos + 4 + n, content[n..], buffSize);
      TakeDrop(content, n);
    }
  }

  /** Whatever `send_file` writes, `process` reads its own metadata text
      back and the file's bytes in full. */
  lemma ReceiveSendStream(content: seq<byte>, remoteFilename: string, buffSize: int)
    requires 0 < buffSize < TWO_32
    requires SendStream(content, remoteFilename, buffSize).Some?
    ensures Receive(SendStream(content, remoteFilename, buffSize).value)
            == match ParseMetaText(MetaText(remoteFilename, |content|))
               case None => Malformed
               case Some((filename, fileSize)) => Received(filename, fileSize, content)
  {
    var text := MetaText(remoteFilename, |content|);
    SendStreamShape(content, remoteFilename, buffSize);
    ParseMetaEncode(text);
    ReceiveSent(SendStream(content, remoteFilename, buffSize).value, Encode(text), content, buffSize);
  }

  /** `process` on a metadata frame holding `meta`, then the frames of
      `content`. */
  lemma ReceiveSent(stream: seq<byte>, meta: seq<byte>, content: seq<byte>, buffSize: int)
    requires 0 < buffSize < TWO_32 && |meta| < TWO_32
    requires stream == BE4(|meta|) + meta + FileFrames(content, buffSize)
    ensures Receive(stream) == match ParseMeta(meta)
                               case None => Malformed
                               case Some((filename, fileSize)) => Received(filename, fileSize, content)
  {
    var m := |meta|;
    var frames := FileFrames(content, buffSize);
    assert stream[0..] == BE4(m) + meta + frames;
    ReadFrame(stream, 0, m, meta, frames);
    ReceiveFrames(stream, 4 + m, content, buffSize);
    ReceiveFramed(stream, m, meta, content);
  }

  lemma ParseMetaEncode(text: string)
    ensures ParseMeta(Encode(text)) == ParseMetaText(text)
  {
    DecodeEncode(text);
  }

  /** `process` on a stream whose metadata frame holds `meta` and whose
      chunk loop writes `content`. */
  lemma ReceiveFramed(stream: seq<byte>, m: int, meta: seq<byte>, content: seq<byte>)
    requires 0 <= m && 4 + m <= |stream|
    requires FromBE(Recv(stream, 0, 4)) == m && |Recv(stream, 0, 4)| == 4 && Recv(stream, 4, m) == meta
    requires ReceiveChunks(stream, 4 + m) == Some(content)
    ensures Receive(stream) == match ParseMeta(meta)
                               case None => Malformed
                               case Some((filename, fileSize)) => Received(filename, fileSize, content)
  {
  }

  /** The transfer round trip: for a remote name without `&`, the receiver
      stages exactly the file under that name, with its size. */
  lemma TransferRoundTrip(content: seq<byte>, remoteFilename: string, buffSize: int)
    requires 0 < buffSize < TWO_32 && '&' !in remoteFilename
    requires SendStream(content, remoteFilename, buffSize).Some?
    ensures Receive(SendStream(content, remoteFilename, buffSize).value)
            == Received(remoteFilename, |content|, content)
  {
    ReceiveSendStream(content, remoteFilename, buffSize);
    ParseMetaTextRoundTrip(remoteFilename, |content|);
  }

  /** A name with `&` does not survive: sending an empty file as `a&7`
      stages it as `a`, announced with 7 bytes. */
  lemma AmpersandNameMisread(buffSize: int)
    requires 0 < buffSize < TWO_32
    ensures SendStream([], "a&7", buffSize).Some?
    ensures Receive(SendStream([], "a&7", buffSize).value) == Received("a", 7, [])
  {
    var text := MetaText("a&7", 0);
    assert text == "a&7&0";
    EncodeAscii(text);
    ReceiveSendStream([], "a&7", buffSize);
    AmpersandTextMisread();
  }

  lemma AmpersandTextMisread()
    ensures ParseMetaText("a&7&0") == Some(("a", 7))
  {
    SplitHead("a", '&', "7&0");
    SplitHead("7", '&', "0");
    SplitNone("0", '&');
    assert Split("a&7&0", '&') == ["a", "7", "0"];
    assert ParseInt("7") == Some(7);
  }

  /** Lines 56-58: keep calling `recv` for the rest of the chunk. When the
      peer has closed, `recv` returns nothing and the source loop never
      ends; that is `stalled`. */
  method ReadChunk(stream: seq<byte>, pos: int, chunkSize: nat) returns (data: seq<byte>, stalled: bool)
    requires 0 <= pos <= |stream|
    ensures stalled <==> |Recv(stream, pos, chunkSize)| < chunkSize
    ensures !stalled ==> data == Recv(stream, pos, chunkSize)
  {
    data := Recv(stream, pos, chunkSize);
    stalled := false;
    while |data| < chunkSize && !stalled
      invariant |data| <= chunkSize && pos + |data| <= |stream|
      invariant data == stream[pos..pos + |data|]
      invariant stalled ==> pos + |data| == |stream| && |data| < chunkSize
      decreases chunkSize - |data|, !stalled
    {
      var toRead := chunkSize - |data|;
      var more := Recv(stream, pos + |data|, toRead);
      stalled := more == [];
      data := data + more;
    }
  }

  /** One round of the chunk loop from read position `pos`: the stream has
      ended (`eof`), the chunk is cut short (`stalled`), or `data` is the
      next chunk and reading goes on from `pos'`. */
  method ReceiveNext(stream: seq<byte>, pos: int) returns (data: seq<byte>, pos': int, stalled: bool, eof: bool)
    requires 0 <= pos <= |stream|
    ensures stalled ==> ReceiveChunks(stream, pos) == None
    ensures !stalled && eof ==> ReceiveChunks(stream, pos) == Some([])
    ensures !stalled && !eof ==> pos < pos' <= |stream|
    ensures !stalled && !eof ==> ReceiveChunks(stream, pos) == Then(data, ReceiveChunks(stream, pos'))
  {
    var header := Recv(stream, pos, 4);
    var chunkSize := FromBE(header);
    data, stalled := ReadChunk(stream, pos + |header|, chunkSize);
    eof := data == [];
    pos' := pos + |header| + |data|;
  }

  /** Lines 52-62: the chunk loop, writing to the staged file. */
  method ReceiveLoop(stream: seq<byte>, start: int) returns (staged: Option<seq<byte>>)
    requires 0 <= start <= |stream|
    ensures staged == ReceiveChunks(stream, start)
  {
    var file: seq<byte> := [];
    var pos := start;
    assert Then(file, ReceiveChunks(stream, pos)) == ReceiveChunks(stream, pos) by {
      if ReceiveChunks(stream, pos).Some? {
        assert file + ReceiveChunks(stream, pos).value == ReceiveChunks(stream, pos).value;
      }
    }
    while true
      invariant start <= pos <= |stream|
      invariant ReceiveChunks(stream, start) == Then(file, ReceiveChunks(stream, pos))
      decreases |stream| - pos
    {
      var data, next, stalled, eof := ReceiveNext(stream, pos);
      if stalled {
        return None;
      }
      if eof {
        assert file + [] == file;
        break;
      }
      ThenThen(file, data, ReceiveChunks(stream, next));
      file := file + data;
      pos := next;
    }
    staged := Some(file);
  }

  /** `process`: the metadata frame, then the chunk loop. */
  method Process(stream: seq<byte>) returns (r: Outcome)
    ensures r == Receive(stream)
  {
    var header := Recv(stream, 0, 4);
    var metaChunkSize := FromBE(header);
    var metaBytes := Recv(stream, |header|, metaChunkSize);
    var meta := ParseMeta(metaBytes);
    if meta.None? {
      return Malformed;
    }
    var staged := ReceiveLoop(stream, |header| + |metaBytes|);
    if staged.None? {
      return Stalled;
    }
    return Received(meta.value.0, meta.value.1, staged.value);
  }
}
