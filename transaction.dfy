/** Transaction descriptors (sdfs/transaction.py): the tuples a client sends
    to ask for a put, get, delete, list or versioned get, and the records a
    server reads back out of them. The reader classes index the tuple and
    keep whatever values they find; a tuple too short to index is the
    IndexError case, `None` here. */
module SdfsTransaction {
  import opened Wrappers
  import opened Wire

  /** `TrasanctionType`: the five tags. */
  const PUT := 1
  const GET := 2
  const DELETE := 3
  const LIST := 4
  const VERSION := 5

  /** `genPutTxnParams`, `genGetTxnParams`, `genDeleteTxnParams` and
      `genListTxnParams`: the pair `(tag, sdfs_filename)`. */
  function GenFileTxnParams(tag: int, sdfsFilename: string): (v: Value)
    requires tag in {PUT, GET, DELETE, LIST}
    ensures v.Tuple? && |v.items| == 2
    ensures v.items[0] == Int(tag) && v.items[1] == Str(sdfsFilename)
  {
    Tuple([Int(tag), Str(sdfsFilename)])
  }

  /** `genVersionParams`: `(Version, sdfs_filename, local_filename,
      num_version)`. */
  function GenVersionParams(sdfsFilename: string, localFilename: string, numVersion: Value): (v: Value)
    ensures v.Tuple? && |v.items| == 4
    ensures v.items[0] == Int(VERSION) && v.items[1] == Str(sdfsFilename)
    ensures v.items[2] == Str(localFilename) && v.items[3] == numVersion
  {
    Tuple([Int(VERSION), Str(sdfsFilename), Str(localFilename), numVersion])
  }

  /** What `PutTransaction`, `GetTransaction`, `DeleteTransaction` and
      `ListTransaction` keep: index 0 and index 1. */
  datatype FileTxn = FileTxn(txnType: Value, sdfsFilename: Value)

  /** The four identical reader constructors. */
  function ParseFileTxn(params: seq<Value>): (r: Option<FileTxn>)
    ensures r.Some? <==> |params| >= 2
    ensures r.Some? ==> r.value.txnType == params[0] && r.value.sdfsFilename == params[1]
  {
    if |params| < 2 then None else Some(FileTxn(params[0], params[1]))
  }

  /** What `VersionTransaction` keeps. */
  datatype VersionTxn = VersionTxn(txnType: Value, sdfsFilename: Value, localFilename: Value, numVersion: Value)

  /** `VersionTransaction` as written: `num_version` is read from index 2,
      the same slot as `local_filename`, so only three entries are needed. */
  function ParseVersionTxn(params: seq<Value>): (r: Option<VersionTxn>)
    ensures r.Some? <==> |params| >= 3
    ensures r.Some? ==> r.value.txnType == params[0] && r.value.sdfsFilename == params[1]
    ensures r.Some? ==> r.value.numVersion == r.value.localFilename == params[2]
  {
    if |params| < 3 then None else Some(VersionTxn(params[0], params[1], params[2], params[2]))
  }

  /** `VersionTransaction` reading `num_version` from index 3, where
      `genVersionParams` puts it. */
  function ParseVersionTxnIntended(params: seq<Value>): (r: Option<VersionTxn>)
    ensures r.Some? <==> |params| >= 4
    ensures r.Some? ==> r.value.txnType == params[0] && r.value.sdfsFilename == params[1]
    ensures r.Some? ==> r.value.localFilename == params[2] && r.value.numVersion == params[3]
  {
    if |params| < 4 then None else Some(VersionTxn(params[0], params[1], params[2], params[3]))
  }

  /** The five tags are distinct. */
  lemma TagsDistinct()
    ensures |{PUT, GET, DELETE, LIST, VERSION}| == 5
  {
  }

  /** Reading a generated file transaction recovers its tag and file name. */
  lemma ParseGenFileTxn(tag: int, sdfsFilename: string)
    requires tag in {PUT, GET, DELETE, LIST}
    ensures ParseFileTxn(GenFileTxnParams(tag, sdfsFilename).items) == Some(FileTxn(Int(tag), Str(sdfsFilename)))
  {
  }

  /** Reading a generated version transaction recovers the tag and both
      file names, but `num_version` comes back as the local file name. */
  lemma ParseGenVersionTxn(sdfsFilename: string, localFilename: string, numVersion: Value)
    ensures var r := ParseVersionTxn(GenVersionParams(sdfsFilename, localFilename, numVersion).items);
            && r.Some?
            && r.value.txnType == Int(VERSION)
            && r.value.sdfsFilename == Str(sdfsFilename)
            && r.value.localFilename == Str(localFilename)
            && r.value.numVersion == Str(localFilename)
  {
  }

  /** So a version count is lost unless it equals the local file name:
      `(5, "f", "out", "3")` reads back with `num_version == "out"`. */
  lemma VersionCountLost()
    ensures ParseVersionTxn(GenVersionParams("f", "out", Str("3")).items).value.numVersion != Str("3")
  {
  }

  /** Reading from index 3 recovers everything `genVersionParams` packed. */
  lemma ParseGenVersionTxnIntended(sdfsFilename: string, localFilename: string, numVersion: Value)
    ensures ParseVersionTxnIntended(GenVersionParams(sdfsFilename, localFilename, numVersion).items)
            == Some(VersionTxn(Int(VERSION), Str(sdfsFilename), Str(localFilename), numVersion))
  {
  }
}
