# Idunno: a verified model of its membership, file store and job coordinator

Idunno is a small distributed machine-learning inference service. Its nodes:

- keep a gossip membership list with failure detection;
- store versioned, replicated files on a consistent-hashing ring (SDFS);
- stream files to each other in length-prefixed chunks;
- run a coordinator that batches a data set into tasks and hands them to free workers, taking the next task from the job that holds the fewest workers for its batch size and model speed.

This Dafny project models the core of those pieces. Each has one module:

| source | modules |
|---|---|
| group/node.py | `GroupNode` |
| group/message.py | `GroupMessage` |
| group/failure_detector.py | `MembershipView` (the bookkeeping as values), `GroupFailureDetector` (the object) |
| sdfs/file_system.py | `SdfsDirectory` (values), `SdfsFileSystem` (the object) |
| sdfs/transaction.py | `SdfsTransaction` |
| sdfs/file_sender.py | `SdfsFileSender` |
| sdfs/file_receiver.py | `SdfsFileReceiver` |
| coordinator/job.py | `CoordinatorJob` |
| coordinator/job_tracker.py | `CoordinatorJobTracker` |
| coordinator/resource_tracker.py | `CoordinatorResourceTracker` |

Shared modules:

- `Wrappers` (Option);
- `Config` (the constants `HASH_M = 1193`, `NUM_SUC = 4`, `NUM_REPLICA = 3` from utility/config.py);
- `Wire` (the Python values on the wire);
- `Decimal` (`str(int)` and `int(str)`);
- `Bytes` (bytes and the 4-byte big-endian length);
- `Utf8` (strict UTF-8);
- `KeyedLists` (lists looked up by a key string).

How the model represents the source:

- **Classes.** The classes whose methods update their fields are Dafny classes: `FailureDetector`, `FileSystem`, `Job`, `JobTracker` and `ResourceTracker`. Their loops are `while` loops with invariants. Each method is proved equal to a value-level specification function, and the lemmas are stated about those functions.
- **Equality.** Python equality is modelled as the source defines it:
  - nodes compare by `hostname + "_" + str(timestamp)` (`GroupNode.Id`);
  - tasks compare by `job_name + str(task_id)` (`CoordinatorJob.TaskKey`).

  So `in`, `list.remove` and dictionary keys are lookups by those strings.
- **Exceptions.** They are values. The job, trackers, parsers and `join_adjust` return a `Status`, an `Option` or a success flag, and they leave the state as the source leaves it at the raise point. Where that state depends on dictionary order, the model says only what holds for every order.
- **Hashing.** Python's per-process salted `hash()` is a function parameter (`Hasher`, `StrHasher`).
- **Listeners and I/O.** Listeners are logs of what they were handed. Sockets are byte sequences.

## Model

| member | source | states |
|---|---|---|
| GroupNode.NewNode | group/node.py:8-14 | the record keeps its four fields and its ring position is `hash(hostname, timestamp) % HASH_M`, always in `[0, HASH_M)` |
| GroupNode.ParseState | group/node.py:3-5 | a state tag is accepted exactly for ALIVE = 1 and DEAD = 2 and maps back to its tag |
| GroupNode.IdInjective | group/node.py:19-26 | two records are `==` iff hostname and timestamp agree; state and latest_ack play no part |
| GroupNode.EqualNodesHashAlike | group/node.py:14-20 | equal records have equal `__hash__`, and records built by one process have the same ring position |
| GroupNode.EncodeNode | group/node.py:28-29 | the wire form is the list `[hostname, timestamp, state tag, latest_ack]`, in that order |
| GroupNode.DecodeNode | group/node.py:31-32 | a list decodes iff it has at least four entries of the record's kinds with a state tag of 1 or 2; the record takes fields 0-3 in order and the ring position the decoding process computes, not the sender's |
| GroupNode.DecodeEncodeNode | group/node.py:28-32 | decoding an encoded record restores hostname, timestamp, state and latest_ack; within one process, the record itself |
| GroupMessage.NewMessage | group/message.py:10-17 | a message exists iff its tag is PING, ACK or JOIN, and it keeps tag and members |
| GroupMessage.EncodeMessage | group/message.py:19-21 | the wire list has length 1 + members, the tag first, then each member's encoding in order |
| GroupMessage.DecodeNodes | group/message.py:25 | a decoded member list has one record per entry, each the decoding of its entry |
| GroupMessage.DecodeMessage | group/message.py:23-26 | a wire list decodes iff it is non-empty, its tag is an integer PING, ACK or JOIN, and every later entry decodes; the members are those entries' decodings, in order |
| GroupMessage.DecodeEncodeMessage | group/message.py:19-26 | decoding an encoded message restores the type and each member's identity, state and latest_ack, in order |
| MembershipView.InsertPos | group/failure_detector.py:200-205 | the insertion index is the first whose ring position is strictly below the record's, or the length |
| MembershipView.InsertAtSorted | group/failure_detector.py:163-164 | inserting at that index keeps the list non-increasing by ring position |
| MembershipView.RemoveAtSorted | group/failure_detector.py:154 | popping an entry keeps the list non-increasing |
| MembershipView.MergeLiveCase | group/failure_detector.py:147-156 | merging a record of a live member keeps the view invariant and the knowledge join; the listeners are told iff the member left the live list |
| MembershipView.MergeDeadCase | group/failure_detector.py:158-168 | merging a record of a tombstoned member keeps the invariant and the join; the listeners are told iff the member is live again |
| MembershipView.MergeUnknownCase | group/failure_detector.py:170-176 | a record of an unknown member is always news and is added to the knowledge |
| MembershipView.MergeRecordIsJoin | group/failure_detector.py:144-176 | one merge keeps the invariant (no duplicates, live and dead disjoint, sorted) and maps knowledge to `Join(knowledge, record)` |
| MembershipView.MergeStaleIsNoop | group/failure_detector.py:149-168 | a record that does not supersede what is known changes nothing and tells no listener |
| MembershipView.MergeRecordIdempotent | group/failure_detector.py:144-176 | hearing the same record twice is the same as hearing it once |
| MembershipView.MergeAllIsJoin | group/failure_detector.py:135-176 | `update` keeps the invariant and folds `Join` over the message's records |
| MembershipView.SupersedesTotal | group/failure_detector.py:149-168 | two records of one member are equal or exactly one supersedes the other (newer ack; DEAD wins ties) |
| MembershipView.JoinCommutes | group/failure_detector.py:144-176 | the order in which two records are heard does not change what is known |
| MembershipView.MarkUpToSpec | group/failure_detector.py:70-78 | the post-round marking removes exactly the unanswered successors from the live list, tombstones their live entries as DEAD and reports a change iff one was removed |
| MembershipView.SuccessorCount | group/failure_detector.py:184 | the successor count is `min(n - 1, NUM_SUC)`, with none for an empty range |
| MembershipView.SuccessorsDistinct | group/failure_detector.py:181-189 | the successors are `min(n - 1, NUM_SUC)` distinct members after the local node, never itself |
| GroupFailureDetector.FailureDetector.constructor | group/failure_detector.py:21-34 | a new detector holds an ALIVE local record, no members, no tombstones and is not joined |
| GroupFailureDetector.FailureDetector.GetCurrentPos | group/failure_detector.py:192-198 | the first index holding the node's identity, and -1 iff it is not listed |
| GroupFailureDetector.FailureDetector.FindEmptyPos | group/failure_detector.py:200-205 | the first index whose ring position is strictly below the node's, or the length |
| GroupFailureDetector.FailureDetector.UpdateSuccessors | group/failure_detector.py:181-189 | the successor list is the cyclic walk after the local position |
| GroupFailureDetector.FailureDetector.OnUpdateMembership | group/failure_detector.py:229-231 | the listeners are handed the live list |
| GroupFailureDetector.FailureDetector.MergeOne | group/failure_detector.py:145-176 | one round of `update`'s loop equals `MergeRecord` on the view |
| GroupFailureDetector.FailureDetector.Update | group/failure_detector.py:135-179 | `update` equals the record-by-record merge, notifies iff something moved, recomputes the successors and keeps the invariant |
| GroupFailureDetector.FailureDetector.MarkUnackedDead | group/failure_detector.py:69-82 | the end of a ping round equals the marking spec, notifies iff a member was removed, recomputes the successors |
| GroupFailureDetector.FailureDetector.ListenAck | group/failure_detector.py:104-112 | the introducer's answer is merged once; a joined node ignores it |
| GroupFailureDetector.FailureDetector.ListenJoin | group/failure_detector.py:114-119 | only the introducer merges a joining node's records |
| GroupFailureDetector.FailureDetector.ListenPing | group/failure_detector.py:125-129 | the local ack is refreshed with the current time, the records merged, and the reply is an ACK holding the local node alone |
| SdfsDirectory.GetFilenameInjective | sdfs/file_system.py:24-25 | distinct (file, version) pairs with non-negative versions get distinct on-disk names |
| SdfsDirectory.GetFilenameNegativeClash | sdfs/file_system.py:24-25 | with a negative version two pairs share a name |
| SdfsDirectory.GetFilename | sdfs/file_system.py:24-25 | the on-disk name is the file name, a '-', and a suffix that `int()` reads back as the version |
| SdfsDirectory.FileHash | sdfs/file_system.py:346 | a file's ring position lies in `[0, HASH_M)` |
| SdfsDirectory.MainNode | sdfs/file_system.py:345-355 | the owner is a member of the list |
| SdfsDirectory.MainNodeIsHead | sdfs/file_system.py:345-355 | on the failure detector's non-increasing list, the owner of every file is the head |
| SdfsDirectory.StoreVersion | sdfs/file_system.py:371-393 | the next version is recorded, a version already held is acknowledged unchanged, a gap is refused; other files untouched |
| SdfsDirectory.StoreVersionSteps | sdfs/file_system.py:371-393 | recorded versions never go back and never skip |
| SdfsDirectory.StoreVersionIdempotent | sdfs/file_system.py:375-377 | a retransmitted version is acknowledged and changes nothing more |
| SdfsDirectory.StoreInOrder | sdfs/file_system.py:371-374 | versions 1..k delivered in order are all accepted and k is recorded |
| SdfsDirectory.StoreGapRefused | sdfs/file_system.py:378-380 | a skipped version is refused |
| SdfsDirectory.DeleteLatest | sdfs/file_system.py:395-422 | an untracked name fails; the entry is dropped only at version 1, from `main_files` first; other entries unchanged |
| SdfsDirectory.AckedExactly | sdfs/file_system.py:206-208 | the rollback set is exactly the nodes that acknowledged |
| SdfsDirectory.AllAckedCommits | sdfs/file_system.py:189-215 | with every replica acknowledging, the upload commits |
| SdfsDirectory.CurIdx | sdfs/file_system.py:488-492 | the local index is the first position of its identity, 0 when absent |
| SdfsDirectory.ReplicaSuccessorsSpec | sdfs/file_system.py:494-499 | the replica holders are `min(n - 1, NUM_REPLICA)` distinct members other than the local node |
| SdfsDirectory.PredecessorIsCyclic | sdfs/file_system.py:500-502 | the predecessor index is the cyclic predecessor: its first successor is the local index |
| SdfsDirectory.PredecessorNotSelf | sdfs/file_system.py:500-502 | with distinct members, the predecessor is another member |
| SdfsDirectory.PromoteSettles | sdfs/file_system.py:438-441 | after `leave_adjust` no file is lost, promoted files keep their version and no replicated file is owned locally |
| SdfsDirectory.DemoteSettles | sdfs/file_system.py:459-465 | after `join_adjust` no file is lost, remaining main files are owned locally and each demoted file's replica count rose by one |
| SdfsFileSystem.FileSystem.constructor | sdfs/file_system.py:28-47 | a new node has empty lists, no predecessor and empty directories |
| SdfsFileSystem.FileSystem.GetMainNode | sdfs/file_system.py:345-355 | the scan returns `MainNode` |
| SdfsFileSystem.FileSystem.StoreFile | sdfs/file_system.py:364-393 | the owner's directory follows `StoreVersion`, the other is untouched |
| SdfsFileSystem.FileSystem.DeleteFile | sdfs/file_system.py:395-422 | the directories and result follow `DeleteLatest` |
| SdfsFileSystem.FileSystem.CollectAcks | sdfs/file_system.py:196-211 | counts the acknowledgements, remembers the acknowledging nodes in order, touches the `main_files` key |
| SdfsFileSystem.FileSystem.HandleUpload | sdfs/file_system.py:182-224 | commits iff acknowledgements reach `min(n - 1, NUM_REPLICA)`, storing the next version; otherwise rolls back exactly the acknowledging nodes |
| SdfsFileSystem.FileSystem.OnRecvMembershipUpdate | sdfs/file_system.py:481-508 | takes the list, recomputes successors and predecessor, then promotes on a shrink and demotes otherwise; on the join path with at most one member it raises iff a disowned main file holds a version, having demoted only files that cannot raise |
| SdfsFileSystem.FileSystem.LeaveAdjust | sdfs/file_system.py:430-441 | the directories become `Promote` of the locally owned replicated files |
| SdfsFileSystem.FileSystem.JoinAdjust | sdfs/file_system.py:448-475 | the directories become `Demote` of the main files no longer owned; with no predecessor it raises AttributeError iff one of them holds a version, and then only disowned files without a version have been demoted |
| SdfsFileSystem.FileSystem.PromoteIfOwned | sdfs/file_system.py:438-441 | a replicated file whose main node is this host moves to the main directory with its version; any other file leaves both directories unchanged |
| SdfsFileSystem.FileSystem.DemoteIfDisowned | sdfs/file_system.py:459-475 | a main file whose main node is another host leaves the main directory and its replica count rises by one; sending a version to a missing predecessor raises with nothing changed; an owned file leaves both unchanged |
| SdfsTransaction.GenFileTxnParams | sdfs/transaction.py:11-24 | a put/get/delete/list descriptor is the pair `(tag, sdfs_filename)` |
| SdfsTransaction.GenVersionParams | sdfs/transaction.py:27-28 | a version descriptor is `(VERSION, sdfs_filename, local_filename, num_version)`, in that order |
| SdfsTransaction.ParseFileTxn | sdfs/transaction.py:30-48 | a reader succeeds iff the tuple has at least two entries and keeps entries 0 and 1 |
| SdfsTransaction.ParseVersionTxn | sdfs/transaction.py:50-55 | the version reader as written needs three entries, keeps the tag and file name from entries 0 and 1, and reads `num_version` from the local-filename slot |
| SdfsTransaction.TagsDistinct | sdfs/transaction.py:1-6 | the five transaction tags are distinct |
| SdfsTransaction.ParseGenFileTxn | sdfs/transaction.py:11-48 | reading a generated descriptor recovers tag and file name |
| SdfsTransaction.ParseGenVersionTxn | sdfs/transaction.py:27-55 | reading a generated version descriptor recovers tag and names, but `num_version` comes back as the local name |
| SdfsTransaction.VersionCountLost | sdfs/transaction.py:55 | a concrete version descriptor whose count does not survive the round trip |
| SdfsTransaction.ParseVersionTxnIntended | sdfs/transaction.py:50-55 | the corrected reader needs four entries and reads the count from index 3 |
| SdfsTransaction.ParseGenVersionTxnIntended | sdfs/transaction.py:27-55 | the corrected reader recovers everything the generator packed |
| SdfsFileSender.MetaFrame | sdfs/file_sender.py:23-27 | the metadata frame exists iff its UTF-8 text fits a 4-byte length, and is that length plus the text |
| SdfsFileSender.Chunks | sdfs/file_sender.py:38-42 | every chunk is non-empty and at most `buff_size`, and all but the last are exactly `buff_size` |
| SdfsFileSender.FlattenChunks | sdfs/file_sender.py:38-50 | the chunks, in order, make up the file |
| SdfsFileSender.ChunkCount | sdfs/file_sender.py:38-50 | there are `ceil(size / buff_size)` chunks |
| SdfsFileSender.SendFile | sdfs/file_sender.py:12-57 | the bytes written are the metadata frame followed by one length-prefixed frame per chunk |
| SdfsFileSender.SendChunks | sdfs/file_sender.py:35-50 | the read-and-send loop writes the frames of every chunk after what was already sent |
| SdfsFileReceiver.Recv | sdfs/file_receiver.py:37-38 | a read returns at most the bytes asked for, from the stream position |
| SdfsFileReceiver.SplitHead | sdfs/file_receiver.py:41 | `str.split` cuts at the first separator: a head without one is the first piece and the rest splits on |
| SdfsFileReceiver.ParseMetaText | sdfs/file_receiver.py:41-43 | the file name is the text before the first '&' and the size the integer after it; too few pieces or a non-integer fail |
| SdfsFileReceiver.ParseMetaTextRoundTrip | sdfs/file_receiver.py:41-43 | for a name without '&', the metadata text parses back to the name and size |
| SdfsFileReceiver.ReceiveChunks | sdfs/file_receiver.py:52-62 | the chunk loop stops with nothing more at the end of the stream, and never stages more bytes than remain |
| SdfsFileReceiver.Receive | sdfs/file_receiver.py:35-62 | a stream shorter than the 4-byte header is malformed metadata, and a received file is shorter than the stream by at least the header |
| SdfsFileReceiver.ReceiveFrames | sdfs/file_receiver.py:52-62 | reading the frames a sender wrote rebuilds the file |
| SdfsFileReceiver.ReceiveSendStream | sdfs/file_receiver.py:35-62 | receiving a sent stream gives the parsed metadata with the full content |
| SdfsFileReceiver.TransferRoundTrip | sdfs/file_receiver.py:35-62 | a file whose name has no '&' is received with its name, size and exact bytes |
| SdfsFileReceiver.AmpersandNameMisread | sdfs/file_receiver.py:41-43 | a file named `a&7` is staged as `a` with size 7 |
| SdfsFileReceiver.ReadChunk | sdfs/file_receiver.py:54-58 | the inner loop collects exactly the chunk, or stalls when the stream ends short |
| SdfsFileReceiver.ReceiveLoop | sdfs/file_receiver.py:52-62 | the chunk loop stages exactly the content `ReceiveChunks` defines |
| SdfsFileReceiver.Process | sdfs/file_receiver.py:35-69 | `process` on a stream gives `Receive` of it: the file, a malformed-metadata error or a stall |
| CoordinatorJob.TaskKeySameJob | coordinator/job.py:31-35 | two tasks of one job are equal iff their ids are |
| CoordinatorJob.TaskKeyCollision | coordinator/job.py:31-35 | tasks of different jobs can be equal: ("a", 11) and ("a1", 1) |
| CoordinatorJob.NumTaskIsCeil | coordinator/job.py:135 | the task count is the least k with `k * batch >= size` for a positive batch |
| CoordinatorJob.NegativeBatchNoTasks | coordinator/job.py:135-138 | a negative batch size yields no tasks |
| CoordinatorJob.PreparedTasks | coordinator/job.py:134-144 | the prepared list has `ceil(size / batch)` tasks |
| CoordinatorJob.PreparedCoverData | coordinator/job.py:134-144 | the tasks' data, concatenated in order, is the data set |
| CoordinatorJob.PreparedShape | coordinator/job.py:137-142 | task i has id i, the job's names and a non-empty batch of at most `batch_size` items, exactly `batch_size` except the last |
| CoordinatorJob.RemoveTask | coordinator/job.py:187 | `list.remove` drops the first equal task, one shorter |
| CoordinatorJob.ProcessSpec | coordinator/job.py:177-189 | a missing `num_task` raises AttributeError and a task not remaining ValueError, both changing nothing; otherwise the task moves to processed and is assigned; the task count is preserved |
| CoordinatorJob.RemoveResourceSpec | coordinator/job.py:163-166 | an unassigned worker raises KeyError, a task not processed ValueError; otherwise the task returns to the end of the remaining list; the count is preserved |
| CoordinatorJob.ReceiveSpec | coordinator/job.py:191-209 | a result for a task not processed changes nothing; otherwise the task completes, the result is appended, the assignment dropped, and the job is completed iff nothing remains or is processed and all tasks completed |
| CoordinatorJob.Job.constructor | coordinator/job.py:42-75 | a valid job (batch at most the data size) has `num_task` and the prepared tasks; an invalid one has neither |
| CoordinatorJob.Job.Validate | coordinator/job.py:146-161 | a negative batch size always passes, and a passing positive batch size gives at least one task |
| CoordinatorJob.Job.Prepare | coordinator/job.py:134-144 | the loop appends exactly the prepared tasks and returns their count |
| CoordinatorJob.Job.GetTask | coordinator/job.py:168-175 | the first remaining task, or none iff nothing remains |
| CoordinatorJob.Job.ProcessTask | coordinator/job.py:177-189 | follows `ProcessSpec` and keeps the job invariant |
| CoordinatorJob.Job.RemoveResource | coordinator/job.py:163-166 | follows `RemoveResourceSpec` and keeps the job invariant |
| CoordinatorJob.Job.ReceiveResult | coordinator/job.py:191-209 | follows `ReceiveSpec` and keeps the job invariant |
| CoordinatorJob.Job.AllDoneMeansCompleted | coordinator/job.py:206-209 | once nothing remains or is processed, all tasks have completed, so the completion test fires |
| CoordinatorJobTracker.AvgRuntime | coordinator/job_tracker.py:10-13 | exactly AlexNet and ResNet have a run time, and it is positive |
| CoordinatorJobTracker.StrLtTotal | coordinator/job_tracker.py:41 | Python string order is total on distinct names |
| CoordinatorJobTracker.StrLtTransitive | coordinator/job_tracker.py:41 | Python string order is transitive |
| CoordinatorJobTracker.PrecedesOrder | coordinator/job_tracker.py:41 | the (possession, name) sort order is a strict total order on distinct names |
| CoordinatorJobTracker.JobTracker.constructor | coordinator/job_tracker.py:16-22 | a new tracker has no jobs, workers or counts |
| CoordinatorJobTracker.JobTracker.CalResourcePossession | coordinator/job_tracker.py:24-30 | a missing job, count or model raises KeyError and a zero divisor ZeroDivisionError; otherwise the ratio times `batch * avg` is the worker count |
| CoordinatorJobTracker.JobTracker.GetTask | coordinator/job_tracker.py:32-48 | raises iff some job cannot be weighed; none iff no job has a remaining task; else the first remaining task of the first job, in (possession, name) order, that has one |
| CoordinatorJobTracker.JobTracker.Weigh | coordinator/job_tracker.py:37-46 | one job of the scan keeps the best job so far the least in sort order |
| CoordinatorJobTracker.JobTracker.RemoveResource | coordinator/job_tracker.py:50-58 | an unmapped worker is ignored; otherwise the count drops, the worker is unmapped and the job requeues its task, raising KeyError for a job not submitted |
| CoordinatorJobTracker.JobTracker.SumbitJob | coordinator/job_tracker.py:60-64 | the job is registered under its name with a zero count, and `contain_job` then holds |
| CoordinatorJobTracker.JobTracker.ContainJob | coordinator/job_tracker.py:109-110 | a job that is not contained cannot be weighed: `cal_resource_possession` raises KeyError for it |
| CoordinatorJobTracker.JobTracker.AllocateResource | coordinator/job_tracker.py:66-71 | a job without a count raises with nothing changed; otherwise the count rises, the worker is mapped, and the job follows `ProcessSpec` or a missing job raises |
| CoordinatorJobTracker.JobTracker.ReceiveResult | coordinator/job_tracker.py:73-91 | the job follows `ReceiveSpec`, the worker is unmapped, the count drops whether or not the result was accepted, and the listener gets the job iff it is completed |
| CoordinatorJobTracker.JobTracker.Release | coordinator/job_tracker.py:83-85 | unmapping a worker and dropping the count, KeyError when the job has no count |
| CoordinatorResourceTracker.RemoveFirst | coordinator/resource_tracker.py:29-30 | drops one copy of a present node and leaves an absent one's list alone |
| CoordinatorResourceTracker.Failed | coordinator/resource_tracker.py:25-28 | the failed nodes are exactly the alive identities missing from the new list |
| CoordinatorResourceTracker.Joined | coordinator/resource_tracker.py:31-34 | the joined nodes are exactly the new identities not previously alive |
| CoordinatorResourceTracker.RemoveEachFilters | coordinator/resource_tracker.py:25-30 | on a free list without repeats, removing the failed nodes one by one filters them out and keeps the order |
| CoordinatorResourceTracker.UpdateKeepsFreeAlive | coordinator/resource_tracker.py:14-55 | if every free node was alive and none repeats, afterwards every free node is in the new list |
| CoordinatorResourceTracker.RepeatedFreeNodeSurvivesFailure | coordinator/resource_tracker.py:25-30 | a node released twice keeps one free copy after it fails |
| CoordinatorResourceTracker.ResourceTracker.constructor | coordinator/resource_tracker.py:9-12 | a new tracker has no alive or free nodes |
| CoordinatorResourceTracker.ResourceTracker.UpdateResource | coordinator/resource_tracker.py:14-55 | returns the failed nodes in alive order, removes each once from the free list, makes the new list alive and appends the newcomers in input order |
| CoordinatorResourceTracker.ResourceTracker.DropFailed | coordinator/resource_tracker.py:25-30 | the first loop collects the failed nodes and removes each from the free list |
| CoordinatorResourceTracker.ResourceTracker.FindJoined | coordinator/resource_tracker.py:31-34 | the second loop collects the newcomers |
| CoordinatorResourceTracker.ResourceTracker.ReleaseResources | coordinator/resource_tracker.py:57-60 | an alive node is appended to the free list, otherwise nothing changes |
| CoordinatorResourceTracker.ResourceTracker.GetFreeResource | coordinator/resource_tracker.py:62-75 | the last free node, or none iff no node is free |
| CoordinatorResourceTracker.ResourceTracker.NumResources | coordinator/resource_tracker.py:77-78 | the count is zero iff no worker is alive |
| CoordinatorResourceTracker.ResourceTracker.NumResourcesCountsWorkers | coordinator/resource_tracker.py:77-78 | with no worker listed twice, the count is the number of distinct workers alive |
| CoordinatorResourceTracker.ResourceTracker.OccupyResources | coordinator/resource_tracker.py:80-83 | when the node is alive and some node is free, its first copy leaves the free list, and a node not free raises ValueError; otherwise nothing changes |
| Decimal.ParseIntToString | sdfs/file_receiver.py:43 | `int(str(i)) == i` |
| Decimal.IntToStringInjective | group/node.py:26 | distinct integers print differently |
| Utf8.DecodeEncode | sdfs/file_sender.py:24 | strict UTF-8 decoding inverts encoding |
| Bytes.FromBEBE4 | sdfs/file_sender.py:26 | a 4-byte big-endian length reads back as written |

## Left out

- Sockets, datagram transport, threads, locks and `time.sleep` are not modelled. Each method is one atomic step, and listeners are logs. This covers `ping`, `join`, `leave`, `receive`, the `listen_join` reply, `send_txn_params`, `send_file_message`, `receive_txn` and `receive_file_msg`.
- Disk operations are not modelled: `clear_dir`, `move_file`, `os.remove` and the receiver's `tmp_dir` file. For `delete_file` the disk is a set of stored names. The transfers `send_files` makes are left out; the model keeps the directory changes and the AttributeError `send_files` raises on a missing predecessor.
- The acknowledgement messages of the file transfer are not modelled. These are the receiver's replies and the sender's final `recv`.
- A socket `recv(n)` is modelled as returning `min(n, remaining)` bytes. TCP short reads are not modelled.
- `SdfsFileReceiver.Process`: a chunk cut short by the end of the stream makes the source spin forever in its inner loop; the model returns `Stalled`.
- `SdfsFileReceiver.ParseMetaText`: `int()` is modelled on an optional sign followed by decimal digits. Python's acceptance of surrounding whitespace and underscores is not modelled.
- `SdfsFileSender.SendFile`: requires `0 < buff_size < 2^32`; other buffer sizes are not modelled. Characters are Unicode scalar values, so encoding a lone surrogate, which raises in Python, is not modelled.
- `CoordinatorJob.NumTaskIsCeil`: `math.ceil(len / batch)` goes through a float; the model uses exact integer ceiling, which differs only for sizes beyond 2^53.
- `CoordinatorJobTracker.JobTracker.CalResourcePossession`: the possession ratio is an exact `real`, not a float.
- `CoordinatorJobTracker.JobTracker.GetTask`: the sort is modelled as choosing the least job with a remaining task in (possession, name) order. That is the job the sort-then-scan finds, because names are unique. When several jobs cannot be weighed, the model does not say which exception Python raises first.
- `CoordinatorJob.Job.constructor`: requires a non-zero batch size. With batch size 0, `prepare` raises ZeroDivisionError inside the constructor, and that failed construction is not modelled.
- The job's `fs` and `sender` fields, `running_time` and all timing fields are not modelled. Also left out: `get_query_rate`, `get_progress`, `get_stats`, `get_vms`, the tracker's `get_rate`/`get_progress`/`get_stats`/`get_vms`, and `end_time`.
- `GroupFailureDetector.FailureDetector.Update`: requires every gossiped record to carry the ring position the receiving process computes. Every caller meets it: `update` sees only records that `decode_node` rebuilt in the receiving process, and `GroupNode.DecodeNode` recomputes the position there.
- `GroupNode.DecodeNode`: records are restricted to the two state tags and to a string hostname and integer fields. `decode_node` builds a `Node` from any four values, so a record with state 3 would decode and could enter the live list; this program only ever sends 1 or 2.
- `SdfsFileSystem.FileSystem.JoinAdjust`, `SdfsFileSystem.FileSystem.DemoteIfDisowned`, `SdfsFileSystem.FileSystem.OnRecvMembershipUpdate`: the order in which `join_adjust` visits `main_files` is not modelled. When it raises, the model does not say which disowned files without a version were demoted before the raise, only that no file holding a version was.
- `SdfsFileSystem.FileSystem.GetMainNode`: requires a non-empty membership list. On an empty list the source raises IndexError; that case is not modelled.
- `SdfsFileSystem.FileSystem.StoreFile`, `SdfsFileSystem.FileSystem.HandleUpload`: both require a non-empty membership list, for the same IndexError reason.
- `SdfsFileSystem.FileSystem.OnRecvMembershipUpdate`: allows an empty list only when the adjustment it triggers has no files to place; otherwise the source raises IndexError, which is not modelled.
- The `show_store`, `list_addr`, download and upload client paths are client I/O and are not modelled. `handle_download` and the version download are not modelled either.
- coordinator/scheduler.py, worker_mgr.py, worker.py, core.py and ml/predict.py are not part of this model; they are network glue and float inference.

Two behaviours of the code worth knowing:

- The failure detector keeps its live list non-increasing by ring position, not ascending. As a result `get_main_node` always picks the head of the list (`SdfsDirectory.MainNodeIsHead`).
- `cur_idx - 1 % num_member` evaluates to `cur_idx - 1`. A negative index then counts from the end, so the predecessor is still the cyclic one (`SdfsDirectory.PredecessorIsCyclic`).

## Findings

| source | as written | input that shows it | evidently intended | confidence | as-written member | corrected member |
|---|---|---|---|---|---|---|
| sdfs/transaction.py:55 | `num_version` is read from `params[2]`, the local-filename slot | `(5, "f", "out", "3")` reads back with `num_version == "out"` | read `params[3]`, where `genVersionParams` puts the count | high (not executed) | SdfsTransaction.ParseVersionTxn, SdfsTransaction.VersionCountLost | SdfsTransaction.ParseVersionTxnIntended, SdfsTransaction.ParseGenVersionTxnIntended |
