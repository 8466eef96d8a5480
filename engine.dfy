/**
 * The module state of the downloader and the handlers that change it: `get`
 * (guards, probe decision, temporary file, chunk dispatch), `cancel`, the
 * per-chunk `data` handler and the `end` handler that feeds the completion
 * barrier. Sockets and the file system are replaced by events and by a map
 * from file names to contents.
 */
module Engine {
  import opened Wrappers
  import Paths
  import Chunks
  import Files
  import Probe
  import Barrier

  datatype Phase = Idle | Downloading | Published | Purged

  /** What `get` passes to its callback: `callback(err)` or `callback(null, true)`. */
  datatype Reply = Failed(message: string) | Succeeded

  /** What the closures of one `get` call capture, with the state of its write streams. */
  datatype Session = Session(
    chunkCount: nat,                 // _chunkCount
    target: string,                  // _filename
    tmpName: string,                 // _tmpFileName
    plan: seq<Chunks.Range>,         // the range of each chunk, by chunk index
    requests: seq<Chunks.Request>,   // the chunk requests, in the order they were started
    written: seq<nat>,               // bytes written by each chunk's stream
    received: seq<Files.Fragment>,   // the fragments written, in arrival order (kept only to state what the file holds)
    ended: set<nat>,                 // the chunks whose request has ended
    aborted: set<nat>,               // chunks whose request has been aborted
    phase: Phase,
    baseCount: nat)                  // _chunksCompleted when the session started

  function Sum(s: seq<nat>): nat {
    if s == [] then 0 else s[0] + Sum(s[1..])
  }

  lemma {:induction false} SumUpdate(s: seq<nat>, i: nat, k: nat)
    requires i < |s|
    ensures Sum(s[i := s[i] + k]) == Sum(s) + k
  {
    if i > 0 {
      assert s[i := s[i] + k][1..] == s[1..][i - 1 := s[i] + k];
      SumUpdate(s[1..], i - 1, k);
    }
  }

  /** Fresh streams have written nothing. */
  function NothingWritten(n: nat): (s: seq<nat>)
    ensures |s| == n && Sum(s) == 0
    ensures forall i :: 0 <= i < n ==> s[i] == 0
  {
    if n == 0 then [] else [0] + NothingWritten(n - 1)
  }

  /** The cached `api.filename` if set, else the decoded last segment of the response path. */
  function ResolveFilename(cached: Option<string>, pathname: string, decodeUri: string -> string): string {
    if cached.Some? then cached.value else decodeUri(Paths.LastSegment(pathname))
  }

  /**
   * A cached name is used unchanged; otherwise the name is the decoded text
   * after the last '/' of the response path.
   */
  lemma ResolvedName(cached: Option<string>, pathname: string, decodeUri: string -> string)
    ensures cached.Some? ==> ResolveFilename(cached, pathname, decodeUri) == cached.value
    ensures cached.None? ==>
      var seg := Paths.LastSegment(pathname);
      && ResolveFilename(cached, pathname, decodeUri) == decodeUri(seg)
      && '/' !in seg && |seg| <= |pathname| && pathname[|pathname| - |seg|..] == seg
      && (|seg| == |pathname| || pathname[|pathname| - |seg| - 1] == '/')
  {
    Paths.LastSegmentShape(pathname);
  }

  /**
   * The name under which the file the streams of `s` write into is found: the
   * temporary name, the final name once it has been renamed, none once unlinked.
   */
  function StreamName(s: Session): Option<string> {
    match s.phase
    case Downloading => Some(s.tmpName)
    case Published => Some(s.target)
    case _ => None
  }

  /** Each stream's position has advanced by exactly the fragments it received. */
  ghost predicate Counted(s: Session) {
    && |s.written| == s.chunkCount
    && Files.ValidFragments(s.received, s.chunkCount)
    && (forall c :: 0 <= c < s.chunkCount ==> s.written[c] == |Files.Received(s.received, c)|)
  }

  /** The file the streams write into, if any, holds the fragments received so far. */
  ghost predicate Holds(s: Session, totalSize: nat, disk: map<string, seq<Files.Byte>>)
    requires Files.ValidFragments(s.received, |s.plan|)
  {
    StreamName(s).Some? ==>
      StreamName(s).value in disk && disk[StreamName(s).value] == Files.Replay(Files.Zeros(totalSize), s.plan, s.received)
  }

  /** The barrier of session `s` has already purged or published. */
  ghost predicate BarrierPassed(s: Session, completed: nat) {
    s.baseCount < s.chunkCount <= completed
  }

  /**
   * How a session relates to the module counters and to the disk: its plan and
   * requests are those of the chunk count and size, the byte counter is what its
   * streams wrote, the chunk counter has risen once per ended request since it
   * started, the phase says which of the two files exists, and the file the
   * streams write into holds every fragment received so far, each at the
   * position its stream had reached.
   */
  ghost predicate Consistent(s: Session, totalSize: nat, bytes: nat, completed: nat, disk: map<string, seq<Files.Byte>>) {
    && s.plan == Chunks.Plan(totalSize, s.chunkCount)
    && Chunks.Dispatched(s.requests, totalSize, s.chunkCount)
    && Counted(s)
    && bytes == Sum(s.written)
    && completed == s.baseCount + |s.ended|
    && (s.phase == Idle ==> s.chunkCount == 0)
    && (s.phase != Idle ==> s.tmpName != s.target)
    && (s.phase != Idle ==> (s.phase == Downloading <==> !BarrierPassed(s, completed)))
    && (s.phase == Downloading ==> s.tmpName in disk)
    && (s.phase == Published ==> s.target in disk && s.tmpName !in disk)
    && (s.phase == Purged ==> s.tmpName !in disk)
    && Holds(s, totalSize, disk)
  }

  /** The session a `get` starts, with its requests. */
  function FreshSession(chunkCount: nat, total: nat, name: string, requests: seq<Chunks.Request>, completed: nat): Session {
    Session(chunkCount, name, Paths.TempName(name), Chunks.Plan(total, chunkCount), requests,
            NothingWritten(chunkCount), [], {}, {}, Downloading, completed)
  }

  /** A fresh session, with its temporary file created, is consistent. */
  lemma FreshSessionConsistent(chunkCount: nat, total: nat, name: string, requests: seq<Chunks.Request>,
                               completed: nat, disk: map<string, seq<Files.Byte>>)
    requires Chunks.Dispatched(requests, total, chunkCount)
    ensures Consistent(FreshSession(chunkCount, total, name, requests, completed), total, 0, completed,
                       disk[Paths.TempName(name) := Files.Zeros(total)])
  {
    Paths.TempNameDiffers(name);
    var s := FreshSession(chunkCount, total, name, requests, completed);
    assert s.phase == Downloading && !BarrierPassed(s, completed);
  }

  /** Session `s` once the stream of chunk `c` has received `data`: its count and the fragments grow. */
  function WithFragment(s: Session, c: nat, data: seq<Files.Byte>): Session
    requires c < |s.written|
  {
    s.(written := s.written[c := s.written[c] + |data|], received := s.received + [Files.Fragment(c, data)])
  }

  /**
   * The disk once the stream of chunk `c` has written `data` at its position
   * into the file it writes into; nothing changes once that file has no name.
   */
  function DiskWithFragment(s: Session, disk: map<string, seq<Files.Byte>>, c: nat, data: seq<Files.Byte>): map<string, seq<Files.Byte>>
    requires c < |s.plan| && c < |s.written|
  {
    match StreamName(s)
    case None => disk
    case Some(file) =>
      if file in disk then disk[file := Files.WriteAt(disk[file], s.plan[c].start + s.written[c], data)] else disk
  }

  /**
   * A fragment written for chunk `c` at its stream's position keeps the session
   * consistent: the counters grow by its length and it joins the received fragments.
   */
  lemma DataConsistent(s: Session, totalSize: nat, bytes: nat, completed: nat,
                       disk: map<string, seq<Files.Byte>>, c: nat, data: seq<Files.Byte>)
    requires Consistent(s, totalSize, bytes, completed, disk)
    requires c < s.chunkCount
    ensures Consistent(WithFragment(s, c, data), totalSize, bytes + |data|, completed, DiskWithFragment(s, disk, c, data))
  {
    SumUpdate(s.written, c, |data|);
    CountedAfterData(s, c, data);
    HoldsAfterData(s, totalSize, disk, c, data);
  }

  lemma CountedAfterData(s: Session, c: nat, data: seq<Files.Byte>)
    requires Counted(s) && c < s.chunkCount
    ensures Counted(s.(written := s.written[c := s.written[c] + |data|], received := s.received + [Files.Fragment(c, data)]))
  {
    var e := Files.Fragment(c, data);
    forall d | 0 <= d < s.chunkCount
      ensures s.written[c := s.written[c] + |data|][d] == |Files.Received(s.received + [e], d)|
    {
      Files.ReceivedSnoc(s.received, e, d);
    }
  }

  lemma HoldsAfterData(s: Session, totalSize: nat, disk: map<string, seq<Files.Byte>>, c: nat, data: seq<Files.Byte>)
    requires Counted(s) && |s.plan| == s.chunkCount && c < s.chunkCount
    requires Holds(s, totalSize, disk)
    ensures Files.ValidFragments(s.received + [Files.Fragment(c, data)], |s.plan|)
    ensures Holds(WithFragment(s, c, data), totalSize, DiskWithFragment(s, disk, c, data))
  {
    Files.ReplaySnoc(Files.Zeros(totalSize), s.plan, s.received, Files.Fragment(c, data));
  }

  /** Marking chunk `c` aborted changes nothing else and keeps the session consistent. */
  lemma AbortConsistent(s: Session, totalSize: nat, bytes: nat, completed: nat,
                        disk: map<string, seq<Files.Byte>>, c: nat)
    requires Consistent(s, totalSize, bytes, completed, disk)
    ensures Consistent(s.(aborted := s.aborted + {c}), totalSize, bytes, completed, disk)
  {
    var a := s.(aborted := s.aborted + {c});
    assert StreamName(a) == StreamName(s) && a.plan == s.plan && a.received == s.received;
  }

  /**
   * However the fragments of the streams have interleaved, once every
   * non-empty chunk has received exactly its bytes of `content`, the file the
   * streams write into begins with `content`; when the empty chunks have
   * received nothing, it is exactly `content`. This holds of the published
   * file too, since the rename keeps the contents.
   */
  lemma StreamFileContent(s: Session, totalSize: nat, bytes: nat, completed: nat,
                          disk: map<string, seq<Files.Byte>>, content: seq<Files.Byte>)
    requires Consistent(s, totalSize, bytes, completed, disk)
    requires |content| == totalSize && s.chunkCount > 0 && StreamName(s).Some?
    requires forall c :: 0 <= c < s.chunkCount && !s.plan[c].IsEmpty() ==>
      Files.Received(s.received, c) == Files.Slice(content, s.plan[c])
    ensures var f := disk[StreamName(s).value];
      |f| >= totalSize && f[..totalSize] == content
    ensures (forall c :: 0 <= c < s.chunkCount && s.plan[c].IsEmpty() ==> Files.Received(s.received, c) == []) ==>
      disk[StreamName(s).value] == content
  {
    Files.Assemble(content, s.chunkCount, s.received);
  }

  /**
   * The end of a chunk that had not ended keeps the session consistent: the
   * counter and the set of ended chunks grow together, and the action the
   * barrier takes moves the phase along with the files.
   */
  lemma EndConsistent(s: Session, totalSize: nat, bytes: nat, completed: nat,
                      disk: map<string, seq<Files.Byte>>, c: nat, cancelled: bool)
    requires Consistent(s, totalSize, bytes, completed, disk)
    requires c < s.chunkCount && c !in s.ended
    ensures var e := s.(ended := s.ended + {c});
      match Barrier.Completion(completed + 1, s.chunkCount, cancelled)
      case Wait => Consistent(e, totalSize, bytes, completed + 1, disk)
      case Purge => Consistent(e.(phase := Purged), totalSize, bytes, completed + 1, disk - {s.tmpName})
      case Publish =>
        Consistent(e.(phase := Published), totalSize, bytes, completed + 1, disk[s.target := disk[s.tmpName]] - {s.tmpName})
  {
    assert |s.ended + {c}| == |s.ended| + 1;
    if completed + 1 == s.chunkCount {
      assert s.phase == Downloading;
    }
  }

  class Downloader {
    var filename: Option<string>                  // api.filename
    var maximumConnections: nat                   // api.maximumConnections
    var bytesDownloaded: nat                      // _totalOfBytesDownloadedFromServer
    var totalSize: nat                            // _totalSizeOfFile
    var chunksCompleted: nat                      // _chunksCompleted, never reset
    var cancelled: bool                           // _cancel
    var session: Session                          // the closures of the last `get`
    var disk: map<string, seq<Files.Byte>>        // the working directory
    var replies: seq<Reply>                       // the callback invocations, in order

    ghost predicate Valid()
      reads this
    {
      Consistent(session, totalSize, bytesDownloaded, chunksCompleted, disk)
    }

    /** The current write position of chunk `c`'s stream: its start offset plus what it wrote. */
    function Position(c: nat): nat
      reads this
      requires c < |session.plan| && c < |session.written|
    {
      session.plan[c].start + session.written[c]
    }

    twostate predicate OnlyRepliesChanged()
      reads this
    {
      && filename == old(filename) && maximumConnections == old(maximumConnections)
      && bytesDownloaded == old(bytesDownloaded) && totalSize == old(totalSize)
      && chunksCompleted == old(chunksCompleted) && cancelled == old(cancelled)
      && session == old(session) && disk == old(disk)
    }

    constructor(existing: map<string, seq<Files.Byte>>)
      ensures Valid()
      ensures filename == None && maximumConnections == 10
      ensures bytesDownloaded == 0 && totalSize == 0 && chunksCompleted == 0 && !cancelled
      ensures session == Session(0, "", "", [], [], [], [], {}, {}, Idle, 0)
      ensures disk == existing && replies == []
    {
      filename := None;
      maximumConnections := 10;
      bytesDownloaded, totalSize, chunksCompleted, cancelled := 0, 0, 0, false;
      session := Session(0, "", "", [], [], [], [], {}, {}, Idle, 0);
      disk := existing;
      replies := [];
    }

    /**
     * `get(options, callback)`, once the HEAD request has replied. It throws
     * without a callback, reports the guard errors through the callback, and
     * otherwise starts a download session.
     */
    method Get(hasCallback: bool, uri: Option<string>, reply: Probe.HeadReply, decodeUri: string -> string)
      returns (threw: bool)
      requires Valid()
      modifies this
      ensures Valid()
      ensures var d := Probe.Decide(hasCallback, uri, reply, old(maximumConnections));
        && (threw <==> d.Throw?)
        && (d.Throw? ==> OnlyRepliesChanged() && replies == old(replies))
        && (d.Reject? ==> OnlyRepliesChanged() && replies == old(replies) + [Failed(Probe.Message(d.error))])
        && (d.Proceed? ==> Started(d.chunkCount, d.totalSize, ResolveFilename(old(filename), d.pathname, decodeUri)))
    {
      var d := Probe.Decide(hasCallback, uri, reply, maximumConnections);
      threw := d.Throw?;
      if d.Reject? {
        replies := replies + [Failed(Probe.Message(d.error))];
      } else if d.Proceed? {
        Start(d.chunkCount, d.totalSize, ResolveFilename(filename, d.pathname, decodeUri));
      }
    }

    /**
     * A session of `chunkCount` chunks for a file of `total` bytes named `name`
     * has just started: the byte counter and the cancel flag are reset (the
     * chunk counter is not), the name is cached, the temporary file exists at
     * the full size, and every chunk request has been started, last chunk first.
     */
    twostate predicate Started(chunkCount: nat, total: nat, name: string)
      reads this
    {
      && filename == Some(name)
      && maximumConnections == old(maximumConnections)
      && bytesDownloaded == 0 && !cancelled
      && totalSize == total
      && chunksCompleted == old(chunksCompleted)
      && disk == old(disk)[Paths.TempName(name) := Files.Zeros(total)]
      && replies == old(replies)
      && session == FreshSession(chunkCount, total, name, session.requests, old(chunksCompleted))
      && Chunks.Dispatched(session.requests, total, chunkCount)
    }

    /** The part of `get` that runs once the guards have passed. */
    method Start(chunkCount: nat, total: nat, name: string)
      requires Valid()
      modifies this
      ensures Valid()
      ensures Started(chunkCount, total, name)
    {
      bytesDownloaded, cancelled, filename, totalSize := 0, false, Some(name), total;
      var requests := Chunks.Dispatch(total, chunkCount);
      FreshSessionConsistent(chunkCount, total, name, requests, chunksCompleted, disk);
      disk := disk[Paths.TempName(name) := Files.Zeros(total)];
      session := FreshSession(chunkCount, total, name, requests, chunksCompleted);
    }

    /** `cancel()`: only raises the flag; streams and the barrier observe it later. */
    method Cancel()
      requires Valid()
      modifies this`cancelled
      ensures Valid() && cancelled
    {
      cancelled := true;
    }

    /**
     * The `data` handler of chunk `c`. With the cancel flag raised it aborts
     * the request and neither counts nor writes the fragment; otherwise it adds
     * the fragment's length to the byte counter and writes it at the stream's
     * position, which then advances by that length.
     */
    method OnData(c: nat, data: seq<Files.Byte>)
      requires Valid() && c < session.chunkCount && c !in session.ended
      modifies this`bytesDownloaded, this`session, this`disk
      ensures Valid()
      ensures old(cancelled) ==>
        && bytesDownloaded == old(bytesDownloaded) && disk == old(disk)
        && session == old(session).(aborted := old(session.aborted) + {c})
      ensures !old(cancelled) ==>
        && bytesDownloaded == old(bytesDownloaded) + |data|
        && session == WithFragment(old(session), c, data)
        && Position(c) == old(Position(c)) + |data|
        && disk == DiskWithFragment(old(session), old(disk), c, data)
    {
      if cancelled {
        AbortConsistent(session, totalSize, bytesDownloaded, chunksCompleted, disk, c);
        session := session.(aborted := session.aborted + {c});
        return;
      }
      DataConsistent(session, totalSize, bytesDownloaded, chunksCompleted, disk, c, data);
      bytesDownloaded, session, disk :=
        bytesDownloaded + |data|, WithFragment(session, c, data), DiskWithFragment(session, disk, c, data);
    }

    /**
     * The `end` handler of chunk `c` with `_doHandleDownloadChunkDone`: the
     * counter rises by one, and only when it equals the chunk count is the
     * temporary file unlinked (cancel raised) or renamed onto the final name
     * with a success reply.
     */
    method OnEnd(c: nat)
      requires Valid() && c < session.chunkCount && c !in session.ended
      modifies this`chunksCompleted, this`session, this`disk, this`replies
      ensures Valid()
      ensures chunksCompleted == old(chunksCompleted) + 1
      ensures var s := old(session).(ended := old(session.ended) + {c});
        match Barrier.Completion(chunksCompleted, s.chunkCount, cancelled)
        case Wait =>
          session == s && disk == old(disk) && replies == old(replies)
        case Purge =>
          session == s.(phase := Purged) && disk == old(disk) - {s.tmpName} && replies == old(replies)
        case Publish =>
          && session == s.(phase := Published)
          && disk == old(disk)[s.target := old(disk)[s.tmpName]] - {s.tmpName}
          && replies == old(replies) + [Succeeded]
    {
      EndConsistent(session, totalSize, bytesDownloaded, chunksCompleted, disk, c, cancelled);
      chunksCompleted := chunksCompleted + 1;
      var ended := session.(ended := session.ended + {c});
      match Barrier.Completion(chunksCompleted, session.chunkCount, cancelled)
      case Wait =>
        session := ended;
      case Purge =>
        session, disk := ended.(phase := Purged), disk - {ended.tmpName};
      case Publish =>
        session, disk := ended.(phase := Published), disk[ended.target := disk[ended.tmpName]] - {ended.tmpName};
        replies := replies + [Succeeded];
    }
  }
}
