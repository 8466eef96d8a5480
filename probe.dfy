/**
 * The guards of `get` and the decision it takes on the reply to its HEAD
 * request: whether to throw, which error to report through the callback,
 * or how many chunks to download and how large the file is.
 */
module Probe {
  import opened Wrappers
  import Chunks
  import Text

  /** What the HEAD request delivered to its callback. */
  datatype HeadReply =
    | TransportFailure(message: string)
    | Response(statusCode: int, contentLength: Option<nat>, acceptRanges: Option<string>, pathname: string)

  /** The errors `get` reports through its callback. */
  datatype Error =
    | NoUri
    | Transport(message: string)
    | BadStatus(code: int)
    | BadContentLength

  datatype Decision =
    | Throw
    | Reject(error: Error)
    | Proceed(chunkCount: nat, totalSize: nat, pathname: string)

  /** `!options || !options.uri`: an absent or empty uri is missing. */
  predicate HasUri(uri: Option<string>) {
    uri.Some? && uri.value != ""
  }

  /**
   * The decision of `get`. The chunk count is read from `maximumConnections`
   * when `get` is called; the HEAD request is made only once both guards pass.
   * Header values are strings, so the test against the number 0 at the
   * Content-Length guard never holds and only an absent header is refused.
   */
  function Decide(hasCallback: bool, uri: Option<string>, reply: HeadReply, maximumConnections: nat): Decision {
    if !hasCallback then Throw
    else if !HasUri(uri) then Reject(NoUri)
    else match reply
      case TransportFailure(message) => Reject(Transport(message))
      case Response(status, length, ranges, pathname) =>
        if status != 200 then Reject(BadStatus(status))
        else if length.None? then Reject(BadContentLength)
        else
          var chunkCount := if ranges == Some("bytes") then maximumConnections else 1;
          Proceed(chunkCount, length.value, pathname)
  }

  /** The message handed to the callback for each error. */
  function Message(e: Error): string {
    match e
    case NoUri => "Must provide a uri in options"
    case Transport(message) => message
    case BadStatus(code) => "Non 200 Response: " + Text.IntToString(code)
    case BadContentLength => "Error with Content Length"
  }

  /** Each outcome of `get`, in terms of its inputs. */
  lemma DecideOutcomes(hasCallback: bool, uri: Option<string>, reply: HeadReply, maximumConnections: nat)
    ensures Decide(hasCallback, uri, reply, maximumConnections) == Throw <==> !hasCallback
    ensures Decide(hasCallback, uri, reply, maximumConnections) == Reject(NoUri) <==> hasCallback && !HasUri(uri)
    ensures Decide(hasCallback, uri, reply, maximumConnections).Reject? && hasCallback && HasUri(uri) ==>
      reply.TransportFailure? || reply.statusCode != 200 || reply.contentLength.None?
    ensures hasCallback && HasUri(uri) && reply.TransportFailure? ==>
      Decide(hasCallback, uri, reply, maximumConnections) == Reject(Transport(reply.message))
    ensures hasCallback && HasUri(uri) && reply.Response? && reply.statusCode != 200 ==>
      Decide(hasCallback, uri, reply, maximumConnections) == Reject(BadStatus(reply.statusCode))
    ensures hasCallback && HasUri(uri) && reply.Response? && reply.statusCode == 200 && reply.contentLength.None? ==>
      Decide(hasCallback, uri, reply, maximumConnections) == Reject(BadContentLength)
    ensures Decide(hasCallback, uri, reply, maximumConnections).Proceed? <==>
      hasCallback && HasUri(uri) && reply.Response? && reply.statusCode == 200 && reply.contentLength.Some?
  {
  }

  /** Without a callback or a uri the reply plays no part: no request is made. */
  lemma NoRequestWithoutUri(hasCallback: bool, uri: Option<string>, r1: HeadReply, r2: HeadReply, maximumConnections: nat)
    requires !hasCallback || !HasUri(uri)
    ensures Decide(hasCallback, uri, r1, maximumConnections) == Decide(hasCallback, uri, r2, maximumConnections)
  {
  }

  /**
   * When the download goes ahead, the file size is the Content-Length, and
   * the chunk count is `maximumConnections` if `accept-ranges` is exactly
   * "bytes" and 1 otherwise; then the plan is the one range of the whole file.
   */
  lemma ProceedPlan(hasCallback: bool, uri: Option<string>, reply: HeadReply, maximumConnections: nat)
    requires Decide(hasCallback, uri, reply, maximumConnections).Proceed?
    ensures var d := Decide(hasCallback, uri, reply, maximumConnections);
      && d.totalSize == reply.contentLength.value
      && d.pathname == reply.pathname
      && (reply.acceptRanges == Some("bytes") ==> d.chunkCount == maximumConnections)
      && (reply.acceptRanges != Some("bytes") ==> Chunks.Plan(d.totalSize, d.chunkCount) == [Chunks.Range(0, d.totalSize - 1)])
  {
    var d := Decide(hasCallback, uri, reply, maximumConnections);
    if reply.acceptRanges != Some("bytes") {
      Chunks.SingleChunkPlan(d.totalSize);
    }
  }
}
