/**
 * The chunk planner of `get`: the size of a chunk, the inclusive byte range of
 * every chunk, the `Range` header each chunk request carries, and the
 * `while (c--)` loop that starts the chunk requests from the last to the first.
 */
module Chunks {
  import opened Wrappers
  import Text

  /** An inclusive byte range; `end < start` when the chunk is empty. */
  datatype Range = Range(start: nat, end: int) {

    predicate IsEmpty() {
      end < start
    }

    function Length(): nat {
      if start <= end then end - start + 1 else 0
    }

    predicate Contains(b: int) {
      start <= b <= end
    }
  }

  /** `Math.ceil(total / count)`: the least size for which `count` chunks hold `total` bytes. */
  function ChunkSize(total: nat, count: nat): (size: nat)
    requires count > 0
    ensures count * size >= total
    ensures count * (size - 1) < total
  {
    var q := (total + count - 1) / count;
    assert q * count + (total + count - 1) % count == total + count - 1;
    assert count * (q - 1) == q * count - count;
    q
  }

  /** Chunk `c` starts at `c * size` and ends at `(c + 1) * size - 1`, cut at the last byte. */
  function Chunk(total: nat, count: nat, c: nat): Range
    requires count > 0
  {
    var size := ChunkSize(total, count);
    Range(c * size, Text.Min((c + 1) * size - 1, total - 1))
  }

  /** The plan: one range per chunk index; nothing is clamped, so trailing chunks may be empty. */
  function Plan(total: nat, count: nat): (plan: seq<Range>)
    ensures |plan| == count
  {
    if count == 0 then [] else seq(count, c requires 0 <= c < count => Chunk(total, count, c))
  }

  lemma MulMono(a: nat, b: nat, k: nat)
    requires a <= b
    ensures a * k <= b * k
  {
  }

  lemma DivIff(b: nat, size: nat, c: nat)
    requires size > 0
    ensures b / size == c <==> c * size <= b < (c + 1) * size
  {
    var q := b / size;
    assert q * size + b % size == b;
    assert (q + 1) * size == q * size + size;
    assert (c + 1) * size == c * size + size;
    if c < q {
      MulMono(c + 1, q, size);
    } else if c > q {
      MulMono(q + 1, c, size);
    }
  }

  /** Chunk `c` holds byte `b` exactly when `b` is a byte of the file and `b / size == c`. */
  lemma ChunkContains(total: nat, count: nat, c: nat, b: int)
    requires count > 0
    ensures Chunk(total, count, c).Contains(b) <==> 0 <= b < total && b / ChunkSize(total, count) == c
  {
    var size := ChunkSize(total, count);
    assert (c + 1) * size == c * size + size;
    if size > 0 && b >= 0 {
      DivIff(b, size, c);
    }
  }

  /** Every byte of the file has a chunk index below the chunk count. */
  lemma ChunkIndexBound(total: nat, count: nat, b: int)
    requires count > 0 && 0 <= b < total
    ensures b / ChunkSize(total, count) < count
  {
    var size := ChunkSize(total, count);
    var c := b / size;
    assert c * size <= b by {
      DivIff(b, size, c);
    }
    if c >= count {
      MulMono(count, c, size);
    }
  }

  /**
   * The plan partitions the file: every byte of `[0, total - 1]` lies in the
   * chunk `b / size`, which exists, and in no other chunk.
   */
  lemma PlanCovers(total: nat, count: nat, b: int)
    requires count > 0 && 0 <= b < total
    ensures b / ChunkSize(total, count) < count
    ensures Plan(total, count)[b / ChunkSize(total, count)].Contains(b)
    ensures forall d :: 0 <= d < count && Plan(total, count)[d].Contains(b) ==> d == b / ChunkSize(total, count)
  {
    var c := b / ChunkSize(total, count);
    ChunkIndexBound(total, count, b);
    ChunkContains(total, count, c, b);
    forall d | 0 <= d < count && Plan(total, count)[d].Contains(b)
      ensures d == c
    {
      ChunkContains(total, count, d, b);
    }
  }

  /** No chunk holds a byte outside the file, and two chunks never share a byte. */
  lemma PlanDisjoint(total: nat, count: nat, c: nat, d: nat, b: int)
    requires c < count && d < count
    requires Plan(total, count)[c].Contains(b)
    ensures 0 <= b < total
    ensures Plan(total, count)[d].Contains(b) ==> c == d
  {
    ChunkContains(total, count, c, b);
    ChunkContains(total, count, d, b);
  }

  /**
   * `plan` lays its ranges over the bytes `[0, total - 1]` without overlap: a
   * non-empty range lies inside them, an empty one starts at or past their
   * end, and two non-empty ranges lie one wholly before the other.
   */
  ghost predicate Tiling(plan: seq<Range>, total: nat) {
    && (forall c :: 0 <= c < |plan| && !plan[c].IsEmpty() ==> plan[c].end < total)
    && (forall c :: 0 <= c < |plan| && plan[c].IsEmpty() ==> plan[c].start >= total)
    && (forall c, d :: 0 <= c < |plan| && 0 <= d < |plan| && c != d && !plan[c].IsEmpty() && !plan[d].IsEmpty() ==>
          plan[c].end < plan[d].start || plan[d].end < plan[c].start)
  }

  /** In a tiling, a byte lies in at most one range. */
  lemma TilingUnique(plan: seq<Range>, total: nat, c: nat, d: nat, b: int)
    requires Tiling(plan, total) && c < |plan| && d < |plan|
    requires plan[c].Contains(b) && plan[d].Contains(b)
    ensures c == d
  {
  }

  /**
   * A byte of range `c` that lies among the `len` bytes written at `n` bytes
   * past the start of range `d`, while `d` has room for them, is a byte of `d`
   * itself: so `c` is `d`, and `d` is not empty.
   */
  lemma TilingOwner(plan: seq<Range>, total: nat, d: nat, n: nat, len: nat, c: nat, i: nat)
    requires Tiling(plan, total) && d < |plan| && c < |plan| && i < plan[c].Length()
    requires !plan[d].IsEmpty() ==> n + len <= plan[d].Length()
    requires plan[d].start + n <= plan[c].start + i < plan[d].start + n + len
    ensures c == d && !plan[d].IsEmpty()
  {
    var b := plan[c].start + i;
    assert plan[c].Contains(b);
    assert !plan[d].IsEmpty();
    TilingUnique(plan, total, c, d, b);
  }

  /** The plan of every positive chunk count is such a tiling. */
  lemma PlanTiling(total: nat, count: nat)
    requires count > 0
    ensures Tiling(Plan(total, count), total)
  {
    var plan := Plan(total, count);
    forall c | 0 <= c < count
      ensures !plan[c].IsEmpty() ==> plan[c].end < total
      ensures plan[c].IsEmpty() ==> plan[c].start >= total
    {
      EmptyChunk(total, count, c);
      if !plan[c].IsEmpty() {
        PlanDisjoint(total, count, c, c, plan[c].end);
      }
    }
    forall c, d | 0 <= c < count && 0 <= d < count && c != d && !plan[c].IsEmpty() && !plan[d].IsEmpty()
      ensures plan[c].end < plan[d].start || plan[d].end < plan[c].start
    {
      var b := if plan[c].start <= plan[d].start then plan[d].start else plan[c].start;
      if plan[c].Contains(b) {
        PlanDisjoint(total, count, c, d, b);
      }
    }
  }

  /** A chunk is empty exactly when it would start at or after the end of the file. */
  lemma EmptyChunk(total: nat, count: nat, c: nat)
    requires c < count
    ensures Plan(total, count)[c].IsEmpty() <==> c * ChunkSize(total, count) >= total
  {
    var size := ChunkSize(total, count);
    assert (c + 1) * size == c * size + size;
  }

  /**
   * The non-empty chunks come first and follow one another without a gap: the
   * first starts at byte 0 and each next one starts right after the previous end.
   */
  lemma PlanContiguous(total: nat, count: nat, c: nat)
    requires c + 1 < count
    requires !Plan(total, count)[c + 1].IsEmpty()
    ensures Plan(total, count)[0].start == 0
    ensures !Plan(total, count)[c].IsEmpty()
    ensures Plan(total, count)[c + 1].start == Plan(total, count)[c].end + 1
  {
    var size := ChunkSize(total, count);
    assert (c + 1) * size == c * size + size;
    assert (c + 2) * size == (c + 1) * size + size;
  }

  /** No chunk is longer than the chunk size. */
  lemma ChunkLengthBound(total: nat, count: nat, c: nat)
    requires c < count
    ensures Plan(total, count)[c].Length() <= ChunkSize(total, count)
  {
    var size := ChunkSize(total, count);
    assert (c + 1) * size == c * size + size;
  }

  function TotalLength(plan: seq<Range>): nat {
    if plan == [] then 0 else TotalLength(plan[..|plan| - 1]) + plan[|plan| - 1].Length()
  }

  /** A chunk holds the bytes between the clamped starts of it and of its successor. */
  lemma ChunkLengthAt(total: nat, count: nat, c: nat, lo: nat, hi: nat)
    requires count > 0 && lo == c * ChunkSize(total, count) && hi == lo + ChunkSize(total, count)
    ensures Chunk(total, count, c).Length() == Text.Min(hi, total) - Text.Min(lo, total)
  {
    var size := ChunkSize(total, count);
    assert (c + 1) * size == hi;
  }

  lemma {:induction false} PrefixLength(total: nat, count: nat, k: nat)
    requires 0 < count && k <= count
    ensures TotalLength(Plan(total, count)[..k]) == Text.Min(k * ChunkSize(total, count), total)
  {
    if k > 0 {
      var size := ChunkSize(total, count);
      var plan := Plan(total, count);
      var lo := (k - 1) * size;
      assert TotalLength(plan[..k]) == TotalLength(plan[..k - 1]) + plan[k - 1].Length() by {
        assert plan[..k][..k - 1] == plan[..k - 1];
      }
      assert TotalLength(plan[..k - 1]) == Text.Min(lo, total) by {
        PrefixLength(total, count, k - 1);
      }
      assert plan[k - 1].Length() == Text.Min(lo + size, total) - Text.Min(lo, total) by {
        ChunkLengthAt(total, count, k - 1, lo, lo + size);
      }
      assert k * size == lo + size;
    }
  }

  /** The lengths of the chunks add up to the size of the file. */
  lemma PlanLength(total: nat, count: nat)
    requires count > 0
    ensures TotalLength(Plan(total, count)) == total
  {
    PrefixLength(total, count, count);
    assert Plan(total, count)[..count] == Plan(total, count);
  }

  /** Without byte ranges the plan is the one range of the whole file. */
  lemma SingleChunkPlan(total: nat)
    ensures Plan(total, 1) == [Range(0, total - 1)]
  {
    assert ChunkSize(total, 1) == total;
  }

  lemma EvenPlanExample()
    ensures Plan(1000000, 4) == [Range(0, 249999), Range(250000, 499999), Range(500000, 749999), Range(750000, 999999)]
  {
    assert ChunkSize(1000000, 4) == 250000;
  }

  /** Rounding up overshoots: with 11 bytes in 10 chunks, chunks 6 to 9 are empty. */
  lemma OvershootExample()
    ensures Plan(11, 10)[5] == Range(10, 10)
    ensures Plan(11, 10)[6] == Range(12, 10) && Plan(11, 10)[6].IsEmpty()
  {
    assert ChunkSize(11, 10) == 2;
  }

  /** The `Range` header value: `["bytes=", offset, "-", end].join('')`. */
  function RangeHeader(offset: int, end: int): string {
    "bytes=" + Text.IntToString(offset) + "-" + Text.IntToString(end)
  }

  /** Index of the first '-' in `s`, or `|s|`. */
  function FirstDash(s: string): (i: nat)
    ensures i <= |s|
    ensures forall j :: 0 <= j < i ==> s[j] != '-'
    ensures i < |s| ==> s[i] == '-'
  {
    if s == [] || s[0] == '-' then 0 else 1 + FirstDash(s[1..])
  }

  predicate IsIntText(s: string) {
    (s != [] && Text.AllDigits(s)) || (|s| >= 2 && s[0] == '-' && Text.AllDigits(s[1..]))
  }

  /** Reads back the offsets of a range header value (an independent reading of RangeHeader). */
  function ParseRangeHeader(h: string): Option<(int, int)> {
    if |h| < 6 || h[..6] != "bytes=" then None
    else
      var rest := h[6..];
      var i := FirstDash(rest);
      if i == 0 || i == |rest| || !Text.AllDigits(rest[..i]) || !IsIntText(rest[i + 1..]) then None
      else Some((Text.ParseNat(rest[..i]), Text.ParseInt(rest[i + 1..])))
  }

  /** A range header names exactly the offsets it was built from, the end even when it is -1. */
  lemma RangeHeaderRoundTrip(offset: nat, end: int)
    ensures ParseRangeHeader(RangeHeader(offset, end)) == Some((offset, end))
  {
    var first := Text.NatToString(offset);
    var last := Text.IntToString(end);
    var h := RangeHeader(offset, end);
    var rest := first + "-" + last;
    assert h == "bytes=" + rest;
    assert h[6..] == rest;
    var i := FirstDash(rest);
    assert rest[|first|] == '-';
    assert i == |first|;
    assert rest[..i] == first;
    assert rest[i + 1..] == last;
    assert IsIntText(last) by {
      if end < 0 {
        assert last[1..] == Text.NatToString(-end);
      }
    }
    Text.ParseNatToString(offset);
    Text.ParseIntToString(end);
  }

  /** A chunk request and the range it asks for. */
  datatype Request = Request(index: nat, range: Range, header: string)

  /**
   * The requests are those of the loop `while (c--)`: chunk `count - 1` first
   * and chunk 0 last, each with its planned range and its header.
   */
  ghost predicate Dispatched(requests: seq<Request>, total: nat, count: nat) {
    && |requests| == count
    && forall k :: 0 <= k < |requests| ==>
         && requests[k].index == count - 1 - k
         && requests[k].range == Plan(total, count)[count - 1 - k]
         && requests[k].header == RangeHeader(requests[k].range.start, requests[k].range.end)
  }

  /** The formula of the source for chunk `c`. */
  lemma PlanAt(total: nat, count: nat, c: nat)
    requires c < count
    ensures Plan(total, count)[c].start == ChunkSize(total, count) * c
    ensures Plan(total, count)[c].end == Text.Min(ChunkSize(total, count) * (c + 1) - 1, total - 1)
  {
  }

  /** The request the loop starts for chunk `c`. */
  function RequestFor(total: nat, count: nat, c: nat): Request
    requires c < count
  {
    var range := Plan(total, count)[c];
    Request(c, range, RangeHeader(range.start, range.end))
  }

  /** The request built from the source's formulas for chunk `c` is the planned one. */
  lemma RequestForAt(total: nat, count: nat, c: nat, chunkSize: nat, request: Request)
    requires c < count && chunkSize == ChunkSize(total, count)
    requires request == Request(c, Range(chunkSize * c, Text.Min(chunkSize * (c + 1) - 1, total - 1)),
                                RangeHeader(chunkSize * c, Text.Min(chunkSize * (c + 1) - 1, total - 1)))
    ensures request == RequestFor(total, count, c)
  {
    PlanAt(total, count, c);
  }

  /** Requests built chunk by chunk, last chunk first, are the dispatched ones. */
  lemma DispatchedFrom(requests: seq<Request>, total: nat, count: nat)
    requires |requests| == count
    requires forall k :: 0 <= k < |requests| ==> requests[k] == RequestFor(total, count, count - 1 - k)
    ensures Dispatched(requests, total, count)
    ensures forall k :: 0 <= k < |requests| ==>
      requests[k].range.start == requests[k].index * ChunkSize(total, count)
  {
    forall k | 0 <= k < |requests|
      ensures requests[k].range.start == requests[k].index * ChunkSize(total, count)
    {
      PlanAt(total, count, count - 1 - k);
    }
  }

  /** The loop that opens a write stream at each chunk's offset and starts its request. */
  method Dispatch(total: nat, count: nat) returns (requests: seq<Request>)
    ensures Dispatched(requests, total, count)
    ensures forall k :: 0 <= k < |requests| ==>
      requests[k].range.start == requests[k].index * ChunkSize(total, count)
  {
    // Math.ceil(total / 0) is Infinity, but then the loop below does not run.
    var chunkSize := if count > 0 then ChunkSize(total, count) else 0;
    requests := [];
    var c := count;
    while c > 0
      invariant 0 <= c <= count
      invariant |requests| == count - c
      invariant forall k :: 0 <= k < |requests| ==> requests[k] == RequestFor(total, count, count - 1 - k)
    {
      c := c - 1;
      var offset := chunkSize * c;
      var endOfChunkBytes := Text.Min(chunkSize * (c + 1) - 1, total - 1);
      var request := Request(c, Range(offset, endOfChunkBytes), RangeHeader(offset, endOfChunkBytes));
      RequestForAt(total, count, c, chunkSize, request);
      requests := requests + [request];
    }
    DispatchedFrom(requests, total, count);
  }

  /** Every chunk index is dispatched exactly once, in strictly descending order. */
  lemma DispatchOrder(requests: seq<Request>, total: nat, count: nat)
    requires Dispatched(requests, total, count)
    ensures forall i, j :: 0 <= i < j < |requests| ==> requests[i].index > requests[j].index
    ensures forall c: nat :: c in Indices(requests) <==> c < count
  {
    forall c: nat | c < count
      ensures c in Indices(requests)
    {
      assert requests[count - 1 - c].index == c;
    }
  }

  function Indices(requests: seq<Request>): set<nat> {
    set k | 0 <= k < |requests| :: requests[k].index
  }
}
