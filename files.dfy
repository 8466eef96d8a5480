/**
 * The temporary file as a sequence of bytes. A write stream opened with
 * `{flags: 'r+', start: offset}` writes each fragment at its current position
 * and then advances past it; writing beyond the end grows the file, and any
 * gap before the written bytes reads as zeros.
 */
module Files {
  import Chunks

  type Byte = bv8

  function Zeros(n: nat): (z: seq<Byte>)
    ensures |z| == n && forall i :: 0 <= i < n ==> z[i] == 0
  {
    seq(n, _ => 0)
  }

  function Max(a: int, b: int): int {
    if a >= b then a else b
  }

  /** The file after writing `data` at position `pos`. */
  function WriteAt(f: seq<Byte>, pos: nat, data: seq<Byte>): (r: seq<Byte>)
    ensures |data| == 0 ==> r == f
    ensures |data| > 0 ==> |r| == Max(|f|, pos + |data|)
    ensures |r| >= |f|
    ensures forall i {:trigger r[i]} :: pos <= i < pos + |data| ==> r[i] == data[i - pos]
    ensures forall i {:trigger r[i]} :: 0 <= i < |f| && !(pos <= i < pos + |data|) ==> r[i] == f[i]
    ensures forall i {:trigger r[i]} :: |f| <= i < |r| && !(pos <= i < pos + |data|) ==> r[i] == 0
  {
    if |data| == 0 then f
    else
      var grown := if |f| < pos then f + Zeros(pos - |f|) else f;
      grown[..pos] + data + (if pos + |data| < |grown| then grown[pos + |data|..] else [])
  }

  lemma WriteAtOutside(f: seq<Byte>, pos: nat, data: seq<Byte>, i: nat)
    requires i < |f| && !(pos <= i < pos + |data|)
    ensures WriteAt(f, pos, data)[i] == f[i]
  {
  }

  /** Two fragments written one after the other land as their concatenation. */
  lemma WriteAtAppend(f: seq<Byte>, pos: nat, d1: seq<Byte>, d2: seq<Byte>)
    ensures WriteAt(WriteAt(f, pos, d1), pos + |d1|, d2) == WriteAt(f, pos, d1 + d2)
  {
    var once := WriteAt(f, pos, d1);
    var twice := WriteAt(once, pos + |d1|, d2);
    var whole := WriteAt(f, pos, d1 + d2);
    if |d1| == 0 {
      assert d1 + d2 == d2;
    } else if |d2| == 0 {
      assert d1 + d2 == d1;
    } else {
      assert |twice| == |whole|;
      forall i | 0 <= i < |whole|
        ensures twice[i] == whole[i]
      {
        if pos <= i < pos + |d1| {
          assert twice[i] == once[pos + (i - pos)] == d1[i - pos];
          assert whole[pos + (i - pos)] == (d1 + d2)[i - pos];
        } else if pos + |d1| <= i < pos + |d1| + |d2| {
          assert twice[pos + |d1| + (i - pos - |d1|)] == d2[i - pos - |d1|];
          assert whole[pos + (i - pos)] == (d1 + d2)[i - pos];
        }
      }
    }
  }

  /** The fragments of one stream, written in order from its start offset. */
  function WriteFragments(f: seq<Byte>, pos: nat, fragments: seq<seq<Byte>>): seq<Byte>
    decreases |fragments|
  {
    if fragments == [] then f
    else WriteFragments(WriteAt(f, pos, fragments[0]), pos + |fragments[0]|, fragments[1..])
  }

  function Concat(fragments: seq<seq<Byte>>): (all: seq<Byte>)
    decreases |fragments|
  {
    if fragments == [] then [] else fragments[0] + Concat(fragments[1..])
  }

  /**
   * However the server splits a chunk's body into fragments, the bytes land
   * contiguously from the chunk's offset, in the order they were received.
   */
  lemma {:induction false} SequentialWrites(f: seq<Byte>, pos: nat, fragments: seq<seq<Byte>>)
    ensures WriteFragments(f, pos, fragments) == WriteAt(f, pos, Concat(fragments))
    decreases |fragments|
  {
    if fragments != [] {
      var rest := fragments[1..];
      SequentialWrites(WriteAt(f, pos, fragments[0]), pos + |fragments[0]|, rest);
      WriteAtAppend(f, pos, fragments[0], Concat(rest));
    }
  }

  /** The bytes of `content` that chunk `r` asks for. */
  function Slice(content: seq<Byte>, r: Chunks.Range): seq<Byte>
    requires r.IsEmpty() || r.end < |content|
  {
    if r.IsEmpty() then [] else content[r.start..r.end + 1]
  }

  /** One `data` event: a fragment of the body sent for chunk `chunk`. */
  datatype Fragment = Fragment(chunk: nat, data: seq<Byte>)

  predicate ValidFragments(events: seq<Fragment>, count: nat) {
    forall k :: 0 <= k < |events| ==> events[k].chunk < count
  }

  /** The bytes the stream of chunk `c` has received, in the order they arrived. */
  function Received(events: seq<Fragment>, c: nat): seq<Byte>
    decreases |events|
  {
    if events == [] then []
    else
      var last := events[|events| - 1];
      Received(events[..|events| - 1], c) + (if last.chunk == c then last.data else [])
  }

  lemma ReceivedSnoc(events: seq<Fragment>, e: Fragment, c: nat)
    ensures Received(events + [e], c) == Received(events, c) + (if e.chunk == c then e.data else [])
  {
    assert (events + [e])[..|events|] == events;
  }

  /**
   * The file after the `data` events of all streams, interleaved in the order
   * they arrived: each fragment is written where its own stream stands, the
   * start of its chunk plus what that stream has received before it.
   */
  function Replay(f: seq<Byte>, plan: seq<Chunks.Range>, events: seq<Fragment>): seq<Byte>
    requires ValidFragments(events, |plan|)
    decreases |events|
  {
    if events == [] then f
    else
      var prior := events[..|events| - 1];
      var last := events[|events| - 1];
      WriteAt(Replay(f, plan, prior), plan[last.chunk].start + |Received(prior, last.chunk)|, last.data)
  }

  lemma ReplaySnoc(f: seq<Byte>, plan: seq<Chunks.Range>, events: seq<Fragment>, e: Fragment)
    requires ValidFragments(events, |plan|) && e.chunk < |plan|
    ensures ValidFragments(events + [e], |plan|)
    ensures Replay(f, plan, events + [e]) ==
      WriteAt(Replay(f, plan, events), plan[e.chunk].start + |Received(events, e.chunk)|, e.data)
  {
    ValidSnoc(events, e, |plan|);
    assert (events + [e])[..|events|] == events;
  }

  lemma ValidSnoc(events: seq<Fragment>, e: Fragment, count: nat)
    requires ValidFragments(events, count) && e.chunk < count
    ensures ValidFragments(events + [e], count)
  {
    forall k | 0 <= k < |events| + 1
      ensures (events + [e])[k].chunk < count
    {
      if k < |events| {
        assert (events + [e])[k] == events[k];
      }
    }
  }

  /** No non-empty range of the plan has received more bytes than it asks for. */
  ghost predicate WithinChunks(plan: seq<Chunks.Range>, events: seq<Fragment>) {
    forall c :: 0 <= c < |plan| && !plan[c].IsEmpty() ==> |Received(events, c)| <= plan[c].Length()
  }

  /** Byte `i` of what a stream received, or zero where nothing has arrived yet. */
  function ByteAt(r: seq<Byte>, i: nat): Byte {
    if i < |r| then r[i] else 0
  }

  /** Each byte of each range of the plan holds what that range's stream received for it, or zero. */
  ghost predicate Mirrors(f: seq<Byte>, plan: seq<Chunks.Range>, events: seq<Fragment>) {
    forall c: nat, i: nat :: MirrorsAt(f, plan, events, c, i)
  }

  /** Byte `i` of range `c`, if the plan has it, holds what the stream of `c` received for it. */
  ghost predicate MirrorsAt(f: seq<Byte>, plan: seq<Chunks.Range>, events: seq<Fragment>, c: nat, i: nat) {
    c < |plan| && i < plan[c].Length() ==>
      plan[c].start + i < |f| && f[plan[c].start + i] == ByteAt(Received(events, c), i)
  }

  /**
   * One more fragment of chunk `e.chunk`, written where its stream stands,
   * sets byte `i` of chunk `c` only as what chunk `c` received says: a byte the
   * fragment covers belongs to the fragment's own chunk.
   */
  lemma StepAt(plan: seq<Chunks.Range>, prior: seq<Fragment>, e: Fragment, g: seq<Byte>, c: nat, i: nat)
    requires e.chunk < |plan| && c < |plan|
    requires var pos := plan[e.chunk].start + |Received(prior, e.chunk)|;
      pos <= plan[c].start + i < pos + |e.data| ==> c == e.chunk
    requires plan[c].start + i < |g| && g[plan[c].start + i] == ByteAt(Received(prior, c), i)
    ensures var pos := plan[e.chunk].start + |Received(prior, e.chunk)|;
      && plan[c].start + i < |WriteAt(g, pos, e.data)|
      && WriteAt(g, pos, e.data)[plan[c].start + i] == ByteAt(Received(prior + [e], c), i)
  {
    ReceivedSnoc(prior, e, c);
    if c == e.chunk {
      StepOwn(g, plan[c].start, Received(prior, c), e.data, i);
    } else {
      WriteAtOutside(g, plan[e.chunk].start + |Received(prior, e.chunk)|, e.data, plan[c].start + i);
    }
  }

  /**
   * A stream that started at `start` and has received `before` writes `data`
   * next: byte `i` of its chunk then holds byte `i` of everything it has
   * received, or zero, if it did so before the write.
   */
  lemma StepOwn(g: seq<Byte>, start: nat, before: seq<Byte>, data: seq<Byte>, i: nat)
    requires start + i < |g| && g[start + i] == ByteAt(before, i)
    ensures start + i < |WriteAt(g, start + |before|, data)|
    ensures WriteAt(g, start + |before|, data)[start + i] == ByteAt(before + data, i)
  {
    var pos := start + |before|;
    if |before| <= i < |before| + |data| {
      WriteInside(g, start, before, data, i);
    } else {
      WriteAtOutside(g, pos, data, start + i);
      if i < |before| {
        assert (before + data)[i] == before[i];
      }
    }
  }

  /**
   * A stream that started at `start` and has written `before` writes `data`
   * next: byte `i` of its chunk, when the write covers it, is byte `i` of
   * everything the stream has received.
   */
  lemma WriteInside(g: seq<Byte>, start: nat, before: seq<Byte>, data: seq<Byte>, i: nat)
    requires start + |before| <= start + i < start + |before| + |data|
    ensures start + i < |WriteAt(g, start + |before|, data)|
    ensures WriteAt(g, start + |before|, data)[start + i] == ByteAt(before + data, i)
  {
    var pos := start + |before|;
    var k := i - |before|;
    assert WriteAt(g, pos, data)[pos + k] == data[k];
  }

  /**
   * While no non-empty chunk has received more than it asked for, the file,
   * created as `total` zero bytes, keeps at least that length, and each byte
   * of each chunk holds what that chunk's own stream received for it: the
   * streams of other chunks never write there, whatever order their
   * fragments arrive in.
   */
  lemma {:induction false} ReplayMirrors(plan: seq<Chunks.Range>, total: nat, events: seq<Fragment>)
    requires Chunks.Tiling(plan, total) && ValidFragments(events, |plan|)
    requires WithinChunks(plan, events)
    ensures |Replay(Zeros(total), plan, events)| >= total
    ensures Mirrors(Replay(Zeros(total), plan, events), plan, events)
    decreases |events|
  {
    if events == [] {
      var f := Replay(Zeros(total), plan, events);
      assert f == Zeros(total);
      forall c: nat, i: nat
        ensures MirrorsAt(f, plan, events, c, i)
      {
        if c < |plan| && i < plan[c].Length() {
          assert !plan[c].IsEmpty();
        }
      }
      assert Mirrors(f, plan, events);
    } else {
      var prior := events[..|events| - 1];
      var e := events[|events| - 1];
      assert events == prior + [e];
      WithinPrior(plan, prior, e);
      ReplayMirrors(plan, total, prior);
      ReplayStep(plan, total, prior, e);
    }
  }

  lemma WithinPrior(plan: seq<Chunks.Range>, prior: seq<Fragment>, e: Fragment)
    requires WithinChunks(plan, prior + [e])
    ensures WithinChunks(plan, prior)
  {
    forall c | 0 <= c < |plan| && !plan[c].IsEmpty()
      ensures |Received(prior, c)| <= plan[c].Length()
    {
      ReceivedSnoc(prior, e, c);
    }
  }

  lemma ReplayStep(plan: seq<Chunks.Range>, total: nat, prior: seq<Fragment>, e: Fragment)
    requires Chunks.Tiling(plan, total) && ValidFragments(prior, |plan|) && e.chunk < |plan|
    requires WithinChunks(plan, prior + [e])
    requires |Replay(Zeros(total), plan, prior)| >= total
    requires Mirrors(Replay(Zeros(total), plan, prior), plan, prior)
    ensures ValidFragments(prior + [e], |plan|)
    ensures |Replay(Zeros(total), plan, prior + [e])| >= total
    ensures Mirrors(Replay(Zeros(total), plan, prior + [e]), plan, prior + [e])
  {
    var g := Replay(Zeros(total), plan, prior);
    ReplaySnoc(Zeros(total), plan, prior, e);
    ReceivedSnoc(prior, e, e.chunk);
    var f := Replay(Zeros(total), plan, prior + [e]);
    forall c: nat, i: nat
      ensures MirrorsAt(f, plan, prior + [e], c, i)
    {
      if c < |plan| && i < plan[c].Length() {
        assert MirrorsAt(g, plan, prior, c, i);
        var pos := plan[e.chunk].start + |Received(prior, e.chunk)|;
        if pos <= plan[c].start + i < pos + |e.data| {
          Chunks.TilingOwner(plan, total, e.chunk, |Received(prior, e.chunk)|, |e.data|, c, i);
        }
        StepAt(plan, prior, e, g, c, i);
      }
    }
  }

  /**
   * While every non-empty chunk stays within its range and every empty chunk
   * has received nothing, the file keeps the size it was created with.
   */
  lemma {:induction false} ReplayLength(plan: seq<Chunks.Range>, total: nat, events: seq<Fragment>)
    requires Chunks.Tiling(plan, total) && ValidFragments(events, |plan|)
    requires WithinChunks(plan, events)
    requires forall c :: 0 <= c < |plan| && plan[c].IsEmpty() ==> Received(events, c) == []
    ensures |Replay(Zeros(total), plan, events)| == total
    decreases |events|
  {
    if events != [] {
      var prior := events[..|events| - 1];
      var e := events[|events| - 1];
      assert events == prior + [e];
      forall c | 0 <= c < |plan|
        ensures !plan[c].IsEmpty() ==> |Received(prior, c)| <= plan[c].Length()
        ensures plan[c].IsEmpty() ==> Received(prior, c) == []
      {
        ReceivedSnoc(prior, e, c);
      }
      ReplayLength(plan, total, prior);
      ReplaySnoc(Zeros(total), plan, prior, e);
      ReceivedSnoc(prior, e, e.chunk);
      if plan[e.chunk].IsEmpty() {
        assert e.data == [];
      }
    }
  }

  /**
   * However the fragments of the streams interleave: once every non-empty
   * chunk has received exactly the bytes of `content` it asked for, the first
   * `|content|` bytes of the file are `content`, since whatever the stream of
   * an empty chunk receives lands at or past that point; and when the empty
   * chunks have received nothing, the file is exactly `content`.
   */
  lemma Assemble(content: seq<Byte>, count: nat, events: seq<Fragment>)
    requires count > 0 && ValidFragments(events, count)
    requires forall c :: 0 <= c < count && !Chunks.Plan(|content|, count)[c].IsEmpty() ==>
      Received(events, c) == Slice(content, Chunks.Plan(|content|, count)[c])
    ensures var f := Replay(Zeros(|content|), Chunks.Plan(|content|, count), events);
      |f| >= |content| && f[..|content|] == content
    ensures (forall c :: 0 <= c < count && Chunks.Plan(|content|, count)[c].IsEmpty() ==> Received(events, c) == []) ==>
      Replay(Zeros(|content|), Chunks.Plan(|content|, count), events) == content
  {
    var total := |content|;
    var plan := Chunks.Plan(total, count);
    Chunks.PlanTiling(total, count);
    ReplayMirrors(plan, total, events);
    var f := Replay(Zeros(total), plan, events);
    forall b | 0 <= b < total
      ensures f[b] == content[b]
    {
      AssembledByte(content, count, events, f, b);
    }
    if forall c :: 0 <= c < count && plan[c].IsEmpty() ==> Received(events, c) == [] {
      ReplayLength(plan, total, events);
    }
  }

  lemma AssembledByte(content: seq<Byte>, count: nat, events: seq<Fragment>, f: seq<Byte>, b: nat)
    requires count > 0 && b < |content| <= |f|
    requires forall c :: 0 <= c < count && !Chunks.Plan(|content|, count)[c].IsEmpty() ==>
      Received(events, c) == Slice(content, Chunks.Plan(|content|, count)[c])
    requires Mirrors(f, Chunks.Plan(|content|, count), events)
    ensures f[b] == content[b]
  {
    var total := |content|;
    var c := b / Chunks.ChunkSize(total, count);
    Chunks.PlanCovers(total, count, b);
    var r := Chunks.Plan(total, count)[c];
    var i := b - r.start;
    assert MirrorsAt(f, Chunks.Plan(total, count), events, c, i);
    assert Slice(content, r)[i] == content[b];
  }

  /**
   * Eleven bytes over ten connections: chunk 6 is empty, and a body of the
   * full eleven bytes sent back for it is written from byte 12, so the file
   * grows to 23 bytes.
   */
  lemma EmptyChunkBodyExample(body: seq<Byte>)
    requires |body| == 11
    ensures Chunks.Plan(11, 10)[6].IsEmpty()
    ensures |Replay(Zeros(11), Chunks.Plan(11, 10), [Fragment(6, body)])| == 23
  {
    var plan := Chunks.Plan(11, 10);
    assert Chunks.ChunkSize(11, 10) == 2;
    assert plan[6] == Chunks.Range(12, 10);
    ReplaySnoc(Zeros(11), plan, [], Fragment(6, body));
    assert [] + [Fragment(6, body)] == [Fragment(6, body)];
  }
}
