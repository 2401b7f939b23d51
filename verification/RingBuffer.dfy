/** The mirror-bit ring buffer: bulk and single-byte operations on the same fields, and the bounded FIFO they refine. */
module RingBuffers {
  import opened Bytes

  /** The fields and the bytes in use. The mirror bits tell a full buffer from an empty one. */
  datatype Ring = Ring(bytes: seq<byte>, readMirror: bool, read: nat, writeMirror: bool, write: nat) {

    /** In the same mirror the writer is not behind the reader; in the other it is not past it. */
    predicate Valid() {
      (if |bytes| == 0 then read == 0 && write == 0 else read < |bytes| && write < |bytes|)
      && (if readMirror == writeMirror then read <= write else write <= read)
    }
  }

  datatype State = EMPTY | FULL | HALFFULL

  /** ring_buffer_status */
  function Status(r: Ring): State {
    if r.read == r.write then (if r.readMirror == r.writeMirror then EMPTY else FULL) else HALFFULL
  }

  /** ring_buffer_data_len */
  function DataLen(r: Ring): (n: nat)
    requires r.Valid()
    ensures n <= |r.bytes|
    ensures Status(r) == FULL ==> n == |r.bytes|
    ensures n == 0 <==> Status(r) == EMPTY || |r.bytes| == 0
    ensures n == |r.bytes| && n > 0 ==> Status(r) == FULL
  {
    match Status(r)
    case EMPTY => 0
    case FULL => |r.bytes|
    case HALFFULL => if r.write > r.read then r.write - r.read else |r.bytes| - (r.read - r.write)
  }

  function SpaceLen(r: Ring): nat
    requires r.Valid()
  {
    |r.bytes| - DataLen(r)
  }

  function Min(a: nat, b: nat): nat { if a < b then a else b }

  /** The slot `k` bytes behind `i`, for at most one turn. */
  function Slot(i: nat, k: nat, n: nat): nat {
    if i + k < n then i + k else i + k - n
  }

  /** The queue that the fields stand for, oldest byte first. */
  function Contents(r: Ring): (s: seq<byte>)
    requires r.Valid()
    ensures |s| == DataLen(r)
  {
    seq(DataLen(r), k requires 0 <= k < DataLen(r) => r.bytes[Slot(r.read, k, |r.bytes|)])
  }

  // ----- single bytes -----

  /** ring_buffer_putchar with space left. */
  function PutByte(r: Ring, b: byte): (t: Ring)
    requires r.Valid() && DataLen(r) < |r.bytes|
    ensures t.Valid() && DataLen(t) == DataLen(r) + 1 && |t.bytes| == |r.bytes|
  {
    var bytes := r.bytes[r.write := b];
    if r.write == |bytes| - 1 then r.(bytes := bytes, writeMirror := !r.writeMirror, write := 0)
    else r.(bytes := bytes, write := r.write + 1)
  }

  lemma PutByteContents(r: Ring, b: byte)
    requires r.Valid() && DataLen(r) < |r.bytes|
    ensures Contents(PutByte(r, b)) == Contents(r) + [b]
  {
    var t := PutByte(r, b);
    assert Slot(r.read, DataLen(r), |r.bytes|) == r.write;
    forall k | 0 <= k < DataLen(r) ensures Contents(t)[k] == Contents(r)[k] {
      assert Slot(r.read, k, |r.bytes|) != r.write;
    }
  }

  /** ring_buffer_getchar with data left: the fields afterwards. */
  function DropByte(r: Ring): (t: Ring)
    requires r.Valid() && DataLen(r) > 0
    ensures t.Valid() && DataLen(t) == DataLen(r) - 1 && t.bytes == r.bytes
  {
    if r.read == |r.bytes| - 1 then r.(readMirror := !r.readMirror, read := 0) else r.(read := r.read + 1)
  }

  lemma DropByteContents(r: Ring)
    requires r.Valid() && DataLen(r) > 0
    ensures r.bytes[r.read] == Contents(r)[0] && Contents(DropByte(r)) == Contents(r)[1..]
  {
    var t := DropByte(r);
    forall k | 0 <= k < DataLen(t) ensures Contents(t)[k] == Contents(r)[k + 1] {
      assert Slot(t.read, k, |r.bytes|) == Slot(r.read, k + 1, |r.bytes|);
    }
  }

  /** ring_buffer_putchar_force: a full buffer loses its oldest byte. */
  function ForceByte(r: Ring, b: byte): (t: Ring)
    requires r.Valid() && |r.bytes| > 0
    ensures t.Valid() && |t.bytes| == |r.bytes| && (Status(r) == FULL ==> Status(t) == FULL)
  {
    var full := Status(r) == FULL;
    var bytes := r.bytes[r.write := b];
    if r.write == |bytes| - 1 then
      var t := r.(bytes := bytes, writeMirror := !r.writeMirror, write := 0);
      if full then t.(readMirror := !r.readMirror, read := 0) else t
    else
      var t := r.(bytes := bytes, write := r.write + 1);
      if full then t.(read := t.write) else t
  }

  lemma ForceByteContents(r: Ring, b: byte)
    requires r.Valid() && |r.bytes| > 0
    ensures Contents(ForceByte(r, b)) == (Contents(r) + [b])[if Status(r) == FULL then 1 else 0..]
  {
    if Status(r) == FULL {
      var t := ForceByte(r, b);
      var n := |r.bytes|;
      forall k | 0 <= k < n ensures Contents(t)[k] == (Contents(r) + [b])[k + 1] {
        assert Slot(t.read, k, n) == if k == n - 1 then r.write else Slot(r.read, k + 1, n);
      }
    } else {
      PutByteContents(r, b);
    }
  }

  // ----- loops of single bytes -----

  function PutEach(r: Ring, d: seq<byte>): (t: Ring)
    requires r.Valid() && |d| <= SpaceLen(r)
    ensures t.Valid() && DataLen(t) == DataLen(r) + |d| && |t.bytes| == |r.bytes|
    decreases |d|
  {
    if d == [] then r else PutEach(PutByte(r, d[0]), d[1..])
  }

  lemma {:induction false} PutEachContents(r: Ring, d: seq<byte>)
    requires r.Valid() && |d| <= SpaceLen(r)
    ensures Contents(PutEach(r, d)) == Contents(r) + d
    decreases |d|
  {
    if d != [] {
      PutByteContents(r, d[0]);
      PutEachContents(PutByte(r, d[0]), d[1..]);
      assert Contents(r) + [d[0]] + d[1..] == Contents(r) + d;
    }
  }

  function DropEach(r: Ring, n: nat): (t: Ring)
    requires r.Valid() && n <= DataLen(r)
    ensures t.Valid() && DataLen(t) == DataLen(r) - n && t.bytes == r.bytes
    decreases n
  {
    if n == 0 then r else DropEach(DropByte(r), n - 1)
  }

  lemma DropNone(r: Ring)
    requires r.Valid()
    ensures DropEach(r, 0) == r && [] + Contents(r) == Contents(r)
  {}

  lemma {:induction false} DropEachContents(r: Ring, n: nat)
    requires r.Valid() && n <= DataLen(r)
    ensures Contents(DropEach(r, n)) == Contents(r)[n..]
    decreases n
  {
    if n > 0 {
      DropByteContents(r);
      DropEachContents(DropByte(r), n - 1);
    }
  }

  function ForceEach(r: Ring, d: seq<byte>): (t: Ring)
    requires r.Valid() && |r.bytes| > 0
    ensures t.Valid() && |t.bytes| == |r.bytes| && (Status(r) == FULL ==> Status(t) == FULL)
    decreases |d|
  {
    if d == [] then r else ForceEach(ForceByte(r, d[0]), d[1..])
  }

  function Last(s: seq<byte>, n: nat): seq<byte> {
    if |s| <= n then s else s[|s| - n..]
  }

  lemma LastShift(s: seq<byte>, b: byte, rest: seq<byte>, n: nat, drop: nat)
    requires |s| <= n && drop == if |s| == n then 1 else 0
    ensures Last((s + [b])[drop..] + rest, n) == Last(s + ([b] + rest), n)
  {
    assert (s + [b])[drop..] + rest == (s + ([b] + rest))[drop..];
  }

  /** Forcing bytes in one by one keeps the newest ones, as many as fit. */
  lemma {:induction false} ForceEachContents(r: Ring, d: seq<byte>)
    requires r.Valid() && |r.bytes| > 0
    ensures Contents(ForceEach(r, d)) == Last(Contents(r) + d, |r.bytes|)
    decreases |d|
  {
    hide Contents, Last, ForceByte;
    if d == [] {
      LastAll(Contents(r), |r.bytes|);
      assert Contents(r) + d == Contents(r);
    } else {
      var t := ForceByte(r, d[0]);
      ForceByteContents(r, d[0]);
      ForceEachContents(t, d[1..]);
      LastShift(Contents(r), d[0], d[1..], |r.bytes|, if Status(r) == FULL then 1 else 0);
      assert [d[0]] + d[1..] == d;
    }
  }

  lemma LastAll(s: seq<byte>, n: nat)
    requires |s| <= n
    ensures Last(s, n) == s
  {}

  // ----- blocks -----

  /** The two memcpy calls that write `d` from the write index on, around the end if need be. */
  function Copied(bytes: seq<byte>, write: nat, d: seq<byte>): (r: seq<byte>)
    requires write <= |bytes| && |d| <= |bytes|
    ensures |r| == |bytes|
  {
    var k := |bytes| - write;
    if k > |d| then bytes[..write] + d + bytes[write + |d|..]
    else d[k..] + bytes[|d| - k..write] + d[..k]
  }

  lemma CopiedOnce(bytes: seq<byte>, write: nat, d: seq<byte>)
    requires write + |d| < |bytes|
    ensures Copied(bytes, write, d) == Overwrite(bytes, write, d)
  {}

  lemma CopiedTwice(bytes: seq<byte>, write: nat, d: seq<byte>)
    requires write <= |bytes| && |bytes| - write <= |d| <= |bytes|
    ensures var k := |bytes| - write;
      Copied(bytes, write, d) == Overwrite(Overwrite(bytes, write, d[..k]), 0, d[k..])
  {}

  /** ring_buffer_put with `d` already cut to the space left. */
  function PutBlock(r: Ring, d: seq<byte>): Ring
    requires r.Valid() && |d| <= |r.bytes|
  {
    var k := |r.bytes| - r.write;
    var t := r.(bytes := Copied(r.bytes, r.write, d));
    if k > |d| then t.(write := r.write + |d|)
    else t.(writeMirror := !r.writeMirror, write := |d| - k)
  }

  /** Where the bytes of a block go. */
  lemma CopiedAt(bytes: seq<byte>, write: nat, d: seq<byte>, i: nat)
    requires write <= |bytes| && |d| <= |bytes| && i < |bytes|
    ensures var k := |bytes| - write;
      Copied(bytes, write, d)[i]
      == if write <= i < write + |d| then d[i - write] else if i + k < |d| then d[i + k] else bytes[i]
  {}

  /** Writing a block is writing its first byte and then the rest. */
  lemma CopiedStep(bytes: seq<byte>, write: nat, d: seq<byte>)
    requires write < |bytes| && 0 < |d| <= |bytes|
    ensures Copied(bytes, write, d)
         == Copied(bytes[write := d[0]], if write == |bytes| - 1 then 0 else write + 1, d[1..])
  {
    var k := |bytes| - write;
    var a := Copied(bytes, write, d);
    var next := if write == |bytes| - 1 then 0 else write + 1;
    var one, rest := bytes[write := d[0]], d[1..];
    var b := Copied(one, next, rest);
    forall i | 0 <= i < |bytes| ensures a[i] == b[i] {
      CopiedAt(bytes, write, d, i);
      CopiedAt(one, next, rest, i);
      hide Copied;
    }
  }

  lemma PutBlockStep(r: Ring, d: seq<byte>)
    requires r.Valid() && 0 < |d| <= SpaceLen(r)
    ensures PutBlock(r, d) == PutBlock(PutByte(r, d[0]), d[1..])
  {
    CopiedStep(r.bytes, r.write, d);
    hide Copied, DataLen;
    assert |d[1..]| == |d| - 1;
  }

  /** Bulk put leaves the same fields and bytes as a loop of single puts. */
  lemma {:induction false} PutBlockIsLoop(r: Ring, d: seq<byte>)
    requires r.Valid() && |d| <= SpaceLen(r) && |r.bytes| > 0
    ensures PutBlock(r, d) == PutEach(r, d)
    decreases |d|
  {
    if d == [] {
      assert Copied(r.bytes, r.write, d) == r.bytes;
    } else {
      PutBlockStep(r, d);
      hide PutBlock, PutByte;
      PutBlockIsLoop(PutByte(r, d[0]), d[1..]);
    }
  }

  /** ring_buffer_get of `n` bytes that are there: the fields afterwards. */
  function DropBlock(r: Ring, n: nat): Ring
    requires r.Valid() && n <= |r.bytes|
  {
    var k := |r.bytes| - r.read;
    if k > n then r.(read := r.read + n) else r.(readMirror := !r.readMirror, read := n - k)
  }

  lemma {:induction false} DropBlockIsLoop(r: Ring, n: nat)
    requires r.Valid() && n <= DataLen(r) && |r.bytes| > 0
    ensures DropBlock(r, n) == DropEach(r, n)
    decreases n
  {
    if n > 0 {
      DropBlockIsLoop(DropByte(r), n - 1);
    }
  }

  /** The two memcpy calls that read `n` bytes from the read index on. */
  function Taken(r: Ring, n: nat): seq<byte>
    requires r.Valid() && n <= |r.bytes|
  {
    var k := |r.bytes| - r.read;
    if k > n then r.bytes[r.read..r.read + n] else r.bytes[r.read..] + r.bytes[..n - k]
  }

  lemma TakenIsPrefix(r: Ring, n: nat)
    requires r.Valid() && n <= DataLen(r)
    ensures Taken(r, n) == Contents(r)[..n]
  {}

  /** Reading a block takes a prefix of the queue and leaves the rest, as a loop of single reads would. */
  lemma PrefixTaken(r: Ring, n: nat)
    requires r.Valid() && n <= DataLen(r) && DataLen(r) > 0
    ensures DropBlock(r, n) == DropEach(r, n)
    ensures Taken(r, n) + Contents(DropEach(r, n)) == Contents(r) && |Taken(r, n)| == n
  {
    TakenIsPrefix(r, n);
    DropBlockIsLoop(r, n);
    DropEachContents(r, n);
    hide Contents, Taken;
    assert Contents(r)[..n] + Contents(r)[n..] == Contents(r);
  }

  /** ring_buffer_put_force with `d` already cut to the buffer size: the reader moves only if the buffer was full. */
  function ForceBlock(r: Ring, d: seq<byte>): Ring
    requires r.Valid() && |d| <= |r.bytes|
  {
    var t := PutBlock(r, d);
    if Status(r) != FULL then t
    else if |r.bytes| - r.write > |d| then t.(read := t.write)
    else t.(readMirror := !r.readMirror, read := t.write)
  }

  lemma ForceBlockStep(r: Ring, d: seq<byte>)
    requires r.Valid() && 0 < |d| <= |r.bytes| && Status(r) == FULL
    ensures ForceBlock(r, d) == ForceBlock(ForceByte(r, d[0]), d[1..])
  {
    CopiedStep(r.bytes, r.write, d);
    hide Copied;
  }

  /** On a full buffer, forcing a block in is forcing its bytes in one by one. */
  lemma {:induction false} ForceBlockIsLoop(r: Ring, d: seq<byte>)
    requires r.Valid() && |d| <= |r.bytes| && |r.bytes| > 0 && Status(r) == FULL
    ensures ForceBlock(r, d) == ForceEach(r, d)
    decreases |d|
  {
    if d == [] {
      assert Copied(r.bytes, r.write, d) == r.bytes;
    } else {
      ForceBlockStep(r, d);
      hide ForceBlock, ForceByte, Status;
      ForceBlockIsLoop(ForceByte(r, d[0]), d[1..]);
    }
  }

  /**
   * ring_buffer_put_force keeps the representation, and then holds the newest bytes of contents and data, exactly
   * when the buffer was full or the data fits. Otherwise the writer passes the reader and the fields are not a queue.
   */
  lemma ForceBlockExact(r: Ring, d: seq<byte>)
    requires r.Valid() && |d| <= |r.bytes|
    ensures ForceBlock(r, d).Valid() <==> Status(r) == FULL || |d| <= SpaceLen(r)
    ensures ForceBlock(r, d).Valid() ==> Contents(ForceBlock(r, d)) == Last(Contents(r) + d, |r.bytes|)
  {
    hide ForceBlock, Contents, Last, Status, DataLen;
    if Status(r) == FULL {
      ForceBlockFull(r, d);
    } else if |d| <= SpaceLen(r) {
      ForceBlockFits(r, d);
    } else {
      ForceBlockPasses(r, d);
    }
  }

  lemma PutBlockSize(r: Ring, d: seq<byte>)
    requires r.Valid() && |d| <= |r.bytes|
    ensures var t := PutBlock(r, d); |t.bytes| == |r.bytes| && t.read == r.read && t.readMirror == r.readMirror
  {}

  lemma ForceBlockFull(r: Ring, d: seq<byte>)
    requires r.Valid() && |d| <= |r.bytes| && Status(r) == FULL
    ensures ForceBlock(r, d).Valid() && Contents(ForceBlock(r, d)) == Last(Contents(r) + d, |r.bytes|)
  {
    if |r.bytes| == 0 {
      assert Contents(r) + d == [];
    } else {
      ForceBlockIsLoop(r, d);
      hide ForceBlock, Contents, Last, Status;
      ForceEachContents(r, d);
    }
  }

  lemma ForceBlockFits(r: Ring, d: seq<byte>)
    requires r.Valid() && |d| <= SpaceLen(r) && Status(r) != FULL
    ensures ForceBlock(r, d).Valid() && Contents(ForceBlock(r, d)) == Last(Contents(r) + d, |r.bytes|)
  {
    if |r.bytes| == 0 {
      assert Contents(r) + d == [];
    } else {
      hide PutBlock, Contents, Last;
      PutBlockIsLoop(r, d);
      PutEachContents(r, d);
      LastAll(Contents(r) + d, |r.bytes|);
    }
  }

  /** The writer passes the reader. */
  lemma ForceBlockPasses(r: Ring, d: seq<byte>)
    requires r.Valid() && SpaceLen(r) < |d| <= |r.bytes| && Status(r) != FULL
    ensures !ForceBlock(r, d).Valid()
  {
    hide Copied;
  }

  /** One byte held and four forced into four: the writer passes the reader, and the fields are no queue any more. */
  lemma ForceBreaks(x: byte, d: seq<byte>)
    requires |d| == 4
    ensures var r := Ring([x, 0, 0, 0], false, 0, false, 1);
      r.Valid() && Contents(r) == [x] && !ForceBlock(r, d).Valid()
  {
    var r := Ring([x, 0, 0, 0], false, 0, false, 1);
    assert Contents(r) == [x];
    hide Contents, ForceBlock, Last;
    ForceBlockExact(r, d);
  }

  // ----- whole runs -----

  datatype Op = Put(data: seq<byte>) | PutForce(data: seq<byte>) | Get(count: nat)
              | PutChar(ch: byte) | PutCharForce(ch: byte) | GetChar

  /** One call: the fields afterwards and the bytes it hands out. */
  function Call(r: Ring, op: Op): (Ring, seq<byte>)
    requires r.Valid() && |r.bytes| > 0
  {
    match op
    case Put(d) => (if SpaceLen(r) == 0 then r else PutBlock(r, d[..Min(|d|, SpaceLen(r))]), [])
    case PutForce(d) => (ForceBlock(r, d[..Min(|d|, |r.bytes|)]), [])
    case Get(n) =>
      if DataLen(r) == 0 then (r, [])
      else (DropBlock(r, Min(n, DataLen(r))), Taken(r, Min(n, DataLen(r))))
    case PutChar(b) => (if SpaceLen(r) == 0 then r else PutByte(r, b), [])
    case PutCharForce(b) => (ForceByte(r, b), [])
    case GetChar => if DataLen(r) == 0 then (r, []) else (DropByte(r), [r.bytes[r.read]])
  }

  function Handed(ch: Option<byte>): seq<byte> {
    if ch.Some? then [ch.value] else []
  }

  /** The same call on a queue of at most `cap` bytes. */
  function Queue(q: seq<byte>, op: Op, cap: nat): (r: (seq<byte>, seq<byte>))
    requires |q| <= cap
    ensures |r.0| <= cap
  {
    match op
    case Put(d) => (q + d[..Min(|d|, cap - |q|)], [])
    case PutForce(d) => (Last(q + d[..Min(|d|, cap)], cap), [])
    case Get(n) => (q[Min(n, |q|)..], q[..Min(n, |q|)])
    case PutChar(b) => (if |q| == cap then q else q + [b], [])
    case PutCharForce(b) => (Last(q + [b], cap), [])
    case GetChar => if q == [] then (q, []) else (q[1..], q[..1])
  }

  /** Every call but put_force is always allowed; put_force when the queue is full or has the room. */
  predicate Allowed(q: seq<byte>, op: Op, cap: nat) {
    op.PutForce? ==> |q| == cap || |q| + Min(|op.data|, cap) <= cap
  }

  lemma PutStep(r: Ring, d: seq<byte>)
    requires r.Valid() && 0 < SpaceLen(r) && |d| <= SpaceLen(r)
    ensures PutBlock(r, d).Valid() && |PutBlock(r, d).bytes| == |r.bytes|
    ensures Contents(PutBlock(r, d)) == Contents(r) + d
  {
    PutBlockIsLoop(r, d);
    PutEachContents(r, d);
  }

  lemma GetStep(r: Ring, n: nat)
    requires r.Valid() && 0 < DataLen(r) && n <= DataLen(r)
    ensures DropBlock(r, n).Valid() && DropBlock(r, n).bytes == r.bytes && Contents(DropBlock(r, n)) == Contents(r)[n..]
    ensures Taken(r, n) == Contents(r)[..n]
  {
    DropBlockIsLoop(r, n);
    DropEachContents(r, n);
    TakenIsPrefix(r, n);
  }

  /** Every call does to the queue what the bounded FIFO does, and keeps the representation. */
  lemma CallRefines(r: Ring, op: Op)
    requires r.Valid() && |r.bytes| > 0 && Allowed(Contents(r), op, |r.bytes|)
    ensures Call(r, op).0.Valid() && |Call(r, op).0.bytes| == |r.bytes|
    ensures (Contents(Call(r, op).0), Call(r, op).1) == Queue(Contents(r), op, |r.bytes|)
  {
    hide Contents, PutBlock, ForceBlock, DropBlock, Taken, PutByte, ForceByte, DropByte, DataLen;
    var q := Contents(r);
    match op
    case Put(d) =>
      if SpaceLen(r) > 0 {
        PutStep(r, d[..Min(|d|, SpaceLen(r))]);
      } else {
        assert q + d[..0] == q;
      }
    case PutForce(d) =>
      ForceBlockExact(r, d[..Min(|d|, |r.bytes|)]);
      ForceBlockSize(r, d[..Min(|d|, |r.bytes|)]);
    case Get(n) =>
      if DataLen(r) > 0 {
        GetStep(r, Min(n, DataLen(r)));
      }
    case PutChar(b) =>
      if SpaceLen(r) > 0 {
        PutByteContents(r, b);
      }
    case PutCharForce(b) =>
      ForceByteContents(r, b);
      LastOfOne(q, b, |r.bytes|);
    case GetChar =>
      if DataLen(r) > 0 {
        assert q[..1] == [q[0]];
        DropByteContents(r);
      }
  }

  lemma LastOfOne(q: seq<byte>, b: byte, cap: nat)
    requires |q| <= cap && cap > 0
    ensures Last(q + [b], cap) == (q + [b])[if |q| == cap then 1 else 0..]
  {}

  lemma ForceBlockSize(r: Ring, d: seq<byte>)
    requires r.Valid() && |d| <= |r.bytes|
    ensures |ForceBlock(r, d).bytes| == |r.bytes|
  {}

  function QueueRun(q: seq<byte>, ops: seq<Op>, cap: nat): (seq<byte>, seq<byte>)
    requires |q| <= cap
    decreases |ops|
  {
    if ops == [] then (q, [])
    else
      var (q1, out) := Queue(q, ops[0], cap);
      var (q2, rest) := QueueRun(q1, ops[1..], cap);
      (q2, out + rest)
  }

  predicate AllowedRun(q: seq<byte>, ops: seq<Op>, cap: nat)
    requires |q| <= cap
    decreases |ops|
  {
    ops == [] || (Allowed(q, ops[0], cap) && AllowedRun(Queue(q, ops[0], cap).0, ops[1..], cap))
  }

  /** A run of calls; it stops where the fields no longer stand for a queue. */
  function CallRun(r: Ring, ops: seq<Op>): Option<(Ring, seq<byte>)>
    decreases |ops|
  {
    if !r.Valid() || |r.bytes| == 0 then None
    else if ops == [] then Some((r, []))
    else
      var (r1, out) := Call(r, ops[0]);
      match CallRun(r1, ops[1..])
      case None => None
      case Some((r2, rest)) => Some((r2, out + rest))
  }

  /** In every run of allowed calls the buffer holds and hands out exactly what the bounded FIFO does. */
  lemma {:induction false} RunRefines(r: Ring, ops: seq<Op>)
    requires r.Valid() && |r.bytes| > 0 && AllowedRun(Contents(r), ops, |r.bytes|)
    ensures CallRun(r, ops).Some? && CallRun(r, ops).value.0.Valid()
    ensures var (t, out) := CallRun(r, ops).value;
      (Contents(t), out) == QueueRun(Contents(r), ops, |r.bytes|)
    decreases |ops|
  {
    hide Contents, Call, Queue, Allowed;
    if ops != [] {
      CallRefines(r, ops[0]);
      RunRefines(Call(r, ops[0]).0, ops[1..]);
    }
  }

  // ----- the buffer -----

  const INT16_MAX: nat := 32767

  class RingBuffer {
    const pool: array<byte>
    const size: nat
    var readMirror: bool
    var readIndex: nat
    var writeMirror: bool
    var writeIndex: nat

    /** The fields and the part of the pool in use. */
    ghost function View(): Ring
      requires size <= pool.Length
      reads this, pool
    {
      Ring(pool[..size], readMirror, readIndex, writeMirror, writeIndex)
    }

    ghost predicate Valid()
      reads this, pool
    {
      size <= pool.Length && size <= INT16_MAX && View().Valid()
    }

    /** ring_buffer_init: the size is cut to a multiple of four. */
    constructor (pool: array<byte>, size: nat)
      requires 0 < size <= INT16_MAX && size <= pool.Length
      ensures Valid() && this.pool == pool && this.size == size - size % 4 && Contents(View()) == []
    {
      this.pool, this.size := pool, size - size % 4;
      readMirror, readIndex, writeMirror, writeIndex := false, 0, false, 0;
    }

    /** Copy `d` into the pool from `at` on (memcpy). */
    method Copy(at: nat, d: seq<byte>)
      requires at + |d| <= size <= pool.Length
      modifies pool
      ensures pool[..size] == Overwrite(old(pool[..size]), at, d)
    {
      var i := 0;
      while i < |d|
        invariant 0 <= i <= |d|
        invariant forall j :: 0 <= j < i ==> pool[at + j] == d[j]
        invariant forall j :: 0 <= j < at || at + i <= j < size ==> pool[j] == old(pool[j])
      {
        pool[at + i] := d[i];
        i := i + 1;
      }
    }

    /** The writing part that put and put_force share. */
    method Write(d: seq<byte>)
      requires Valid() && |d| <= size
      modifies this`writeMirror, this`writeIndex, pool
      ensures View() == PutBlock(old(View()), d)
    {
      hide Copied, Overwrite;
      ghost var bytes := pool[..size];
      if size - writeIndex > |d| {
        CopiedOnce(bytes, writeIndex, d);
        Copy(writeIndex, d);
        writeIndex := writeIndex + |d|;
      } else {
        CopiedTwice(bytes, writeIndex, d);
        var k := size - writeIndex;
        Copy(writeIndex, d[..k]);
        Copy(0, d[k..]);
        writeMirror := !writeMirror;
        writeIndex := |d| - k;
      }
    }

    /** ring_buffer_put: as much of the data as there is room for. */
    method Put(data: seq<byte>) returns (n: nat)
      requires Valid() && |data| <= 0xFFFF
      modifies this`writeMirror, this`writeIndex, pool
      ensures Valid() && n == Min(|data|, SpaceLen(old(View())))
      ensures Contents(View()) == old(Contents(View())) + data[..n]
      ensures View() == PutEach(old(View()), data[..n])
      ensures size > 0 ==> View() == Call(old(View()), Op.Put(data)).0
    {
      ghost var r := View();
      var space := SpaceLenNow();
      n := Min(|data|, space);
      if space == 0 {
        assert data[..0] == [] && Contents(r) + [] == Contents(r);
        return;
      }
      PutBlockIsLoop(r, data[..n]);
      PutEachContents(r, data[..n]);
      hide PutBlock, PutEach, Contents, DataLen;
      Write(data[..n]);
    }

    method SpaceLenNow() returns (n: nat)
      requires Valid()
      ensures n == SpaceLen(View())
    {
      n := if readIndex == writeIndex then (if readMirror == writeMirror then size else 0)
           else if writeIndex > readIndex then size - (writeIndex - readIndex)
           else readIndex - writeIndex;
    }

    /** ring_buffer_put_force: the data, cut to the buffer size, is always written. */
    method PutForce(data: seq<byte>) returns (n: nat)
      requires Valid() && |data| <= 0xFFFF
      modifies this, pool
      ensures n == Min(|data|, size) && size <= pool.Length
      ensures View() == ForceBlock(old(View()), data[..n])
      ensures size > 0 ==> View() == Call(old(View()), Op.PutForce(data)).0
      ensures Valid() <==> Status(old(View())) == FULL || n <= SpaceLen(old(View()))
      ensures Valid() ==> Contents(View()) == Last(old(Contents(View())) + data[..n], size)
    {
      hide Contents, DataLen, PutBlock, Last;
      ghost var r := View();
      var full := readIndex == writeIndex && readMirror != writeMirror;
      n := Min(|data|, size);
      PutBlockSize(r, data[..n]);
      ForceBlockExact(r, data[..n]);
      var stays := size - writeIndex > n;
      Write(data[..n]);
      if full {
        if !stays {
          readMirror := !readMirror;
        }
        readIndex := writeIndex;
      }
    }

    /** ring_buffer_get: the oldest bytes, at most `length` of them. */
    method Get(length: nat) returns (data: seq<byte>)
      requires Valid() && length <= 0xFFFF
      modifies this`readMirror, this`readIndex
      ensures Valid() && |data| == Min(length, DataLen(old(View())))
      ensures data + Contents(View()) == old(Contents(View()))
      ensures View() == DropEach(old(View()), |data|)
      ensures size > 0 ==> (View(), data) == Call(old(View()), Op.Get(length))
    {
      hide Contents, DataLen, DropEach, DropBlock, Taken;
      var here := DataLenNow();
      var n := Min(length, here);
      ghost var r := View();
      if here == 0 {
        DropNone(r);
        return [];
      }
      PrefixTaken(r, n);
      data := Read(n);
    }

    method DataLenNow() returns (n: nat)
      requires Valid()
      ensures n == DataLen(View())
    {
      n := if readIndex == writeIndex then (if readMirror == writeMirror then 0 else size)
           else if writeIndex > readIndex then writeIndex - readIndex
           else size - (readIndex - writeIndex);
    }

    /** The reading part of ring_buffer_get. */
    method Read(n: nat) returns (data: seq<byte>)
      requires Valid() && n <= size
      modifies this`readMirror, this`readIndex
      ensures data == Taken(old(View()), n) && View() == DropBlock(old(View()), n)
    {
      ghost var bytes := pool[..size];
      var k := size - readIndex;
      if k > n {
        data := pool[readIndex..readIndex + n];
        assert data == bytes[readIndex..readIndex + n];
        readIndex := readIndex + n;
      } else {
        data := pool[readIndex..size] + pool[..n - k];
        assert pool[readIndex..size] == bytes[readIndex..] && pool[..n - k] == bytes[..n - k];
        readMirror := !readMirror;
        readIndex := n - k;
      }
    }

    /** ring_buffer_putchar */
    method PutChar(ch: byte) returns (n: nat)
      requires Valid()
      modifies this`writeMirror, this`writeIndex, pool
      ensures Valid() && n == Min(1, SpaceLen(old(View())))
      ensures n == 1 ==> View() == PutByte(old(View()), ch) && Contents(View()) == old(Contents(View())) + [ch]
      ensures n == 0 ==> View() == old(View())
      ensures size > 0 ==> View() == Call(old(View()), Op.PutChar(ch)).0
    {
      ghost var r := View();
      var space := SpaceLenNow();
      if space == 0 {
        return 0;
      }
      PutByteContents(r, ch);
      pool[writeIndex] := ch;
      assert pool[..size] == r.bytes[r.write := ch];
      if writeIndex == size - 1 {
        writeMirror, writeIndex := !writeMirror, 0;
      } else {
        writeIndex := writeIndex + 1;
      }
      return 1;
    }

    /** ring_buffer_putchar_force */
    method PutCharForce(ch: byte)
      requires Valid() && size > 0
      modifies this, pool
      ensures Valid() && View() == ForceByte(old(View()), ch) == Call(old(View()), Op.PutCharForce(ch)).0
      ensures Contents(View()) == Last(old(Contents(View())) + [ch], size)
    {
      ghost var r := View();
      ForceByteContents(r, ch);
      var full := readIndex == writeIndex && readMirror != writeMirror;
      pool[writeIndex] := ch;
      assert pool[..size] == r.bytes[r.write := ch];
      if writeIndex == size - 1 {
        writeMirror, writeIndex := !writeMirror, 0;
        if full {
          readMirror, readIndex := !readMirror, 0;
        }
      } else {
        writeIndex := writeIndex + 1;
        if full {
          readIndex := writeIndex;
        }
      }
    }

    /** ring_buffer_getchar */
    method GetChar() returns (ch: Option<byte>)
      requires Valid()
      modifies this`readMirror, this`readIndex
      ensures Valid() && ch.Some? == (DataLen(old(View())) > 0)
      ensures ch.Some? ==> View() == DropByte(old(View())) && [ch.value] + Contents(View()) == old(Contents(View()))
      ensures ch.None? ==> View() == old(View())
      ensures size > 0 ==> (View(), Handed(ch)) == Call(old(View()), Op.GetChar)
    {
      ghost var r := View();
      var space := SpaceLenNow();
      if space == size {
        return None;
      }
      DropByteContents(r);
      ch := Some(pool[readIndex]);
      if readIndex == size - 1 {
        readMirror, readIndex := !readMirror, 0;
      } else {
        readIndex := readIndex + 1;
      }
    }
  }
}
