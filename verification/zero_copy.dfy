/**
 * Yet Another Zero Copy Buffer: one writer offset over a fixed-capacity byte
 * region, read by any number of independent slices, each with its own read
 * offset. Space is reclaimed only by an all-or-nothing realignment.
 */
module ZeroCopy {
  import opened Optional

  /** The staging area: capacity, how far the writer has committed, the bytes. */
  datatype Buffer = Buffer(size: nat, write: nat, data: seq<bv8>)

  /** A reader's cursor into one buffer: the first byte it has not consumed. */
  datatype Slice = Slice(read: nat)

  /** The outcome of a realignment attempt: success flag and the new offsets. */
  datatype Realignment = Realignment(ok: bool, buffer: Buffer, slices: seq<Slice>)

  /** The writer never runs past the capacity, and the storage has that capacity. */
  predicate Bounded(b: Buffer) {
    b.write <= b.size && |b.data| == b.size
  }

  /** A slice never sees data past what the writer has committed. */
  predicate Within(b: Buffer, s: Slice) {
    s.read <= b.write
  }

  /** Every slice has consumed everything the writer committed. */
  predicate CaughtUp(b: Buffer, slices: seq<Slice>) {
    forall i :: 0 <= i < |slices| ==> slices[i].read == b.write
  }

  /**
   * io_buffer_new: a zero-filled buffer of the requested capacity, or no
   * buffer when the allocator refuses (`granted` is the allocator's answer).
   */
  function New(size: nat, granted: bool): (r: Option<Buffer>)
    ensures r.Some? <==> granted
    ensures r.Some? ==> Bounded(r.value) && r.value.size == size && r.value.write == 0
    ensures r.Some? ==> forall i :: 0 <= i < size ==> r.value.data[i] == 0
  {
    if granted then Some(Buffer(size, 0, seq(size, _ => 0))) else None
  }

  /** io_buffer_get_read_slice: a cursor into `b` starting at `initial`. */
  function GetReadSlice(b: Buffer, initial: nat): (s: Slice)
    requires Bounded(b)
    ensures s.read == initial
    ensures Within(b, s) ==> Readable(b, s) == b.data[initial..b.write]
    ensures initial == 0 ==> Readable(b, s) == b.data[..b.write]
  {
    Slice(initial)
  }

  /** The reference meaning of io_buffer_realign. */
  function Realign(b: Buffer, slices: seq<Slice>): Realignment {
    if CaughtUp(b, slices) then
      Realignment(true, b.(write := 0), seq(|slices|, _ => Slice(0)))
    else
      Realignment(false, b, slices)
  }

  /**
   * io_buffer_realign as written: scan for a slice that lags, and only if
   * none does, reset the write offset and then every slice.
   */
  method RealignScan(b: Buffer, slices: seq<Slice>) returns (ok: bool, b': Buffer, slices': seq<Slice>)
    ensures ok <==> CaughtUp(b, slices)
    ensures ok ==> b' == b.(write := 0) && |slices'| == |slices|
    ensures ok ==> forall i :: 0 <= i < |slices'| ==> slices'[i].read == 0
    ensures !ok ==> b' == b && slices' == slices
    ensures Realign(b, slices) == Realignment(ok, b', slices')
  {
    var idx := 0;
    while idx < |slices|
      invariant 0 <= idx <= |slices|
      invariant forall j :: 0 <= j < idx ==> slices[j].read == b.write
    {
      if b.write != slices[idx].read {
        return false, b, slices;
      }
      idx := idx + 1;
    }
    b' := b.(write := 0);
    slices' := slices;
    idx := 0;
    while idx < |slices'|
      invariant 0 <= idx <= |slices'| == |slices|
      invariant forall j :: 0 <= j < idx ==> slices'[j].read == 0
    {
      slices' := slices'[idx := Slice(0)];
      idx := idx + 1;
    }
    ok := true;
  }

  /** io_buffer_is_space_for_writes. */
  function IsSpaceForWrites(b: Buffer): (r: bool)
    requires Bounded(b)
    ensures r <==> WritableSize(b) > 0
  {
    b.size > b.write
  }

  /** io_buffer_get_size_for_writes: the bytes left between the writer and the end. */
  function WritableSize(b: Buffer): (n: nat)
    requires Bounded(b)
    ensures b.write + n == b.size
  {
    b.size - b.write
  }

  /** io_buffer_get_buf_for_writes, as the region the returned pointer addresses. */
  function WritableRegion(b: Buffer): (r: seq<bv8>)
    requires Bounded(b)
    ensures |r| == WritableSize(b)
    ensures b.data == b.data[..b.write] + r
  {
    b.data[b.write..]
  }

  /**
   * io_buffer_move_write_offset: no clamping, exactly as the source does it.
   * Within the writable size, the bytes it moves past leave the writable
   * region and become readable by every slice.
   */
  function MoveWriteOffset(b: Buffer, amount: nat): (r: Buffer)
    ensures r.size == b.size && r.data == b.data
    ensures Bounded(b) && amount <= WritableSize(b) ==>
      Bounded(r) && WritableRegion(b) == WritableRegion(b)[..amount] + WritableRegion(r)
    ensures Bounded(b) && amount <= WritableSize(b) ==>
      forall s :: Within(b, s) ==> Within(r, s) && Readable(r, s) == Readable(b, s) + WritableRegion(b)[..amount]
  {
    b.(write := b.write + amount)
  }

  /**
   * yanz_read_slice_move_read_offset, on a slice of `b`: no clamping either.
   * Within the readable size, the bytes it moves past are the front of what
   * the slice could read, and the moved slice reads the rest.
   */
  function MoveReadOffset(b: Buffer, s: Slice, amount: nat): (r: Slice)
    ensures s.read <= r.read
    ensures Bounded(b) && Within(b, s) && amount <= ReadableSize(b, s) ==>
      Within(b, r) && Readable(b, s) == Readable(b, s)[..amount] + Readable(b, r)
  {
    s.(read := s.read + amount)
  }

  /** yanz_read_slice_is_space_for_reads. */
  function HasDataToRead(b: Buffer, s: Slice): (r: bool)
    requires Within(b, s)
    ensures r <==> ReadableSize(b, s) > 0
  {
    b.write > s.read
  }

  /** yanz_read_slice_get_size_for_reads. */
  function ReadableSize(b: Buffer, s: Slice): (n: nat)
    requires Within(b, s)
    ensures s.read + n == b.write
  {
    b.write - s.read
  }

  /** yanz_read_slice_get_buf, as the bytes the slice has yet to consume. */
  function Readable(b: Buffer, s: Slice): (r: seq<bv8>)
    requires Bounded(b) && Within(b, s)
    ensures |r| == ReadableSize(b, s)
    ensures b.data[..s.read] + r == b.data[..b.write]
  {
    b.data[s.read..b.write]
  }

  /**
   * The writer's side of a transfer: place `bytes` in the writable region,
   * then move the write offset past them. The caller clamps first.
   */
  function Commit(b: Buffer, bytes: seq<bv8>): (r: Buffer)
    requires Bounded(b) && |bytes| <= WritableSize(b)
    ensures Bounded(r) && r.size == b.size && r.write == b.write + |bytes|
    ensures r.data[..b.write] == b.data[..b.write]
    ensures r.data[b.write..r.write] == bytes
  {
    MoveWriteOffset(b.(data := b.data[..b.write] + bytes + b.data[b.write + |bytes|..]), |bytes|)
  }

  /** Moving the write offset keeps the writer bounded exactly when the move fits. */
  lemma MoveWriteKeepsBounded(b: Buffer, amount: nat)
    requires Bounded(b)
    ensures Bounded(MoveWriteOffset(b, amount)) <==> amount <= WritableSize(b)
  {
  }

  /** Moving a read offset keeps the slice behind the writer exactly when the move fits. */
  lemma MoveReadKeepsWithin(b: Buffer, s: Slice, amount: nat)
    requires Within(b, s)
    ensures Within(b, MoveReadOffset(b, s, amount)) <==> amount <= ReadableSize(b, s)
  {
  }

  /**
   * What a slice has yet to read after a commit is what it had yet to read,
   * followed by exactly the committed bytes: no byte is lost, duplicated or
   * reordered, whichever slice is asking.
   */
  lemma ReaderSeesCommit(b: Buffer, s: Slice, bytes: seq<bv8>)
    requires Bounded(b) && Within(b, s) && |bytes| <= WritableSize(b)
    ensures Within(Commit(b, bytes), s)
    ensures Readable(Commit(b, bytes), s) == Readable(b, s) + bytes
  {
    var c := Commit(b, bytes);
    assert c.data[s.read..b.write] == c.data[..b.write][s.read..];
    assert c.data[s.read..c.write] == c.data[s.read..b.write] + c.data[b.write..c.write];
  }

  /**
   * Realignment is all-or-nothing: it succeeds exactly when every slice has
   * caught up; success rewinds everything to 0 and gives back the whole
   * capacity without touching the data; failure changes nothing.
   */
  lemma RealignAllOrNothing(b: Buffer, slices: seq<Slice>)
    requires Bounded(b)
    requires forall i :: 0 <= i < |slices| ==> Within(b, slices[i])
    ensures var r := Realign(b, slices);
      && (r.ok <==> CaughtUp(b, slices))
      && Bounded(r.buffer) && r.buffer.size == b.size && r.buffer.data == b.data
      && |r.slices| == |slices|
      && (forall i :: 0 <= i < |slices| ==> Within(r.buffer, r.slices[i]))
      && (r.ok ==> WritableSize(r.buffer) == b.size && CaughtUp(r.buffer, r.slices))
      && (!r.ok ==> r.buffer == b && r.slices == slices)
  {
  }

  /** Realignment never takes away a byte that any slice has yet to read. */
  lemma RealignKeepsPending(b: Buffer, slices: seq<Slice>, i: nat)
    requires Bounded(b) && i < |slices|
    requires forall j :: 0 <= j < |slices| ==> Within(b, slices[j])
    ensures var r := Realign(b, slices);
      && Bounded(r.buffer) && i < |r.slices| && Within(r.buffer, r.slices[i])
      && Readable(r.buffer, r.slices[i]) == Readable(b, slices[i])
  {
    var r := Realign(b, slices);
    if r.ok {
      assert Readable(b, slices[i]) == [];
      assert Readable(r.buffer, r.slices[i]) == [];
    }
  }

  /** With no slices at all there is nothing to wait for. */
  lemma RealignWithoutSlices(b: Buffer)
    ensures Realign(b, []).ok && Realign(b, []).buffer.write == 0
  {
  }

  /** A second realignment straight after a successful one succeeds and changes nothing. */
  lemma RealignIdempotent(b: Buffer, slices: seq<Slice>)
    requires Realign(b, slices).ok
    ensures var r := Realign(b, slices);
      Realign(r.buffer, r.slices) == r
  {
  }
}
