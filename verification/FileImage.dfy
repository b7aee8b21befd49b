// The bytes of a file seen through its chain of sectors, and what the write buffer still holds
// back (filesystem/Directory.cpp).
module FileImages {
  import opened Sectors

  // The data sectors along a chain are the image's; every sector outside the chain is as it was.
  ghost predicate Shows<T>(data0: seq<T>, data: seq<T>, chain: seq<int>, image: seq<T>) {
    && |data| == |data0| && |image| == |chain|
    && (forall i :: 0 <= i < |chain| ==> 0 <= chain[i] < |data| && data[chain[i]] == image[i])
    && (forall id :: 0 <= id < |data| && id !in chain ==> data[id] == data0[id])
  }

  function Along<T>(data: seq<T>, chain: seq<int>): seq<T>
    requires forall i :: 0 <= i < |chain| ==> 0 <= chain[i] < |data|
  {
    seq(|chain|, i requires 0 <= i < |chain| => data[chain[i]])
  }

  lemma ShowsItself<T>(data: seq<T>, chain: seq<int>)
    requires forall i :: 0 <= i < |chain| ==> 0 <= chain[i] < |data|
    ensures Shows(data, data, chain, Along(data, chain))
  {
  }

  lemma ShowsLonger<T>(data0: seq<T>, data: seq<T>, chain: seq<int>, image: seq<T>, id: int)
    requires Shows(data0, data, chain, image) && 0 <= id < |data| && id !in chain
    ensures Shows(data0, data, chain + [id], image + [data[id]])
  {
  }

  lemma ShowsUpdated<T>(data0: seq<T>, data: seq<T>, chain: seq<int>, image: seq<T>, i: int, x: T)
    requires Shows(data0, data, chain, image) && 0 <= i < |chain|
    requires forall j, k :: 0 <= j < k < |chain| ==> chain[j] != chain[k]
    ensures Shows(data0, data[chain[i] := x], chain, image[i := x])
  {
  }

  // The sectors gathered for one transfer: consecutive ids from `start` to `prev`.
  datatype WriteBuffer<+T> = WriteBuffer(sectors: seq<T>, start: int, prev: int)

  ghost predicate Gathers<T>(buffer: WriteBuffer<T>, n: int) {
    buffer.sectors != [] ==>
      0 <= buffer.start && buffer.prev == buffer.start + |buffer.sectors| - 1 && buffer.prev < n
  }

  // The data sectors as they will be once the buffer is written.
  ghost function Pending<T>(data: seq<T>, buffer: WriteBuffer<T>): (r: seq<T>)
    requires Gathers(buffer, |data|)
    ensures |r| == |data|
  {
    if buffer.sectors == [] then data else Stored(data, buffer.start, buffer.sectors)
  }

  ghost predicate Buffered<T>(buffer: WriteBuffer<T>, id: int) {
    buffer.start <= id < buffer.start + |buffer.sectors|
  }

  lemma PendingElsewhere<T>(data: seq<T>, buffer: WriteBuffer<T>, id: int)
    requires Gathers(buffer, |data|) && 0 <= id < |data| && !Buffered(buffer, id)
    ensures Pending(data, buffer)[id] == data[id]
  {
  }

  lemma PendingEmpty<T>(data: seq<T>, buffer: WriteBuffer<T>)
    requires buffer.sectors == []
    ensures Pending(data, buffer) == data
  {
  }

  lemma PendingFull<T>(data: seq<T>, buffer: WriteBuffer<T>)
    requires Gathers(buffer, |data|) && buffer.sectors != []
    ensures Pending(data, buffer) == Stored(data, buffer.start, buffer.sectors)
  {
  }

  lemma PendingStarted<T>(data: seq<T>, id: int, x: T)
    requires 0 <= id < |data|
    ensures Pending(data, WriteBuffer([x], id, id)) == data[id := x]
  {
  }

  lemma PendingGathered<T>(data: seq<T>, buffer: WriteBuffer<T>, x: T)
    requires Gathers(buffer, |data|) && buffer.sectors != [] && buffer.prev + 1 < |data|
    ensures var buffer' := WriteBuffer(buffer.sectors + [x], buffer.start, buffer.prev + 1);
            Pending(data, buffer') == Pending(data, buffer)[buffer.prev + 1 := x]
  {
  }

  function ByteAt(image: seq<Sector>, j: int): Byte
    requires 0 <= j < SECTOR_SIZE * |image|
  {
    image[j / SECTOR_SIZE][j % SECTOR_SIZE]
  }

  // The first `size` bytes of a file.
  function Content(image: seq<Sector>, size: int): (bytes: seq<Byte>)
    requires 0 <= size <= SECTOR_SIZE * |image|
    ensures |bytes| == size
  {
    seq(size, j requires 0 <= j < size => ByteAt(image, j))
  }

  // The first w bytes of data have been put at offset off; the rest of the sectors that were
  // there before is as it was.
  ghost predicate Put(base: seq<Sector>, image: seq<Sector>, data: seq<Byte>, off: int, w: int)
    requires 0 <= off <= SECTOR_SIZE * |base| && 0 <= w <= |data|
  {
    && |base| <= |image| && off + w <= SECTOR_SIZE * |image|
    && forall j :: 0 <= j < SECTOR_SIZE * |image| && (j < off + w || j < SECTOR_SIZE * |base|) ==>
         ByteAt(image, j) == if off <= j < off + w then data[j - off] else ByteAt(base, j)
  }

  lemma PutNothing(base: seq<Sector>, data: seq<Byte>, off: int)
    requires 0 <= off <= SECTOR_SIZE * |base|
    ensures Put(base, base, data, off, 0)
  {
  }

  // One more sector, not yet written.
  lemma PutLonger(base: seq<Sector>, image: seq<Sector>, data: seq<Byte>, off: int, w: int, x: Sector)
    requires 0 <= off <= SECTOR_SIZE * |base| && 0 <= w <= |data| && Put(base, image, data, off, w)
    ensures Put(base, image + [x], data, off, w)
  {
    forall j | 0 <= j < SECTOR_SIZE * |image|
      ensures ByteAt(image + [x], j) == ByteAt(image, j)
    {
    }
  }

  lemma PutExtends(base: seq<Sector>, image: seq<Sector>, image': seq<Sector>, data: seq<Byte>, off: int, w: int)
    requires 0 <= off <= SECTOR_SIZE * |base| && 0 <= w <= |data| && Put(base, image, data, off, w)
    requires image' == image || (|image'| == |image| + 1 && image'[..|image|] == image)
    ensures Put(base, image', data, off, w)
  {
    if image' != image {
      assert image' == image + [image'[|image|]];
      PutLonger(base, image, data, off, w, image'[|image|]);
    }
  }

  // A whole sector.
  lemma PutSector(base: seq<Sector>, image: seq<Sector>, data: seq<Byte>, off: int, w: int)
    requires 0 <= off <= SECTOR_SIZE * |base| && 0 <= w && w + SECTOR_SIZE <= |data| && Put(base, image, data, off, w)
    requires (off + w) % SECTOR_SIZE == 0 && (off + w) / SECTOR_SIZE < |image|
    ensures Put(base, image[(off + w) / SECTOR_SIZE := data[w..w + SECTOR_SIZE]], data, off, w + SECTOR_SIZE)
  {
    var q := (off + w) / SECTOR_SIZE;
    var image' := image[q := data[w..w + SECTOR_SIZE]];
    forall j | 0 <= j < SECTOR_SIZE * |image|
      ensures ByteAt(image', j) == if off + w <= j < off + w + SECTOR_SIZE then data[j - off] else ByteAt(image, j)
    {
      assert j / SECTOR_SIZE == q <==> off + w <= j < off + w + SECTOR_SIZE;
    }
  }

  // Part of the first sector, from the middle on.
  lemma PutHead(base: seq<Sector>, data: seq<Byte>, off: int, count: int)
    requires 0 <= off < SECTOR_SIZE * |base| && 0 <= count <= |data| && off % SECTOR_SIZE + count <= SECTOR_SIZE
    ensures var q, at := off / SECTOR_SIZE, off % SECTOR_SIZE;
            Put(base, base[q := base[q][..at] + data[..count] + base[q][at + count..]], data, off, count)
  {
  }

  // All of the data has been put at offset off; what was there before is as it was, up to the
  // size the file had.
  ghost predicate PutAll(base: seq<Sector>, image: seq<Sector>, data: seq<Byte>, off: int, size: int)
    requires 0 <= off <= SECTOR_SIZE * |base|
  {
    && |base| <= |image| && off + |data| <= SECTOR_SIZE * |image|
    && forall j :: 0 <= j < SECTOR_SIZE * |image| && (j < off + |data| || (j < size && j < SECTOR_SIZE * |base|)) ==>
         ByteAt(image, j) == if off <= j < off + |data| then data[j - off] else ByteAt(base, j)
  }

  lemma PutToTheEnd(base: seq<Sector>, image: seq<Sector>, data: seq<Byte>, off: int, size: int)
    requires 0 <= off <= SECTOR_SIZE * |base| && Put(base, image, data, off, |data|)
    ensures PutAll(base, image, data, off, size)
  {
  }

  // The last, partly written sector: behind the data it holds what was there, unless the file
  // ends with the data.
  lemma PutTail(base: seq<Sector>, image: seq<Sector>, data: seq<Byte>, off: int, w: int, size: int, x: Sector)
    requires 0 <= off <= SECTOR_SIZE * |base| && 0 <= w <= |data| < w + SECTOR_SIZE && Put(base, image, data, off, w)
    requires (off + w) % SECTOR_SIZE == 0 && (off + w) / SECTOR_SIZE < |image|
    requires x == image[(off + w) / SECTOR_SIZE] || off + |data| >= size
    ensures PutAll(base, image[(off + w) / SECTOR_SIZE := data[w..] + x[|data| - w..]], data, off, size)
  {
    var q := (off + w) / SECTOR_SIZE;
    var tail: Sector := data[w..] + x[|data| - w..];
    var image' := image[q := tail];
    forall j | 0 <= j < SECTOR_SIZE * |image| && (j < off + |data| || j < size)
      ensures ByteAt(image', j) == if off + w <= j < off + |data| then data[j - off] else ByteAt(image, j)
    {
      assert j / SECTOR_SIZE == q <==> off + w <= j < off + w + SECTOR_SIZE;
    }
  }

  // What a write leaves of a file: the new bytes where they belong, and before and behind them
  // what the old sectors held, or zero where there was no sector.
  ghost predicate Overwritten(before: seq<Sector>, image: seq<Sector>, data: seq<Byte>, off: int, size: int)
    requires 0 <= off
  {
    && size <= SECTOR_SIZE * |image|
    && forall j :: 0 <= j < size ==>
         ByteAt(image, j) == if off <= j < off + |data| then data[j - off]
                             else if j < SECTOR_SIZE * |before| then ByteAt(before, j) else 0
  }

  lemma OverwrittenIs(before: seq<Sector>, base: seq<Sector>, image: seq<Sector>, data: seq<Byte>, off: int, size: int)
    requires 0 <= off <= SECTOR_SIZE * |base| && 0 <= size <= SECTOR_SIZE * |before|
    requires |before| <= |base| && base[..|before|] == before
    requires forall i :: |before| <= i < |base| ==> base[i] == ZERO_SECTOR
    requires PutAll(base, image, data, off, size)
    ensures Overwritten(before, image, data, off, if size < off + |data| then off + |data| else size)
  {
  }

  // A write that starts inside the file or at its end replaces exactly its own range.
  function Spliced(content: seq<Byte>, off: int, data: seq<Byte>): seq<Byte>
    requires 0 <= off <= |content|
  {
    content[..off] + data + if off + |data| < |content| then content[off + |data|..] else []
  }

  lemma OverwrittenContent(before: seq<Sector>, image: seq<Sector>, data: seq<Byte>, off: int, size: int)
    requires 0 <= off <= size <= SECTOR_SIZE * |before|
    requires Overwritten(before, image, data, off, if size < off + |data| then off + |data| else size)
    ensures Content(image, if size < off + |data| then off + |data| else size) ==
            Spliced(Content(before, size), off, data)
  {
  }

  // The bytes of k sectors of the file from sector p on, without the first `at` of them.
  lemma ContentOfRun(image: seq<Sector>, size: int, p: int, k: int, at: int, count: int)
    requires 0 <= p <= p + k <= |image| && 0 <= at && 0 <= count && at + count <= SECTOR_SIZE * k
    requires SECTOR_SIZE * p + at + count <= size <= SECTOR_SIZE * |image|
    ensures Content(image[p..p + k], SECTOR_SIZE * k)[at..at + count]
            == Content(image, size)[SECTOR_SIZE * p + at..SECTOR_SIZE * p + at + count]
  {
    var run := Content(image[p..p + k], SECTOR_SIZE * k);
    forall j | 0 <= j < SECTOR_SIZE * k && SECTOR_SIZE * p + j < size
      ensures run[j] == Content(image, size)[SECTOR_SIZE * p + j]
    {
      assert (SECTOR_SIZE * p + j) / SECTOR_SIZE == p + j / SECTOR_SIZE;
    }
  }
}
