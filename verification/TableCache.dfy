// The block cache in front of the sector table: blocks of 128 entries kept in block order
// (filesystem/FileSystem.cpp).
module TableCaches {
  import opened Sectors
  import opened Volumes

  const MAX_SECTORS_IN_TABLE_CACHE := 2048

  // A table sector is 128 little-endian 32-bit words.
  function WordsOf(sector: Sector): (words: seq<int>)
    ensures |words| == ENTRIES_PER_TABLE_SECTOR
  {
    seq(ENTRIES_PER_TABLE_SECTOR, j requires 0 <= j < ENTRIES_PER_TABLE_SECTOR =>
      Word(sector[4 * j], sector[4 * j + 1], sector[4 * j + 2], sector[4 * j + 3]))
  }

  function Word(b0: int, b1: int, b2: int, b3: int): int {
    b0 + 0x100 * b1 + 0x1_0000 * b2 + 0x100_0000 * b3
  }

  ghost predicate AreWords(words: seq<int>) {
    |words| == ENTRIES_PER_TABLE_SECTOR && forall j :: 0 <= j < |words| ==> 0 <= words[j] < 0x1_0000_0000
  }

  function ByteOf(word: int, k: int): Byte {
    (if k == 0 then word else if k == 1 then word / 0x100 else if k == 2 then word / 0x1_0000
        else word / 0x100_0000) % 0x100
  }

  function BytesOf(words: seq<int>): (sector: Sector)
    requires |words| == ENTRIES_PER_TABLE_SECTOR
  {
    seq(SECTOR_SIZE, k requires 0 <= k < SECTOR_SIZE => ByteOf(words[k / 4], k % 4))
  }

  lemma WordsRoundTrip(words: seq<int>)
    requires AreWords(words)
    ensures WordsOf(BytesOf(words)) == words
  {
    hide ByteOf, Word, BytesOf, WordsOf;
    forall j | 0 <= j < ENTRIES_PER_TABLE_SECTOR
      ensures WordsOf(BytesOf(words))[j] == words[j]
    {
      WordInSector(BytesOf(words), j);
      WordOfBytes(words[j]);
      ByteInSector(words, j, 0);
      ByteInSector(words, j, 1);
      ByteInSector(words, j, 2);
      ByteInSector(words, j, 3);
    }
  }

  lemma WordInSector(sector: Sector, j: int)
    requires 0 <= j < ENTRIES_PER_TABLE_SECTOR
    ensures WordsOf(sector)[j] == Word(sector[4 * j + 0], sector[4 * j + 1], sector[4 * j + 2], sector[4 * j + 3])
  {
  }

  lemma WordOfBytes(word: int)
    requires 0 <= word < 0x1_0000_0000
    ensures Word(ByteOf(word, 0), ByteOf(word, 1), ByteOf(word, 2), ByteOf(word, 3)) == word
  {
    Quotients(word);
    var q := word / 0x100 / 0x100 / 0x100;
    assert 0 <= q < 0x100;
  }

  lemma Quotients(word: int)
    ensures word / 0x1_0000 == word / 0x100 / 0x100 && word / 0x100_0000 == word / 0x100 / 0x100 / 0x100
  {
  }

  lemma ByteInSector(words: seq<int>, j: int, k: int)
    requires |words| == ENTRIES_PER_TABLE_SECTOR && 0 <= j < |words| && 0 <= k < 4
    ensures BytesOf(words)[4 * j + k] == ByteOf(words[j], k)
  {
  }

  lemma BytesOfWord(a: Byte, b: Byte, c: Byte, d: Byte)
    ensures var word := Word(a, b, c, d);
            && 0 <= word < 0x1_0000_0000
            && ByteOf(word, 0) == a && ByteOf(word, 1) == b && ByteOf(word, 2) == c && ByteOf(word, 3) == d
  {
    var word := Word(a, b, c, d);
    Quotients(word);
    LowByte(word, a, b + 0x100 * (c + 0x100 * d));
    LowByte(b + 0x100 * (c + 0x100 * d), b, c + 0x100 * d);
    LowByte(c + 0x100 * d, c, d);
    LowByte(d, d, 0);
  }

  lemma LowByte(word: int, byte: int, rest: int)
    requires 0 <= byte < 0x100 && word == byte + 0x100 * rest
    ensures word / 0x100 == rest && word % 0x100 == byte
  {
  }

  lemma ByteRoundTrip(sector: Sector, k: int)
    requires 0 <= k < SECTOR_SIZE
    ensures ByteOf(WordsOf(sector)[k / 4], k % 4) == sector[k]
  {
    var j := k / 4;
    BytesOfWord(sector[4 * j], sector[4 * j + 1], sector[4 * j + 2], sector[4 * j + 3]);
    assert k == 4 * j + k % 4;
  }

  lemma BytesRoundTrip(sector: Sector)
    ensures AreWords(WordsOf(sector)) && BytesOf(WordsOf(sector)) == sector
  {
    hide ByteOf, Word;
    forall j | 0 <= j < ENTRIES_PER_TABLE_SECTOR
      ensures 0 <= WordsOf(sector)[j] < 0x1_0000_0000
    {
      BytesOfWord(sector[4 * j], sector[4 * j + 1], sector[4 * j + 2], sector[4 * j + 3]);
    }
    forall k | 0 <= k < SECTOR_SIZE
      ensures BytesOf(WordsOf(sector))[k] == sector[k]
    {
      ByteRoundTrip(sector, k);
    }
  }

  datatype Block = Block(id: int, words: seq<int>, writes: int)

  predicate Cached(cache: seq<Block>, b: int) {
    exists i :: 0 <= i < |cache| && cache[i].id == b
  }

  ghost predicate Sorted(cache: seq<Block>) {
    forall i, j :: 0 <= i < j < |cache| ==> cache[i].id < cache[j].id
  }

  // The words are block b of the table.
  ghost predicate Holds(table: seq<int>, b: int, words: seq<int>) {
    && |words| == ENTRIES_PER_TABLE_SECTOR
    && 0 <= 128 * b && 128 * b + 128 <= |table|
    && forall j :: 0 <= j < 128 ==> words[j] == table[128 * b + j]
  }

  // The table is what the cached blocks hold, and the disk's blocks where nothing is cached; a
  // cached block never written equals its disk block.
  ghost predicate Caches(cache: seq<Block>, disk: seq<seq<int>>, table: seq<int>) {
    && |table| == 128 * |disk|
    && Sorted(cache) && |cache| <= MAX_SECTORS_IN_TABLE_CACHE
    && (forall i :: 0 <= i < |cache| ==> Holds(table, cache[i].id, cache[i].words))
    && (forall i :: 0 <= i < |cache| && cache[i].writes == 0 ==> disk[cache[i].id] == cache[i].words)
    && (forall i :: 0 <= i < |cache| ==> 0 <= cache[i].writes)
    && (forall b :: 0 <= b < |disk| && !Cached(cache, b) ==> Holds(table, b, disk[b]))
  }

  function Inserted(cache: seq<Block>, pos: int, block: Block): (r: seq<Block>)
    requires 0 <= pos <= |cache|
  {
    cache[..pos] + [block] + cache[pos..]
  }

  lemma InsertedAt(cache: seq<Block>, pos: int, block: Block)
    requires 0 <= pos <= |cache|
    ensures var r := Inserted(cache, pos, block);
            && |r| == |cache| + 1 && r[pos] == block
            && (forall i :: 0 <= i < pos ==> r[i] == cache[i])
            && (forall i :: pos < i < |r| ==> r[i] == cache[i - 1])
            && (forall b :: Cached(r, b) <==> Cached(cache, b) || b == block.id)
  {
    var r := Inserted(cache, pos, block);
    forall b | Cached(cache, b)
      ensures Cached(r, b)
    {
      var i :| 0 <= i < |cache| && cache[i].id == b;
      assert r[if i < pos then i else i + 1].id == b;
    }
    assert r[pos].id == block.id;
  }

  // Loading an absent block at its sorted place shows the same table.
  lemma InsertKeeps(cache: seq<Block>, disk: seq<seq<int>>, table: seq<int>, pos: int, b: int)
    requires Caches(cache, disk, table) && |cache| < MAX_SECTORS_IN_TABLE_CACHE && 0 <= b < |disk|
    requires 0 <= pos <= |cache| && !Cached(cache, b)
    requires forall i :: 0 <= i < pos ==> cache[i].id < b
    requires forall i :: pos <= i < |cache| ==> b < cache[i].id
    ensures var r := Inserted(cache, pos, Block(b, disk[b], 0));
            Caches(r, disk, table) && Cached(r, b)
  {
    hide Holds, Cached, Inserted;
    InsertedAt(cache, pos, Block(b, disk[b], 0));
  }

  // Replacing the words of cached block i, written or not, replaces that block of the table.
  lemma WriteKeeps(cache: seq<Block>, disk: seq<seq<int>>, table: seq<int>, i: int, offset: int, word: int)
    requires Caches(cache, disk, table) && 0 <= i < |cache| && 0 <= offset < 128
    ensures var id := 128 * cache[i].id + offset;
            && 0 <= id < |table|
            && Caches(cache[i := Block(cache[i].id, cache[i].words[offset := word], cache[i].writes + 1)], disk,
                 table[id := word])
  {
    var cache' := cache[i := Block(cache[i].id, cache[i].words[offset := word], cache[i].writes + 1)];
    var table' := table[128 * cache[i].id + offset := word];
    forall b | !Cached(cache', b)
      ensures !Cached(cache, b)
    {
      assert forall k :: 0 <= k < |cache| ==> cache'[k].id == cache[k].id;
    }
    forall k | 0 <= k < |cache|
      ensures Holds(table', cache'[k].id, cache'[k].words)
    {
      assert Holds(table, cache[k].id, cache[k].words);
    }
    assert Cached(cache, cache[i].id);
    forall b | 0 <= b < |disk| && !Cached(cache', b)
      ensures Holds(table', b, disk[b])
    {
      assert Holds(table, b, disk[b]) && b != cache[i].id;
    }
  }

  // Writing block i to the disk shows the same table.
  lemma FlushKeeps(cache: seq<Block>, disk: seq<seq<int>>, table: seq<int>, i: int)
    requires Caches(cache, disk, table) && 0 <= i < |cache|
    ensures 0 <= cache[i].id < |disk|
    ensures Caches(cache, disk[cache[i].id := cache[i].words], table)
  {
  }

  // Dropping the first k blocks shows the same table once the disk holds them.
  lemma DropKeeps(cache: seq<Block>, disk: seq<seq<int>>, table: seq<int>, k: int)
    requires Caches(cache, disk, table) && 0 <= k <= |cache|
    requires forall i :: 0 <= i < k ==> 0 <= cache[i].id < |disk| && disk[cache[i].id] == cache[i].words
    ensures Caches(cache[k..], disk, table)
  {
  }

  // Binary search over the cached blocks: the block's index, or the place to insert it.
  method BinarySearch(blocks: seq<Block>, id: int) returns (found: bool, pos: int)
    requires Sorted(blocks)
    ensures found <==> Cached(blocks, id)
    ensures found ==> 0 <= pos < |blocks| && blocks[pos].id == id
    ensures !found ==>
              && 0 <= pos <= |blocks|
              && (forall i :: 0 <= i < pos ==> blocks[i].id < id)
              && (forall i :: pos <= i < |blocks| ==> id < blocks[i].id)
  {
    pos := -1;
    var low, high := 0, |blocks| - 1;
    while low <= high
      invariant 0 <= low <= high + 1 <= |blocks|
      invariant forall i :: 0 <= i < low ==> blocks[i].id < id
      invariant forall i :: high < i < |blocks| ==> id < blocks[i].id
      invariant if pos < 0 then low == 0 && high == |blocks| - 1 else pos == low || pos == high + 1
      decreases high - low
    {
      var mid := (low + high) / 2;
      if id == blocks[mid].id {
        return true, mid;
      }
      if id < blocks[mid].id {
        high := mid - 1;
        pos := high + 1;
      } else {
        low := mid + 1;
        pos := low;
      }
    }
    if pos < 0 {
      pos := 0;
    } else if pos >= |blocks| {
      pos := |blocks|;
    }
    found := false;
  }
}
