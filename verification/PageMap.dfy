// The bitmap of allocated pages, and the kernel's page pool, which is a second such bitmap
// (memory/MemManager.cpp).
module PageMaps {
  import opened Bits
  import opened Wrappers

  datatype ReturnCode = Success | Failure

  // Word p / 32 of the map holds page p as bit p % 32.
  predicate Marked(words: seq<int>, p: int)
    requires Words(words)
  {
    0 <= p < 32 * |words| && Bit(words[p / 32], p % 32)
  }

  predicate Words(words: seq<int>) {
    forall i :: 0 <= i < |words| ==> 0 <= words[i] <= FULL
  }

  // The set of pages a map stands for.
  ghost function Pages(words: seq<int>): set<int>
    requires Words(words)
  {
    set p: int | 0 <= p < 32 * |words| && Marked(words, p)
  }

  lemma PagesSet(words: seq<int>, i: int, b: int)
    requires Words(words) && 0 <= i < |words| && 0 <= b < 32
    ensures Words(words[i := WithBit(words[i], b)])
    ensures Pages(words[i := WithBit(words[i], b)]) == Pages(words) + {32 * i + b}
  {
    var words' := words[i := WithBit(words[i], b)];
    WordsStay(words[i], b);
    forall p | 0 <= p < 32 * |words|
      ensures Marked(words', p) <==> Marked(words, p) || p == 32 * i + b
    {
      BitSet(words[i], b, p % 32);
    }
  }

  lemma PagesCleared(words: seq<int>, i: int, b: int)
    requires Words(words) && 0 <= i < |words| && 0 <= b < 32
    ensures Power(b) <= FULL && Words(words[i := WithoutBit(words[i], b)])
    ensures Pages(words[i := WithoutBit(words[i], b)]) == Pages(words) - {32 * i + b}
  {
    WordsStay(words[i], b);
    var words' := words[i := WithoutBit(words[i], b)];
    forall p | 0 <= p < 32 * |words|
      ensures Marked(words', p) <==> Marked(words, p) && p != 32 * i + b
    {
      BitCleared(words[i], b, p % 32);
    }
  }

  // Shifting a word right.
  function Shifted(w: nat, b: nat): nat {
    if b == 0 then w else Shifted(w, b - 1) / 2
  }

  lemma {:induction false} ShiftedHalf(w: nat, b: nat)
    requires 0 < b
    ensures Shifted(w, b) == Shifted(w / 2, b - 1)
  {
    if b > 1 {
      ShiftedHalf(w, b - 1);
    }
  }

  lemma {:induction false} LowBitOfShifted(w: nat, b: nat)
    ensures Shifted(w, b) % 2 == 1 <==> Bit(w, b)
  {
    if b > 0 {
      ShiftedHalf(w, b);
      LowBitOfShifted(w / 2, b - 1);
    }
  }

  // Every page from word lo up to word hi is taken.
  ghost predicate AllTaken(words: seq<int>, lo: int, hi: int)
    requires Words(words)
  {
    forall p :: 32 * lo <= p < 32 * hi ==> p in Pages(words)
  }

  lemma FullWordTaken(words: seq<int>, lo: int, i: int)
    requires Words(words) && 0 <= lo <= i < |words| && AllTaken(words, lo, i) && words[i] == FULL
    ensures AllTaken(words, lo, i + 1)
  {
    WordPower();
    forall p | 32 * i <= p < 32 * (i + 1)
      ensures p in Pages(words)
    {
      FullHasBit(32, p % 32);
      assert Marked(words, p);
    }
  }

  lemma PageIffBit(words: seq<int>, i: int, b: int)
    requires Words(words) && 0 <= i < |words| && 0 <= b < 32
    ensures 32 * i + b in Pages(words) <==> Bit(words[i], b)
  {
  }

  lemma FullByBits(w: int)
    requires 0 <= w <= FULL && forall b: nat :: b < 32 ==> Bit(w, b)
    ensures w == FULL
  {
    WordPower();
    FullIffAllBits(w, 32);
  }

  // The least page at or after word from that is not taken.
  ghost predicate LeastFree(words: seq<int>, from: int, p: int)
    requires Words(words)
  {
    && 32 * from <= p < 32 * |words| && p !in Pages(words)
    && forall q :: 32 * from <= q < p ==> q in Pages(words)
  }

  class PageMap {
    const words: array<int>
    // The first word searched: those before it are reserved.
    const firstWord: nat
    // The page number of bit 0.
    const startPage: nat

    ghost predicate Valid()
      reads words
    {
      Words(words[..]) && firstWord <= words.Length
    }

    // The allocated pages, counted from the start of the map.
    ghost function Used(): set<int>
      requires Valid()
      reads words
    {
      Pages(words[..])
    }

    // Builds the map: all pages clear, then the reserved words full.
    constructor (size: nat, reserved: nat, startPage: nat)
      requires reserved <= size
      ensures fresh(words) && words.Length == size && firstWord == reserved && this.startPage == startPage
      ensures Valid() && forall p :: p in Used() <==> 0 <= p < 32 * reserved
    {
      firstWord, this.startPage := reserved, startPage;
      words := new int[size];
      new;
      for i := 0 to size
        invariant forall j :: 0 <= j < i ==> words[j] == 0
      {
        words[i] := 0;
      }
      for i := 0 to reserved
        invariant forall j :: 0 <= j < i ==> words[j] == FULL
        invariant forall j :: i <= j < size ==> words[j] == 0
      {
        words[i] := FULL;
      }
      BuiltPages(words[..], reserved);
    }

    // AllocatePhysicalPage and AllocatePageForKernel: the least free page after the reserved ones,
    // or none if all are taken.
    method Allocate() returns (r: Option<int>)
      requires Valid()
      modifies words
      ensures Valid()
      ensures r.None? <==> AllTaken(old(words[..]), firstWord, words.Length)
      ensures r.None? ==> words[..] == old(words[..])
      ensures r.Some? ==> LeastFree(old(words[..]), firstWord, r.value - startPage)
      ensures r.Some? ==> Used() == old(Used()) + {r.value - startPage}
    {
      var i := firstWord;
      while i < words.Length
        invariant firstWord <= i <= words.Length && words[..] == old(words[..])
        invariant AllTaken(words[..], firstWord, i)
      {
        if words[i] != FULL {
          var entry, b := words[i], 0;
          while b < 32
            invariant 0 <= b <= 32 && words[..] == old(words[..]) && entry == Shifted(words[i], b)
            invariant forall c: nat :: c < b ==> Bit(words[i], c)
          {
            LowBitOfShifted(words[i], b);
            if entry % 2 == 0 {
              PagesSet(words[..], i, b);
              FirstClearIsLeast(words[..], firstWord, i, b);
              ghost var after := words[..][i := WithBit(words[i], b)];
              words[i] := Or(words[i], Power(b));
              assert words[..] == after;
              return Some(32 * i + b + startPage);
            }
            entry := entry / 2;
            b := b + 1;
          }
          FullByBits(words[i]);
        }
        FullWordTaken(words[..], firstWord, i);
        i := i + 1;
      }
      return None;
    }

    // DeAllocatePhysicalPage and DeAllocatePageForKernel.
    method DeAllocate(page: int)
      requires Valid() && startPage <= page < startPage + 32 * words.Length
      modifies words
      ensures Valid() && Used() == old(Used()) - {page - startPage}
    {
      var i, b := (page - startPage) / 32, (page - startPage) % 32;
      PagesCleared(words[..], i, b);
      ghost var after := words[..][i := WithoutBit(words[i], b)];
      words[i] := And(words[i], Not(Power(b)));
      assert words[..] == after;
    }

    // Marks a page that hardware uses; a page past the map needs no mark, a marked one is an error.
    method MarkPageAsAllocated(page: nat) returns (r: ReturnCode)
      requires Valid() && startPage == 0
      modifies words
      ensures Valid()
      ensures r == if page in old(Used()) then Failure else Success
      ensures Used() == if page < 32 * words.Length then old(Used()) + {page} else old(Used())
    {
      var i := page / 32;
      if i >= words.Length {
        return Success;
      }
      var b := page % 32;
      LowBitOfShifted(words[i], b);
      PageIffBit(words[..], i, b);
      if Shifted(words[i], b) % 2 == 1 {
        return Failure;
      }
      PagesSet(words[..], i, b);
      ghost var after := words[..][i := WithBit(words[i], b)];
      words[i] := Or(words[i], Power(b));
      assert words[..] == after;
      return Success;
    }
  }

  lemma FirstClearIsLeast(words: seq<int>, from: int, i: int, b: int)
    requires Words(words) && 0 <= from <= i < |words| && AllTaken(words, from, i) && 0 <= b < 32
    requires !Bit(words[i], b) && forall c: nat :: c < b ==> Bit(words[i], c)
    ensures LeastFree(words, from, 32 * i + b)
  {
  }

  lemma BuiltPages(words: seq<int>, reserved: int)
    requires 0 <= reserved <= |words|
    requires forall j :: 0 <= j < reserved ==> words[j] == FULL
    requires forall j :: reserved <= j < |words| ==> words[j] == 0
    ensures Words(words) && forall p :: p in Pages(words) <==> 0 <= p < 32 * reserved
  {
    forall p | 0 <= p < 32 * |words|
      ensures Marked(words, p) <==> p < 32 * reserved
    {
      WordPower();
      FullHasBit(32, p % 32);
      ZeroHasNoBit(p % 32);
    }
  }
}
