/**
 * The naive bitmap: an array of machine words with create, set, clear,
 * find-first-clear and size. Words are 64-bit (`unsigned long` on an LP64
 * target); the stored size is an `unsigned short` and indices are too.
 */
module NtBitmap {

  /** Bits per word: 8 * sizeof(unsigned long). */
  const WordBits: nat := 64

  /** (unsigned long)-1, the "nothing found" answer of find-first-clear. */
  const NotFound: nat := 0xFFFF_FFFF_FFFF_FFFF

  type ushort = x: int | 0 <= x < 0x1_0000
  type uint = x: int | 0 <= x < 0x1_0000_0000

  /** The errno values create can leave behind. */
  datatype Errno = EINVAL | ENOMEM

  /** `size` is the field size_, `words` the allocated array. */
  datatype Bitmap = Bitmap(size: ushort, words: seq<bv64>)

  /** A bitmap handle, or NULL with errno set. */
  datatype Created = Created(bitmap: Bitmap) | Failed(errno: Errno)

  /** The value set and clear return, and the bitmap afterwards. */
  datatype Update = Update(status: nat, bitmap: Bitmap)

  /** The stored size never exceeds the allocation. */
  predicate WellFormed(bm: Bitmap) {
    bm.size <= |bm.words|
  }

  /** The word with only bit `k` set: 1UL << k. */
  function Mask(k: bv6): bv64 {
    1 << k
  }

  /** Bit `k` of a word. */
  predicate WordBit(w: bv64, k: bv6) {
    (w >> k) & 1 == 1
  }

  /** The bit position of index `i` within its word: i % 64. */
  function Pos(i: nat): bv6 {
    (i % WordBits) as bv6
  }

  /** Distinct positions below 64 stay distinct as bit positions. */
  lemma PosInjective(i: nat, j: nat)
    ensures Pos(i) == Pos(j) <==> i % WordBits == j % WordBits
  {
    PosValue(i);
    PosValue(j);
  }

  /** The bit position of `i`, read back as a number, is i % 64. */
  lemma PosValue(i: nat)
    ensures Pos(i) as int == i % WordBits
  {
    SixBitRoundTrip(i % WordBits);
  }

  /** A number below 64 survives the trip through six bits. */
  lemma SixBitRoundTrip(a: int)
    requires 0 <= a < WordBits
    ensures (a as bv6) as int == a
  {
  }

  /** Bit `i` of the bitmap: bit i % 64 of word i / 64. */
  predicate Bit(bm: Bitmap, i: nat)
    requires i / WordBits < |bm.words|
  {
    WordBit(bm.words[i / WordBits], Pos(i))
  }

  /** arr_size: enough words for `n` bits. */
  function WordCount(n: nat): (r: nat)
    requires n > 0
    ensures n <= r * WordBits < n + WordBits
  {
    1 + (n - 1) / WordBits
  }

  /**
   * nt_bitmap_create: EINVAL for zero bits, ENOMEM when the allocator
   * refuses (`granted` is its answer), otherwise WordCount(n) zeroed words,
   * with the word count stored in the 16-bit size_ field.
   */
  function Create(n: uint, granted: bool): (r: Created)
    ensures n == 0 ==> r == Failed(EINVAL)
    ensures n > 0 && !granted ==> r == Failed(ENOMEM)
    ensures n > 0 && granted ==> r.Created?
    ensures r.Created? ==> WellFormed(r.bitmap) && |r.bitmap.words| == WordCount(n)
    ensures r.Created? ==> r.bitmap.size == WordCount(n) % 0x1_0000
    ensures r.Created? ==> forall i :: 0 <= i < |r.bitmap.words| * WordBits ==> !Bit(r.bitmap, i)
  {
    if n == 0 then Failed(EINVAL)
    else if !granted then Failed(ENOMEM)
    else
      var count := WordCount(n);
      Created(Bitmap(count % 0x1_0000, seq(count, _ => 0)))
  }

  lemma SetWordBits(w: bv64, k: bv6, j: bv6)
    ensures WordBit(w | Mask(k), j) <==> j == k || WordBit(w, j)
  {
  }

  lemma ClearWordBits(w: bv64, k: bv6, j: bv6)
    ensures WordBit(w & !Mask(k), j) <==> j != k && WordBit(w, j)
  {
  }

  /** Setting bit `p` of a word leaves every other bit `q` as it was. */
  lemma SetKeepsOtherBit(w: bv64, p: bv6, q: bv6)
    requires p != q
    ensures WordBit(w | Mask(p), q) == WordBit(w, q)
  {
    SetWordBits(w, p, q);
  }

  /** Clearing bit `p` of a word leaves every other bit `q` as it was. */
  lemma ClearKeepsOtherBit(w: bv64, p: bv6, q: bv6)
    requires p != q
    ensures WordBit(w & !Mask(p), q) == WordBit(w, q)
  {
    ClearWordBits(w, p, q);
  }

  /** Two distinct indices in the same word sit at distinct bit positions. */
  lemma SameWordOtherBit(i: nat, idx: nat)
    requires i / WordBits == idx / WordBits && i != idx
    ensures Pos(i) != Pos(idx)
  {
    PosInjective(i, idx);
  }

  /** The words after bit `p` of word `j` is set. */
  function SetWord(ws: seq<bv64>, j: nat, p: bv6): seq<bv64>
    requires j < |ws|
  {
    ws[j := ws[j] | Mask(p)]
  }

  /** The words after bit `p` of word `j` is cleared. */
  function ClearWord(ws: seq<bv64>, j: nat, p: bv6): seq<bv64>
    requires j < |ws|
  {
    ws[j := ws[j] & !Mask(p)]
  }

  /** Storing the set word turns bit `idx` on. */
  lemma SetWordHits(bm: Bitmap, idx: nat)
    requires idx / WordBits < |bm.words|
    ensures Bit(bm.(words := SetWord(bm.words, idx / WordBits, Pos(idx))), idx)
  {
    SetBitOn(bm.words[idx / WordBits], Pos(idx));
  }

  lemma SetBitOn(w: bv64, p: bv6)
    ensures WordBit(w | Mask(p), p)
  {
    SetWordBits(w, p, p);
  }

  /** Storing the set word keeps every other bit. */
  lemma SetWordKeeps(bm: Bitmap, idx: nat, i: nat)
    requires idx / WordBits < |bm.words| && i / WordBits < |bm.words| && i != idx
    ensures Bit(bm.(words := SetWord(bm.words, idx / WordBits, Pos(idx))), i) == Bit(bm, i)
  {
    if i / WordBits == idx / WordBits {
      SetWordKeepsNeighbour(bm, idx, i);
    } else {
      SetWordKeepsOtherWords(bm, idx, i);
    }
  }

  lemma SetWordKeepsNeighbour(bm: Bitmap, idx: nat, i: nat)
    requires idx / WordBits < |bm.words| && i / WordBits == idx / WordBits && i != idx
    ensures Bit(bm.(words := SetWord(bm.words, idx / WordBits, Pos(idx))), i) == Bit(bm, i)
  {
    SameWordOtherBit(i, idx);
    SetKeepsOtherBit(bm.words[idx / WordBits], Pos(idx), Pos(i));
  }

  lemma SetWordKeepsOtherWords(bm: Bitmap, idx: nat, i: nat)
    requires idx / WordBits < |bm.words| && i / WordBits < |bm.words| && i / WordBits != idx / WordBits
    ensures Bit(bm.(words := SetWord(bm.words, idx / WordBits, Pos(idx))), i) == Bit(bm, i)
  {
    assert SetWord(bm.words, idx / WordBits, Pos(idx))[i / WordBits] == bm.words[i / WordBits];
  }

  /** Storing the cleared word turns bit `idx` off. */
  lemma ClearWordHits(bm: Bitmap, idx: nat)
    requires idx / WordBits < |bm.words|
    ensures !Bit(bm.(words := ClearWord(bm.words, idx / WordBits, Pos(idx))), idx)
  {
    ClearedBitOff(bm.words[idx / WordBits], Pos(idx));
  }

  lemma ClearedBitOff(w: bv64, p: bv6)
    ensures !WordBit(w & !Mask(p), p)
  {
    ClearWordBits(w, p, p);
  }

  /** Storing the cleared word keeps every other bit. */
  lemma ClearWordKeeps(bm: Bitmap, idx: nat, i: nat)
    requires idx / WordBits < |bm.words| && i / WordBits < |bm.words| && i != idx
    ensures Bit(bm.(words := ClearWord(bm.words, idx / WordBits, Pos(idx))), i) == Bit(bm, i)
  {
    if i / WordBits == idx / WordBits {
      ClearWordKeepsNeighbour(bm, idx, i);
    } else {
      ClearWordKeepsOtherWords(bm, idx, i);
    }
  }

  lemma ClearWordKeepsNeighbour(bm: Bitmap, idx: nat, i: nat)
    requires idx / WordBits < |bm.words| && i / WordBits == idx / WordBits && i != idx
    ensures Bit(bm.(words := ClearWord(bm.words, idx / WordBits, Pos(idx))), i) == Bit(bm, i)
  {
    SameWordOtherBit(i, idx);
    ClearKeepsOtherBit(bm.words[idx / WordBits], Pos(idx), Pos(i));
  }

  lemma ClearWordKeepsOtherWords(bm: Bitmap, idx: nat, i: nat)
    requires idx / WordBits < |bm.words| && i / WordBits < |bm.words| && i / WordBits != idx / WordBits
    ensures Bit(bm.(words := ClearWord(bm.words, idx / WordBits, Pos(idx))), i) == Bit(bm, i)
  {
    assert ClearWord(bm.words, idx / WordBits, Pos(idx))[i / WordBits] == bm.words[i / WordBits];
  }

  /**
   * nt_bitmap_set: when the word holding `idx` is within size_, set that bit
   * alone and return 1; otherwise return 0 and leave the bitmap alone.
   */
  function Set(bm: Bitmap, idx: ushort): (r: Update)
    requires WellFormed(bm)
    ensures r.status == 1 <==> idx / WordBits < bm.size
    ensures r.status == 0 || r.status == 1
    ensures r.status == 0 ==> r.bitmap == bm
    ensures WellFormed(r.bitmap) && r.bitmap.size == bm.size && |r.bitmap.words| == |bm.words|
    ensures r.status == 1 ==> Bit(r.bitmap, idx)
    ensures r.status == 1 ==> forall i :: 0 <= i < |bm.words| * WordBits && i != idx ==> Bit(r.bitmap, i) == Bit(bm, i)
  {
    var word := idx / WordBits;
    if word < bm.size then
      var b := bm.(words := SetWord(bm.words, idx / WordBits, Pos(idx)));
      SetWordHits(bm, idx);
      assert forall i :: 0 <= i < |bm.words| * WordBits && i != idx ==> Bit(b, i) == Bit(bm, i) by {
        forall i | 0 <= i < |bm.words| * WordBits && i != idx {
          SetWordKeeps(bm, idx, i);
        }
      }
      Update(1, b)
    else
      Update(0, bm)
  }

  /**
   * nt_bitmap_clear: when the word holding `idx` is within size_, clear that
   * bit alone and return 1; otherwise return 0 and leave the bitmap alone.
   */
  function Clear(bm: Bitmap, idx: ushort): (r: Update)
    requires WellFormed(bm)
    ensures r.status == 1 <==> idx / WordBits < bm.size
    ensures r.status == 0 || r.status == 1
    ensures r.status == 0 ==> r.bitmap == bm
    ensures WellFormed(r.bitmap) && r.bitmap.size == bm.size && |r.bitmap.words| == |bm.words|
    ensures r.status == 1 ==> !Bit(r.bitmap, idx)
    ensures r.status == 1 ==> forall i :: 0 <= i < |bm.words| * WordBits && i != idx ==> Bit(r.bitmap, i) == Bit(bm, i)
  {
    var word := idx / WordBits;
    if word < bm.size then
      var b := bm.(words := ClearWord(bm.words, idx / WordBits, Pos(idx)));
      ClearWordHits(bm, idx);
      assert forall i :: 0 <= i < |bm.words| * WordBits && i != idx ==> Bit(b, i) == Bit(bm, i) by {
        forall i | 0 <= i < |bm.words| * WordBits && i != idx {
          ClearWordKeeps(bm, idx, i);
        }
      }
      Update(1, b)
    else
      Update(0, bm)
  }

  /** The bits of an `int`, the argument type of __builtin_ffs. */
  const IntBits: nat := 32

  /**
   * One more than the lowest clear bit of `w` among positions from..limit-1,
   * or 0 when all of those are set: __builtin_ffs of the complement,
   * restricted to the positions the complement still holds after it is
   * narrowed to the builtin's argument type.
   */
  function FirstClear(w: bv64, from: nat, limit: nat): (r: nat)
    requires from <= limit <= WordBits
    ensures r == 0 <==> forall k :: from <= k < limit ==> WordBit(w, Pos(k))
    ensures r != 0 ==> from < r <= limit && !WordBit(w, Pos(r - 1))
    ensures r != 0 ==> forall k :: from <= k < r - 1 ==> WordBit(w, Pos(k))
    decreases limit - from
  {
    if from == limit then 0
    else if !WordBit(w, Pos(from)) then from + 1
    else FirstClear(w, from + 1, limit)
  }

  /** Index `i` lies in word `word` at position `k`. */
  lemma Locate(i: nat, word: nat, k: nat)
    requires i == word * WordBits + k && k < WordBits
    ensures i / WordBits == word && i % WordBits == k && Pos(i) == Pos(k)
  {
  }

  /**
   * `r` is what a search of the bitmap from word `idx` on, in positions
   * 0..limit-1 of each word, should answer: (unsigned long)-1 exactly when
   * every searched bit is set, and otherwise the lowest clear searched bit.
   */
  predicate LowestClearFrom(bm: Bitmap, idx: nat, limit: nat, r: nat)
    requires WellFormed(bm)
  {
    && (r == NotFound <==> forall i :: idx * WordBits <= i < bm.size * WordBits && i % WordBits < limit ==> Bit(bm, i))
    && (r != NotFound ==> idx * WordBits <= r < bm.size * WordBits && r % WordBits < limit && !Bit(bm, r))
    && (r != NotFound ==> forall i :: idx * WordBits <= i < r && i % WordBits < limit ==> Bit(bm, i))
  }

  /**
   * The loop of nt_bitmap_ffc from word `idx` on, where each word is
   * searched in positions 0..limit-1 only.
   */
  function FfcFrom(bm: Bitmap, idx: nat, limit: nat): (r: nat)
    requires WellFormed(bm) && idx <= bm.size && limit <= WordBits
    ensures LowestClearFrom(bm, idx, limit, r)
    decreases bm.size - idx
  {
    if idx == bm.size then NotFound
    else
      var fc := FirstClear(bm.words[idx], 0, limit);
      if fc != 0 then
        FoundInWord(bm, idx, limit);
        fc + idx * WordBits - 1
      else
        var r := FfcFrom(bm, idx + 1, limit);
        PassOverWord(bm, idx, limit, r);
        r
  }

  /** A clear bit found in word `idx` is the answer from that word on. */
  lemma FoundInWord(bm: Bitmap, idx: nat, limit: nat)
    requires WellFormed(bm) && idx < bm.size && limit <= WordBits
    requires FirstClear(bm.words[idx], 0, limit) != 0
    ensures LowestClearFrom(bm, idx, limit, FirstClear(bm.words[idx], 0, limit) + idx * WordBits - 1)
  {
    WordScan(bm, idx, limit);
    assert (idx + 1) * WordBits <= bm.size * WordBits;
  }

  /** A word with no clear searched bit passes the answer for the next word on. */
  lemma PassOverWord(bm: Bitmap, idx: nat, limit: nat, r: nat)
    requires WellFormed(bm) && idx < bm.size && limit <= WordBits
    requires FirstClear(bm.words[idx], 0, limit) == 0
    requires LowestClearFrom(bm, idx + 1, limit, r)
    ensures LowestClearFrom(bm, idx, limit, r)
  {
    WordScan(bm, idx, limit);
    assert (idx + 1) * WordBits == idx * WordBits + WordBits;
  }

  /** What FirstClear on word `idx` says about the bitmap's bits in that word. */
  lemma WordScan(bm: Bitmap, idx: nat, limit: nat)
    requires idx < |bm.words| && limit <= WordBits
    ensures var fc := FirstClear(bm.words[idx], 0, limit);
      && (fc == 0 ==> forall i :: idx * WordBits <= i < (idx + 1) * WordBits && i % WordBits < limit ==> Bit(bm, i))
      && (fc != 0 ==> !Bit(bm, idx * WordBits + fc - 1) && (idx * WordBits + fc - 1) % WordBits < limit)
      && (fc != 0 ==> forall i :: idx * WordBits <= i < idx * WordBits + fc - 1 ==> Bit(bm, i))
  {
    var fc := FirstClear(bm.words[idx], 0, limit);
    if fc == 0 {
      WordAllSet(bm, idx, limit);
    } else {
      WordFirstClear(bm, idx, limit, fc);
    }
  }

  /** A word FirstClear finds full has every searched bit of the bitmap set. */
  lemma WordAllSet(bm: Bitmap, idx: nat, limit: nat)
    requires idx < |bm.words| && limit <= WordBits
    requires FirstClear(bm.words[idx], 0, limit) == 0
    ensures forall i :: idx * WordBits <= i < (idx + 1) * WordBits && i % WordBits < limit ==> Bit(bm, i)
  {
    forall i | idx * WordBits <= i < (idx + 1) * WordBits && i % WordBits < limit
      ensures Bit(bm, i)
    {
      Locate(i, idx, i - idx * WordBits);
    }
  }

  /** The position FirstClear finds in word `idx` is the bitmap's first clear bit there. */
  lemma WordFirstClear(bm: Bitmap, idx: nat, limit: nat, fc: nat)
    requires idx < |bm.words| && limit <= WordBits
    requires fc == FirstClear(bm.words[idx], 0, limit) && fc != 0
    ensures !Bit(bm, idx * WordBits + fc - 1) && (idx * WordBits + fc - 1) % WordBits < limit
    ensures forall i :: idx * WordBits <= i < idx * WordBits + fc - 1 ==> Bit(bm, i)
  {
    Locate(idx * WordBits + fc - 1, idx, fc - 1);
    forall i | idx * WordBits <= i < idx * WordBits + fc - 1
      ensures Bit(bm, i)
    {
      Locate(i, idx, i - idx * WordBits);
    }
  }

  /**
   * nt_bitmap_ffc as written: FFC passes the complement of each word to
   * __builtin_ffs, whose argument is an `int`, so only the low 32 bits of
   * each word are searched. The answer is (unsigned long)-1 exactly when
   * all of those are set, and otherwise the lowest clear bit among them.
   */
  function Ffc(bm: Bitmap): (r: nat)
    requires WellFormed(bm)
    ensures r == NotFound <==> forall i :: 0 <= i < bm.size * WordBits && i % WordBits < IntBits ==> Bit(bm, i)
    ensures r != NotFound ==> r < bm.size * WordBits && r % WordBits < IntBits && !Bit(bm, r)
    ensures r != NotFound ==> forall i :: 0 <= i < r && i % WordBits < IntBits ==> Bit(bm, i)
  {
    FfcFrom(bm, 0, IntBits)
  }

  /**
   * nt_bitmap_ffc searching every bit of every word: (unsigned long)-1
   * exactly when every bit of the used words is set, and otherwise the
   * lowest clear bit.
   */
  function FfcIntended(bm: Bitmap): (r: nat)
    requires WellFormed(bm)
    ensures r == NotFound <==> forall i :: 0 <= i < bm.size * WordBits ==> Bit(bm, i)
    ensures r != NotFound ==> r < bm.size * WordBits && !Bit(bm, r)
    ensures r != NotFound ==> forall i :: 0 <= i < r ==> Bit(bm, i)
  {
    FfcFrom(bm, 0, WordBits)
  }

  /** The low 32 bits of 0x0000_0000_FFFF_FFFF are set. */
  lemma LowHalfOfMask(p: bv6)
    requires p < 32
    ensures WordBit(0x0000_0000_FFFF_FFFF, p)
  {
  }

  /** A position below 64 is its own bit position. */
  lemma PosOfSmall(k: nat)
    requires k < WordBits
    ensures Pos(k) as int == k
  {
    PosValue(k);
  }

  /**
   * One word whose low half is full and whose high half is empty: the
   * as-written search reports (unsigned long)-1 although bit 32 is clear,
   * and the intended search finds bit 32.
   */
  lemma FfcMissesHighHalf()
    ensures var bm := Bitmap(1, [0x0000_0000_FFFF_FFFF]);
      && !Bit(bm, 32)
      && Ffc(bm) == NotFound
      && FfcIntended(bm) == 32
  {
    var bm := Bitmap(1, [0x0000_0000_FFFF_FFFF]);
    forall i | 0 <= i < 32
      ensures Bit(bm, i)
    {
      PosOfSmall(i);
      LowHalfOfMask(Pos(i));
    }
    PosOfSmall(32);
    assert !Bit(bm, 32);
    assert forall i :: 0 <= i < bm.size * WordBits && i % WordBits < IntBits ==> Bit(bm, i);
    var r := FfcIntended(bm);
    assert r != NotFound;
    assert r <= 32;
  }

  /** nt_bitmap_size: the stored size_ field. */
  function Size(bm: Bitmap): (r: ushort)
    requires WellFormed(bm)
    ensures r <= |bm.words|
  {
    bm.size
  }

  /**
   * Set accepts an index exactly when it is below 64 times Size: the
   * stored size counts words, not the bits the header documents.
   */
  lemma SizeCountsWords(bm: Bitmap, idx: ushort)
    requires WellFormed(bm)
    ensures Set(bm, idx).status == 1 <==> idx < Size(bm) * WordBits
    ensures Clear(bm, idx).status == 1 <==> idx < Size(bm) * WordBits
  {
  }

  /**
   * A 128-bit bitmap reports size 2, yet set accepts index 100, beyond
   * "bitmap size minus 1".
   */
  lemma SizeIsNotBitCount()
    ensures var c := Create(128, true);
      && c.Created?
      && Size(c.bitmap) == 2
      && Set(c.bitmap, 100).status == 1
  {
  }

  /**
   * The number of bits set and clear can manipulate, which the header
   * promises nt_bitmap_size returns.
   */
  function BitCapacity(bm: Bitmap): (r: nat)
    requires WellFormed(bm)
    ensures forall idx: ushort :: Set(bm, idx).status == 1 <==> idx < r
    ensures forall idx: ushort :: Clear(bm, idx).status == 1 <==> idx < r
  {
    bm.size * WordBits
  }

  /**
   * A request for 4194304 bits needs 65536 words; the count wraps to 0 in
   * the 16-bit size field, so not even bit 0 can be set.
   */
  lemma CreateTruncatesWordCount()
    ensures var c := Create(4194304, true);
      && c.Created?
      && |c.bitmap.words| == 65536
      && Size(c.bitmap) == 0
      && Set(c.bitmap, 0).status == 0
  {
  }

  /** Below the wrap-around, every requested bit can be set. */
  lemma CreateCoversRequest(n: uint, idx: ushort)
    requires 0 < n <= 0xFFFF * WordBits && idx < n
    ensures Create(n, true).Created?
    ensures Set(Create(n, true).bitmap, idx).status == 1
  {
  }

  /**
   * nt_bitmap_create storing the word count saturated at the largest
   * 16-bit value; 16-bit indices never reach beyond word 1023, so every
   * requested index that fits in an index can be set.
   */
  function CreateSaturating(n: uint, granted: bool): (r: Created)
    ensures n == 0 ==> r == Failed(EINVAL)
    ensures n > 0 && !granted ==> r == Failed(ENOMEM)
    ensures n > 0 && granted ==> r.Created?
    ensures r.Created? ==> WellFormed(r.bitmap) && |r.bitmap.words| == WordCount(n)
    ensures r.Created? ==> forall i :: 0 <= i < |r.bitmap.words| * WordBits ==> !Bit(r.bitmap, i)
    ensures r.Created? ==> forall idx: ushort :: idx < n ==> Set(r.bitmap, idx).status == 1
  {
    if n == 0 then Failed(EINVAL)
    else if !granted then Failed(ENOMEM)
    else
      var count := WordCount(n);
      Created(Bitmap(if count < 0xFFFF then count else 0xFFFF, seq(count, _ => 0)))
  }

  /** A fresh bitmap with at least one word reports bit 0 as the first clear bit. */
  lemma FreshFfcIsZero(n: uint)
    requires 0 < n && WordCount(n) % 0x1_0000 != 0
    ensures Create(n, true).Created?
    ensures Ffc(Create(n, true).bitmap) == 0
    ensures FfcIntended(Create(n, true).bitmap) == 0
  {
    var bm := Create(n, true).bitmap;
    assert !Bit(bm, 0);
    PosOfSmall(0);
  }

  lemma OrTwice(w: bv64, p: bv6)
    ensures (w | Mask(p)) | Mask(p) == w | Mask(p)
  {
  }

  lemma AndNotTwice(w: bv64, p: bv6)
    ensures (w | Mask(p)) & !Mask(p) == w & !Mask(p)
  {
  }

  lemma AndNotClearBit(w: bv64, p: bv6)
    requires !WordBit(w, p)
    ensures w & !Mask(p) == w
  {
  }

  lemma OrSetBit(w: bv64, p: bv6)
    requires WordBit(w, p)
    ensures w | Mask(p) == w
  {
  }

  /** Setting a bit twice is setting it once. */
  lemma SetIdempotent(bm: Bitmap, idx: ushort)
    requires WellFormed(bm)
    ensures Set(Set(bm, idx).bitmap, idx) == Set(bm, idx)
  {
    if idx / WordBits < bm.size {
      OrTwice(bm.words[idx / WordBits], Pos(idx));
    }
  }

  /** Clearing a bit twice is clearing it once. */
  lemma ClearIdempotent(bm: Bitmap, idx: ushort)
    requires WellFormed(bm)
    ensures Clear(Clear(bm, idx).bitmap, idx) == Clear(bm, idx)
  {
    if idx / WordBits < bm.size {
      ClearTwiceWord(bm.words, idx / WordBits, Pos(idx));
    }
  }

  lemma ClearTwiceWord(ws: seq<bv64>, j: nat, p: bv6)
    requires j < |ws|
    ensures ClearWord(ClearWord(ws, j, p), j, p) == ClearWord(ws, j, p)
  {
    AndNotAgain(ws[j], p);
  }

  lemma AndNotAgain(w: bv64, p: bv6)
    ensures (w & !Mask(p)) & !Mask(p) == w & !Mask(p)
  {
  }

  /** Setting a bit that is already set changes nothing. */
  lemma SetOfSetBit(bm: Bitmap, idx: ushort)
    requires WellFormed(bm) && idx / WordBits < bm.size && Bit(bm, idx)
    ensures Set(bm, idx).bitmap == bm
  {
    OrSetBit(bm.words[idx / WordBits], Pos(idx));
  }

  /** Clearing after setting is clearing. */
  lemma ClearAfterSet(bm: Bitmap, idx: ushort)
    requires WellFormed(bm)
    ensures Clear(Set(bm, idx).bitmap, idx) == Clear(bm, idx)
  {
    if idx / WordBits < bm.size {
      SetThenClearWord(bm.words, idx / WordBits, Pos(idx));
    }
  }

  lemma SetThenClearWord(ws: seq<bv64>, j: nat, p: bv6)
    requires j < |ws|
    ensures ClearWord(SetWord(ws, j, p), j, p) == ClearWord(ws, j, p)
  {
    AndNotTwice(ws[j], p);
  }

  /** Setting a clear bit and clearing it again restores the bitmap. */
  lemma ClearUndoesSet(bm: Bitmap, idx: ushort)
    requires WellFormed(bm) && idx / WordBits < bm.size && !Bit(bm, idx)
    ensures Clear(Set(bm, idx).bitmap, idx).bitmap == bm
  {
    ClearAfterSet(bm, idx);
    AndNotClearBit(bm.words[idx / WordBits], Pos(idx));
    assert Clear(bm, idx).bitmap.words == bm.words;
  }
}
