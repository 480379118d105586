/** The bitmap of fs/bitmap.c: bits packed into bytes, with the bits past nbits kept set. */
module Bitmaps {
  import opened Common

  const BITS_PER_WORD := 8
  const WORD_ALLBITS: byte := 0xff

  function Mask(offset: nat): byte
    requires offset < BITS_PER_WORD
  {
    (1 as byte) << offset
  }

  predicate HasBit(w: byte, offset: nat)
    requires offset < BITS_PER_WORD
  {
    w & Mask(offset) != 0
  }

  lemma HasBitValue(w: byte, offset: nat)
    requires offset < BITS_PER_WORD
    ensures HasBit(w, offset) <==> w & Mask(offset) != 0
  {
  }

  lemma DisjointMasks(w: byte, a: byte, b: byte)
    requires a != 0 && (a == b || a & b == 0)
    ensures (w | b) & a != 0 <==> w & a != 0 || a == b
    ensures (w & !b) & a != 0 <==> w & a != 0 && a != b
  {
  }

  lemma MasksDiffer(j: nat, k: nat)
    requires j < BITS_PER_WORD && k < BITS_PER_WORD
    ensures Mask(j) != 0 && (j == k <==> Mask(j) == Mask(k)) && (j != k ==> Mask(j) & Mask(k) == 0)
  {
    assert k == 0 || k == 1 || k == 2 || k == 3 || k == 4 || k == 5 || k == 6 || k == 7;
    assert j == 0 || j == 1 || j == 2 || j == 3 || j == 4 || j == 5 || j == 6 || j == 7;
  }

  /** A word equals WORD_ALLBITS exactly when no offset in it is clear. */
  lemma AllBits(w: byte)
    ensures w == WORD_ALLBITS <==> forall j: nat | j < BITS_PER_WORD :: HasBit(w, j)
  {
    if forall j: nat | j < BITS_PER_WORD :: HasBit(w, j) {
      assert HasBit(w, 0) && HasBit(w, 1) && HasBit(w, 2) && HasBit(w, 3);
      assert HasBit(w, 4) && HasBit(w, 5) && HasBit(w, 6) && HasBit(w, 7);
    }
    if w == WORD_ALLBITS {
      forall j: nat | j < BITS_PER_WORD ensures HasBit(w, j) {
        assert j == 0 || j == 1 || j == 2 || j == 3 || j == 4 || j == 5 || j == 6 || j == 7;
      }
    }
  }

  lemma ZeroBits(k: nat)
    requires k < BITS_PER_WORD
    ensures !HasBit(0, k)
  {
    assert k == 0 || k == 1 || k == 2 || k == 3 || k == 4 || k == 5 || k == 6 || k == 7;
  }

  /** Bit i of a packed byte sequence. */
  predicate Bit(v: seq<byte>, i: nat)
    requires i < BITS_PER_WORD * |v|
  {
    HasBit(v[i / BITS_PER_WORD], i % BITS_PER_WORD)
  }

  /** The set of indices below n whose bit is set: the abstract value of a bitmap. */
  function SetBits(v: seq<byte>, n: nat): set<nat>
    requires n <= BITS_PER_WORD * |v|
  {
    set i: nat | i < n && Bit(v, i)
  }

  lemma SameBit(i: nat, k: nat)
    ensures i == k <==> i / BITS_PER_WORD == k / BITS_PER_WORD && i % BITS_PER_WORD == k % BITS_PER_WORD
  {
  }

  function StoredWord(w: byte, offset: nat, value: bool): byte
    requires offset < BITS_PER_WORD
  {
    if value then w | Mask(offset) else w & !Mask(offset)
  }

  /** Or-ing one mask into a word sets that bit and no other; and-ing its complement clears
      that bit and no other. */
  lemma OneBit(w: byte, k: nat, value: bool, j: nat)
    requires k < BITS_PER_WORD && j < BITS_PER_WORD
    ensures HasBit(StoredWord(w, k, value), j) <==> if j == k then value else HasBit(w, j)
  {
    hide Mask, HasBit;
    MasksDiffer(j, k);
    DisjointMasks(w, Mask(j), Mask(k));
    HasBitValue(w, j);
    HasBitValue(StoredWord(w, k, value), j);
  }

  /** The words after v[ix] |= mask, or after v[ix] &= ~mask. */
  function Stored(v: seq<byte>, i: nat, value: bool): (w: seq<byte>)
    requires i < BITS_PER_WORD * |v|
    ensures |w| == |v|
  {
    v[i / BITS_PER_WORD := StoredWord(v[i / BITS_PER_WORD], i % BITS_PER_WORD, value)]
  }

  lemma StoredBit(v: seq<byte>, i: nat, value: bool, k: nat)
    requires i < BITS_PER_WORD * |v| && k < BITS_PER_WORD * |v|
    ensures Bit(Stored(v, i, value), k) <==> if k == i then value else Bit(v, k)
  {
    hide HasBit, StoredWord;
    SameBit(i, k);
    if k / BITS_PER_WORD == i / BITS_PER_WORD {
      OneBit(v[i / BITS_PER_WORD], i % BITS_PER_WORD, value, k % BITS_PER_WORD);
    }
  }

  /** A store adds or removes exactly one index of the abstract set. */
  lemma StoredBits(v: seq<byte>, n: nat, i: nat, value: bool)
    requires n <= BITS_PER_WORD * |v| && i < BITS_PER_WORD * |v|
    ensures forall k: nat | k < BITS_PER_WORD * |v| ::
              Bit(Stored(v, i, value), k) <==> if k == i then value else Bit(v, k)
    ensures i < n ==> SetBits(Stored(v, i, value), n) == if value then SetBits(v, n) + {i} else SetBits(v, n) - {i}
    ensures i >= n ==> SetBits(Stored(v, i, value), n) == SetBits(v, n)
  {
    hide Bit, Stored;
    forall k: nat | k < BITS_PER_WORD * |v|
      ensures Bit(Stored(v, i, value), k) <==> if k == i then value else Bit(v, k)
    {
      StoredBit(v, i, value, k);
    }
  }

  /** A bitmap holds at most n indices, and that many only when it is full. */
  lemma {:induction false} SetBitsBound(v: seq<byte>, n: nat)
    requires n <= BITS_PER_WORD * |v|
    ensures |SetBits(v, n)| <= n
    ensures |SetBits(v, n)| == n <==> forall i: nat | i < n :: Bit(v, i)
  {
    hide Bit;
    if n > 0 {
      SetBitsBound(v, n - 1);
      assert SetBits(v, n) == if Bit(v, n - 1) then SetBits(v, n - 1) + {n - 1} else SetBits(v, n - 1);
    }
  }

  lemma NextBit(v: seq<byte>, i: nat)
    requires i < BITS_PER_WORD * |v|
    ensures |SetBits(v, i + 1)| == |SetBits(v, i)| + if Bit(v, i) then 1 else 0
  {
    hide Bit;
    assert SetBits(v, i + 1) == if Bit(v, i) then SetBits(v, i) + {i} else SetBits(v, i);
  }

  class Bitmap {
    const nbits: nat
    const v: array<byte>

    /** The words cover nbits, and every leftover bit at the end is marked in use. */
    ghost predicate Valid()
      reads v
    {
      && v.Length == DivRoundUp(nbits, BITS_PER_WORD)
      && (forall i: nat | nbits <= i < BITS_PER_WORD * v.Length :: Bit(v[..], i))
    }

    ghost function Bits(): set<nat>
      requires Valid()
      reads v
    {
      SetBits(v[..], nbits)
    }

    /** bitmap_create */
    constructor (nbits: nat)
      ensures this.nbits == nbits && fresh(v)
      ensures Valid() && Bits() == {}
    {
      var words := DivRoundUp(nbits, BITS_PER_WORD);
      var w := new byte[words](_ => 0);
      this.nbits := nbits;
      this.v := w;
      new;
      forall i: nat | i < BITS_PER_WORD * v.Length ensures !Bit(v[..], i) {
        ZeroBits(i % BITS_PER_WORD);
      }
      if nbits / BITS_PER_WORD < words {
        var ix := words - 1;
        var overbits := nbits - ix * BITS_PER_WORD;
        assert nbits / BITS_PER_WORD == words - 1;
        assert 0 < overbits < BITS_PER_WORD;
        for j := overbits to BITS_PER_WORD
          invariant forall i: nat | i < BITS_PER_WORD * words :: Bit(v[..], i) <==> nbits <= i < ix * BITS_PER_WORD + j
        {
          var at := ix * BITS_PER_WORD + j;
          StoredBits(v[..], nbits, at, true);
          ghost var was := v[..];
          v[ix] := v[ix] | Mask(j);
          assert at / BITS_PER_WORD == ix && at % BITS_PER_WORD == j;
          assert v[..] == Stored(was, at, true);
        }
      }
    }

    /** bitmap_alloc, lines 77-86: the first clear offset of word ix. */
    method FirstClear(ix: nat) returns (offset: nat)
      requires ix < v.Length && v[ix] != WORD_ALLBITS
      ensures offset < BITS_PER_WORD && !HasBit(v[ix], offset)
      ensures forall j: nat | j < offset :: HasBit(v[ix], j)
    {
      hide HasBit, Mask;
      AllBits(v[ix]);
      offset := 0;
      while offset < BITS_PER_WORD
        invariant 0 <= offset <= BITS_PER_WORD
        invariant forall j: nat | j < offset :: HasBit(v[ix], j)
      {
        HasBitValue(v[ix], offset);
        var mask := Mask(offset);
        if v[ix] & mask == 0 {
          return;
        }
        offset := offset + 1;
      }
      assert false;
    }

    /** bitmap_alloc: the least clear index, which it sets; it fails exactly when every index is set. */
    method Alloc() returns (ret: int, index: nat)
      requires Valid()
      modifies v
      ensures Valid()
      ensures ret == 0 || ret == -ENOSPC
      ensures ret == 0 ==> index < nbits && index !in old(Bits()) && Bits() == old(Bits()) + {index}
      ensures ret == 0 ==> v[..] == Stored(old(v[..]), index, true)
      ensures ret == 0 ==> forall i: nat | i < index :: i in old(Bits())
      ensures ret == -ENOSPC ==> |old(Bits())| == nbits && v[..] == old(v[..])
    {
      hide HasBit, Mask;
      var maxix := DivRoundUp(nbits, BITS_PER_WORD);
      for ix := 0 to maxix
        invariant Full(v[..], ix)
        invariant v[..] == old(v[..])
      {
        AllBits(v[ix]);
        if v[ix] != WORD_ALLBITS {
          var offset := FirstClear(ix);
          index := ix * BITS_PER_WORD + offset;
          LeastClear(v[..], nbits, ix, offset);
          StoredBits(v[..], nbits, index, true);
          v[ix] := v[ix] | Mask(offset);
          assert v[..] == Stored(old(v[..]), index, true);
          return 0, index;
        }
        FullNext(v[..], ix);
      }
      SetBitsBound(v[..], nbits);
      return -ENOSPC, 0;
    }

    /** bitmap_mark: its two asserts, index < nbits and the bit clear, are the requires. */
    method Mark(index: nat)
      requires Valid() && index < nbits && index !in Bits()
      modifies v
      ensures Valid() && Bits() == old(Bits()) + {index} && v[..] == Stored(old(v[..]), index, true)
    {
      hide HasBit, Mask;
      var ix, mask := index / BITS_PER_WORD, Mask(index % BITS_PER_WORD);
      StoredBits(v[..], nbits, index, true);
      v[ix] := v[ix] | mask;
      assert v[..] == Stored(old(v[..]), index, true);
    }

    /** bitmap_unmark: its two asserts, index < nbits and the bit set, are the requires. */
    method Unmark(index: nat)
      requires Valid() && index in Bits()
      modifies v
      ensures Valid() && Bits() == old(Bits()) - {index} && v[..] == Stored(old(v[..]), index, false)
    {
      hide HasBit, Mask;
      var ix, mask := index / BITS_PER_WORD, Mask(index % BITS_PER_WORD);
      StoredBits(v[..], nbits, index, false);
      v[ix] := v[ix] & !mask;
      assert v[..] == Stored(old(v[..]), index, false);
    }

    /** bitmap_isset */
    method IsSet(index: nat) returns (r: bool)
      requires Valid() && index < nbits
      ensures r <==> index in Bits()
    {
      r := v[index / BITS_PER_WORD] & Mask(index % BITS_PER_WORD) != 0;
    }

    /** bitmap_nr_allocated */
    method NrAllocated() returns (nr: nat)
      requires Valid()
      ensures nr == |Bits()|
    {
      nr := 0;
      for i := 0 to nbits
        invariant nr == |SetBits(v[..], i)|
      {
        var r := IsSet(i);
        NextBit(v[..], i);
        if r {
          nr := nr + 1;
        }
      }
    }
  }

  predicate Full(v: seq<byte>, words: nat)
    requires words <= |v|
  {
    forall i: nat | i < BITS_PER_WORD * words :: Bit(v, i)
  }

  lemma FullNext(v: seq<byte>, ix: nat)
    requires ix < |v| && Full(v, ix)
    requires forall j: nat | j < BITS_PER_WORD :: HasBit(v[ix], j)
    ensures Full(v, ix + 1)
  {
    hide HasBit;
    forall i: nat | i < BITS_PER_WORD * (ix + 1) ensures Bit(v, i) {
      if i >= BITS_PER_WORD * ix {
        assert HasBit(v[ix], i % BITS_PER_WORD);
      }
    }
  }

  /** The first clear offset of the first word that is not full is the least clear index, and
      the padding keeps it below n. */
  lemma LeastClear(v: seq<byte>, n: nat, ix: nat, offset: nat)
    requires ix < |v| && offset < BITS_PER_WORD && n <= BITS_PER_WORD * |v|
    requires forall i: nat | n <= i < BITS_PER_WORD * |v| :: Bit(v, i)
    requires Full(v, ix)
    requires forall j: nat | j < offset :: HasBit(v[ix], j)
    requires !HasBit(v[ix], offset)
    ensures var index := ix * BITS_PER_WORD + offset;
      && index < n && index !in SetBits(v, n)
      && (forall i: nat | i < index :: i in SetBits(v, n))
  {
    hide HasBit;
    var index := ix * BITS_PER_WORD + offset;
    assert index / BITS_PER_WORD == ix && index % BITS_PER_WORD == offset;
    assert !Bit(v, index);
    forall i: nat | i < index ensures Bit(v, i) {
      if i >= BITS_PER_WORD * ix {
        assert i / BITS_PER_WORD == ix;
        assert HasBit(v[ix], i % BITS_PER_WORD);
      }
    }
  }
}
