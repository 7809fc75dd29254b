/**
 The bit set in which pb_decode_noinit records the required fields it has seen: two 32-bit
 words, bit `k % 32` of word `k / 32` for the k-th required field.
 */
module RequiredBits {
  import opened Descriptor

  const ALL_BITS: bv32 := 0xFFFF_FFFF

  predicate BitAt(w: bv32, k: bv6)
    requires k < 32
  {
    (w >> k) & 1 == 1
  }

  predicate Bit(w: bv32, k: nat)
    requires k < 32
  {
    BitAt(w, k as bv6)
  }

  predicate Marked(words: seq<bv32>, k: nat)
    requires |words| == 2 && k < PB_MAX_REQUIRED_FIELDS
  {
    Bit(words[k / 32], k % 32)
  }

  lemma AsWord(k: nat)
    requires k < 64
    ensures (k as bv6) as int == k
  {}

  lemma IndexAsWord(k: nat, j: nat)
    requires k < 32 && j < 32
    ensures k as bv6 == j as bv6 <==> k == j
    ensures k as bv6 < 32
  {
    AsWord(k);
    AsWord(j);
  }

  lemma SetBitAt(w: bv32, k: bv6, j: bv6)
    requires k < 32 && j < 32
    ensures BitAt(w | (1 << k), j) == (j == k || BitAt(w, j))
  {}

  lemma SetBit(w: bv32, k: nat, j: nat)
    requires k < 32 && j < 32
    ensures Bit(w | (1 << k), j) == (j == k || Bit(w, j))
  {
    IndexAsWord(k, j);
    SetBitAt(w, k as bv6, j as bv6);
  }

  lemma XorBit(w: bv32, v: bv32, k: bv6)
    requires k < 32
    ensures BitAt(w ^ v, k) == (BitAt(w, k) != BitAt(v, k))
  {}

  lemma ClearBit(x: bv32, n: bv6)
    requires n < 32 && x << (32 - n) == 0 && !BitAt(x, n)
    ensures x << (31 - n) == 0
  {}

  lemma {:induction false} LowBitsAgree(w: bv32, v: bv32, n: bv6)
    requires n <= 32
    requires forall k: bv6 :: k < 32 ==> BitAt(w, k) == BitAt(v, k)
    ensures (w ^ v) << (32 - n) == 0
  {
    if n > 0 {
      LowBitsAgree(w, v, n - 1);
      XorBit(w, v, n - 1);
      ClearBit(w ^ v, n - 1);
    }
  }

  lemma SameWord(w: bv32, v: bv32)
    requires forall j: nat :: j < 32 ==> Bit(w, j) == Bit(v, j)
    ensures w == v
  {
    forall k: bv6 | k < 32
      ensures BitAt(w, k) == BitAt(v, k)
    {
      var j := k as nat;
      assert j as bv6 == k;
      assert Bit(w, j) == Bit(v, j);
    }
    LowBitsAgree(w, v, 32);
  }

  /** `k` low ones, as the C expression `allbits >> (32 - k)`. */
  function LowOnes(k: nat): bv32
    requires 0 < k <= 32
  {
    ALL_BITS >> (32 - k)
  }

  lemma LowOnesAt(k: bv6, j: bv6)
    requires 0 < k <= 32 && j < 32
    ensures BitAt(ALL_BITS >> (32 - k), j) <==> j < k
  {}

  lemma ShiftAsWord(k: nat, j: nat)
    requires k <= 32 && j < 32
    ensures (32 - k) as bv6 == 32 - k as bv6
    ensures j as bv6 < k as bv6 <==> j < k
    ensures k as bv6 <= 32
  {
    AsWord(k);
    AsWord(j);
    AsWord(32 - k);
  }

  lemma LowOnesBits(k: nat, j: nat)
    requires 0 < k <= 32 && j < 32
    ensures Bit(LowOnes(k), j) <==> j < k
  {
    ShiftAsWord(k, j);
    LowOnesAt(k as bv6, j as bv6);
  }

  /** The comparison with a mask of low ones tests exactly the bits below `k`. */
  lemma MaskTest(w: bv32, k: nat)
    requires 0 < k <= 32
    requires forall j :: k <= j < 32 ==> !Bit(w, j)
    ensures w == LowOnes(k) <==> forall j :: 0 <= j < k ==> Bit(w, j)
  {
    forall j: nat | j < 32
      ensures Bit(LowOnes(k), j) <==> j < k
    {
      LowOnesBits(k, j);
    }
    if forall j :: 0 <= j < k ==> Bit(w, j) {
      SameWord(w, LowOnes(k));
    }
  }

  /** Setting the bit of a required field that has been found. */
  method Mark(words: array<bv32>, index: nat)
    requires words.Length == 2 && index < PB_MAX_REQUIRED_FIELDS
    modifies words
    ensures forall k: nat :: k < PB_MAX_REQUIRED_FIELDS ==>
                               Marked(words[..], k) == (k == index || old(Marked(words[..], k)))
  {
    ghost var before := words[..];
    var bit: bv32 := 1 << (index % 32);
    words[index / 32] := words[index / 32] | bit;
    forall k: nat | k < PB_MAX_REQUIRED_FIELDS
      ensures Marked(words[..], k) == (k == index || Marked(before, k))
    {
      SetBit(before[index / 32], index % 32, k % 32);
    }
  }

  /**
   The final test: all whole words, then the remaining bits. It is exact for the counts that
   a well-formed descriptor can have.
   */
  method AllMarked(words: array<bv32>, count: nat) returns (ok: bool)
    requires words.Length == 2 && count < PB_MAX_REQUIRED_FIELDS && count != 32
    requires forall k :: count <= k < PB_MAX_REQUIRED_FIELDS ==> !Marked(words[..], k)
    ensures ok <==> forall k :: 0 <= k < count ==> Marked(words[..], k)
  {
    if count == 0 {
      return true;
    }
    var i := 0;
    while i < count / 32
      invariant 0 <= i <= count / 32
      invariant forall k :: 0 <= k < 32 * i ==> Marked(words[..], k)
    {
      WholeWord(words[..], i);
      if words[i] != ALL_BITS {
        return false;
      }
      i := i + 1;
    }
    LastWord(words[..], count / 32, count % 32);
    return words[count / 32] == ALL_BITS >> (32 - count % 32);
  }

  /** The bits of one word, by their index in the whole set. */
  lemma WordRange(words: seq<bv32>, i: nat, n: nat)
    requires |words| == 2 && i < 2 && n <= 32
    ensures (forall j :: 0 <= j < n ==> Bit(words[i], j)) <==>
            forall k :: 32 * i <= k < 32 * i + n ==> Marked(words, k)
  {
    if forall j :: 0 <= j < n ==> Bit(words[i], j) {
      forall k | 32 * i <= k < 32 * i + n
        ensures Marked(words, k)
      {
        assert Bit(words[i], k - 32 * i);
      }
    } else {
      var j :| 0 <= j < n && !Bit(words[i], j);
      assert !Marked(words, 32 * i + j);
    }
  }

  lemma WholeWord(words: seq<bv32>, i: nat)
    requires |words| == 2 && i < 2
    ensures words[i] == ALL_BITS <==> forall k :: 32 * i <= k < 32 * i + 32 ==> Marked(words, k)
  {
    MaskTest(words[i], 32);
    assert LowOnes(32) == ALL_BITS;
    WordRange(words, i, 32);
  }

  lemma LastWord(words: seq<bv32>, i: nat, n: nat)
    requires |words| == 2 && i < 2 && 0 < n < 32
    requires forall k :: 32 * i + n <= k < PB_MAX_REQUIRED_FIELDS ==> !Marked(words, k)
    ensures words[i] == LowOnes(n) <==> forall k :: 32 * i <= k < 32 * i + n ==> Marked(words, k)
  {
    forall j | n <= j < 32
      ensures !Bit(words[i], j)
    {
      assert !Marked(words, 32 * i + j);
    }
    MaskTest(words[i], n);
    WordRange(words, i, n);
  }
}
