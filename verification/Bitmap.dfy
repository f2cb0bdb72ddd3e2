/**
 The bitmap of required fields that pb_decode_noinit keeps: two 32-bit words in which bit
 i & 31 of word i >> 5 says that required field i was met.
 */
module Bitmap {
  import opened Bits

  /** The word whose n bits say which of the indices base, base + 1, ... are in the set. */
  function Word(seen: set<nat>, base: nat, n: nat): (w: nat)
    ensures w < Pow2(n)
    decreases n
  {
    if n == 0 then 0
    else (if base in seen then 1 else 0) + 2 * Word(seen, base + 1, n - 1)
  }

  /** `word |= 1 << b` adds one index to the set. */
  lemma {:induction false} SetBit(seen: set<nat>, base: nat, n: nat, b: nat)
    requires b < n
    ensures Or(Word(seen, base, n), Pow2(b)) == Word(seen + {base + b}, base, n)
    decreases n
  {
    hide Word, Or, Pow2;
    var rest := Word(seen, base + 1, n - 1);
    FirstBit(seen, base, n);
    FirstBit(seen + {base + b}, base, n);
    var bit := if base in seen then 1 else 0;
    if b == 0 {
      WordOutside(seen, base, base + 1, n - 1);
      OrOne(bit, rest);
    } else {
      SetBit(seen, base + 1, n - 1, b - 1);
      assert base + 1 + (b - 1) == base + b;
      NextPower(b - 1);
      OrEven(bit, rest, Pow2(b - 1));
    }
  }

  lemma FirstBit(seen: set<nat>, base: nat, n: nat)
    requires n > 0
    ensures Word(seen, base, n) == (if base in seen then 1 else 0) + 2 * Word(seen, base + 1, n - 1)
  {
  }

  lemma NextPower(b: nat)
    ensures Pow2(b + 1) == 2 * Pow2(b)
  {
  }

  lemma OrOne(bit: nat, a: nat)
    requires bit <= 1
    ensures Or(bit + 2 * a, Pow2(0)) == 1 + 2 * a
  {
    assert Pow2(0) == 1;
    assert (bit + 2 * a) / 2 == a && (bit + 2 * a) % 2 == bit;
    OrZero(a);
    OrCommutes(a, 0);
  }

  lemma OrEven(bit: nat, a: nat, b: nat)
    requires bit <= 1
    ensures Or(bit + 2 * a, 2 * b) == bit + 2 * Or(a, b)
  {
    assert (bit + 2 * a) / 2 == a && (bit + 2 * a) % 2 == bit;
    assert (2 * b) / 2 == b && (2 * b) % 2 == 0;
  }

  /** An index below the word's range does not show in it. */
  lemma {:induction false} WordOutside(seen: set<nat>, i: nat, base: nat, n: nat)
    requires i < base || i >= base + n
    ensures Word(seen + {i}, base, n) == Word(seen, base, n)
    decreases n
  {
    if n > 0 {
      WordOutside(seen, i, base + 1, n - 1);
    }
  }

  /** The word has its k low bits set exactly when the first k of its indices were met,
      provided none of its others was. */
  lemma {:induction false} LowBits(seen: set<nat>, base: nat, n: nat, k: nat)
    requires k <= n && forall i :: i in seen ==> i < base + k || i >= base + n
    ensures Word(seen, base, n) == Pow2(k) - 1 <==> forall i :: base <= i < base + k ==> i in seen
    decreases n
  {
    if n > 0 {
      LowBits(seen, base + 1, n - 1, if k == 0 then 0 else k - 1);
      if k > 0 {
        var w := Word(seen, base + 1, n - 1);
        assert Pow2(k) == 2 * Pow2(k - 1);
        if base in seen {
          assert (forall i :: base <= i < base + k ==> i in seen)
              == (forall i :: base + 1 <= i < base + k ==> i in seen);
        } else {
          assert 2 * w != 2 * Pow2(k - 1) - 1;
        }
      }
    }
  }

  /** `allbits >> (32 - k)` is a mask of k low bits. */
  lemma MaskWord(k: nat)
    requires 1 <= k <= 32
    ensures (U32 - 1) / Pow2(32 - k) == Pow2(k) - 1
  {
    Pow2Values();
    Pow2Add(k, 32 - k);
    MaskDivide(Pow2(k), Pow2(32 - k));
  }

  lemma MaskDivide(p: nat, q: nat)
    requires p >= 1 && q >= 1
    ensures (p * q - 1) / q == p - 1
  {
    assert p * q - 1 == (p - 1) * q + (q - 1);
    DivideUnique(p * q - 1, q, p - 1, q - 1);
  }

  /** `(uint32_t) 1 << b` */
  lemma BitWord(b: nat)
    requires b < 32
    ensures ShiftLeft(1, b, U32) == Pow2(b)
  {
    Pow2Values();
    Pow2Increasing(b, 31);
    assert Pow2(32) == 2 * Pow2(31);
  }

  /** The first word is full exactly when the first 32 required fields were met. */
  lemma FullWord(seen: set<nat>)
    ensures Word(seen, 0, 32) == U32 - 1 <==> forall i :: 0 <= i < 32 ==> i in seen
  {
    hide Word, Pow2;
    Pow2Values();
    LowBits(seen, 0, 32, 32);
  }

  /** The last word against its mask. */
  lemma LastWord(seen: set<nat>, base: nat, k: nat)
    requires 1 <= k < 32 && forall i :: i in seen ==> i < base + k
    ensures Word(seen, base, 32) == (U32 - 1) / Pow2(32 - k) <==> forall i :: base <= i < base + k ==> i in seen
  {
    hide Word, Pow2;
    MaskWord(k);
    LowBits(seen, base, 32, k);
  }

  /** fields_seen, as an object that is updated in place. */
  class FieldsSeen {
    var words: array<nat>
    ghost var seen: set<nat>

    ghost predicate Valid()
      reads this, words
    {
      && words.Length == 2
      && words[0] == Word(seen, 0, 32)
      && words[1] == Word(seen, 32, 32)
    }

    constructor ()
      ensures Valid() && fresh(words) && seen == {}
    {
      hide Word;
      words := new nat[2](_ => 0);
      seen := {};
      new;
      EmptyWord(0, 32);
      EmptyWord(32, 32);
    }

    /** fields_seen[i >> 5] |= 1 << (i & 31) */
    method Mark(i: nat)
      requires Valid() && i < 64
      modifies this, words
      ensures Valid() && words == old(words) && seen == old(seen) + {i}
    {
      hide Word, Or, ShiftLeft, Pow2;
      var bit := i % 32;
      BitWord(bit);
      words[i / 32] := Or(words[i / 32], ShiftLeft(1, bit, U32));
      if i < 32 {
        SetBit(seen, 0, 32, bit);
        WordOutside(seen, i, 32, 32);
      } else {
        SetBit(seen, 32, 32, bit);
        WordOutside(seen, i, 0, 32);
      }
      seen := seen + {i};
    }

    /** The final check: whole words, then the remaining bits. */
    method AllOf(count: nat) returns (ok: bool)
      requires Valid()
      requires count == 0 || (count < 64 && count % 32 != 0)
      requires forall i :: i in seen ==> i < count
      ensures ok == forall i :: 0 <= i < count ==> i in seen
    {
      hide Word, Pow2;
      if count == 0 {
        return true;
      }
      var full := count / 32;
      FullWord(seen);
      var i := 0;
      while i < full
        invariant 0 <= i <= full <= 1
        invariant i > 0 ==> forall j :: 0 <= j < 32 ==> j in seen
      {
        if words[i] != U32 - 1 {
          return false;
        }
        i := i + 1;
      }
      LastWord(seen, 32 * full, count % 32);
      ok := words[full] == (U32 - 1) / Pow2(32 - count % 32);
    }
  }

  lemma {:induction false} EmptyWord(base: nat, n: nat)
    ensures Word({}, base, n) == 0
    decreases n
  {
    if n > 0 {
      EmptyWord(base + 1, n - 1);
    }
  }
}
