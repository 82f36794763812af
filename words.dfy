/** 32-bit guest words (`KUInt32`) and the wrap-around arithmetic the accessors use. */
module Words {

  /** 2^32: every guest word and every guest address is reduced modulo this. */
  const WORD_MOD: int := 0x1_0000_0000

  /** A guest word, and equally a guest address (`TMemory::VAddr`). */
  type Word = x: int | 0 <= x < WORD_MOD

  /** The unsigned 32-bit reduction C++ applies when an integer is stored in a `KUInt32`:
      the one word congruent to `x` modulo 2^32. */
  function Wrap(x: int): (w: Word)
    ensures (x - w) % WORD_MOD == 0
    ensures 0 <= x < WORD_MOD ==> w == x
  {
    x % WORD_MOD
  }

  /** Moving an address down by `k` and back up by `k` returns it, wrap-around included. */
  lemma SubThenAdd(a: Word, k: int)
    ensures Wrap(Wrap(a - k) + k) == a
  {
  }

  /** Moving an address up by `k` and back down by `k` returns it, wrap-around included. */
  lemma AddThenSub(a: Word, k: int)
    ensures Wrap(Wrap(a + k) - k) == a
  {
  }

  /** Adding the same displacement to two addresses keeps them apart exactly when they were apart. */
  lemma ShiftInjective(a: Word, b: Word, k: int)
    ensures Wrap(a + k) == Wrap(b + k) <==> a == b
  {
  }

  /** A word address on a 4-byte boundary. */
  predicate Aligned(a: Word) {
    a % 4 == 0
  }

  /** Two distinct aligned word addresses cover disjoint byte ranges `[a, a+4)` and `[b, b+4)`,
      so treating guest memory as a map of whole words loses nothing for aligned accesses. */
  lemma AlignedWordsDisjoint(a: Word, b: Word)
    requires Aligned(a) && Aligned(b) && a != b
    ensures a + 4 <= b || b + 4 <= a
  {
  }

  /** Displacing an aligned address by a multiple of four, modulo 2^32, keeps it aligned:
      pushes and pops keep an aligned stack pointer aligned. */
  lemma ShiftKeepsAlignment(a: Word, k: int)
    requires Aligned(a) && k % 4 == 0
    ensures Aligned(Wrap(a + k))
  {
  }
}
