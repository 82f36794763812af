/** Guest memory as the accessors see it through `MEM->Read` and `MEM->Write`: one 32-bit word
    per guest address, every address readable. */
module GuestMemory {
  import opened Words

  /** Every 32-bit address has a word. */
  predicate Total(m: map<Word, Word>) {
    forall a: Word :: a in m
  }

  /** A word store defined at every 32-bit address. */
  type Memory = m: map<Word, Word> | Total(m)
    ghost witness map a: Word | 0 <= a < WORD_MOD :: 0 as Word

  /** `MEM->Read(a, w)`: the word stored at `a`. */
  function Load(m: Memory, a: Word): Word {
    m[a]
  }

  /** `MEM->Write(a, w)`: the store with `w` at `a`. */
  function Store(m: Memory, a: Word, w: Word): Memory {
    m[a := w]
  }

  /** A load after a store at the same address yields the stored word. */
  lemma LoadAfterStore(m: Memory, a: Word, w: Word)
    ensures Load(Store(m, a, w), a) == w
  {
  }

  /** A store leaves every other address as it was. */
  lemma StoreFrame(m: Memory, a: Word, b: Word, w: Word)
    requires a != b
    ensures Load(Store(m, a, w), b) == Load(m, b)
  {
  }

  /** Storing the word already present changes nothing. */
  lemma StoreSame(m: Memory, a: Word)
    ensures Store(m, a, Load(m, a)) == m
  {
  }

  /** A second store to one address overwrites the first. */
  lemma StoreStore(m: Memory, a: Word, w1: Word, w2: Word)
    ensures Store(Store(m, a, w1), a, w2) == Store(m, a, w2)
  {
  }

  /** Stores to distinct addresses can be done in either order. */
  lemma StoreCommute(m: Memory, a: Word, b: Word, v: Word, w: Word)
    requires a != b
    ensures Store(Store(m, a, v), b, w) == Store(Store(m, b, w), a, v)
  {
  }
}
