/** The two reinterpretation policies of the typed accessors: a host integer converted to and
    from one guest word (`_W`), and a host pointer squeezed through one guest word (`_P`). */
module Conversions {
  import opened Words

  /** 2^n. */
  function Pow2(n: nat): (r: int)
    ensures r >= 1
  {
    if n == 0 then 1 else 2 * Pow2(n - 1)
  }

  /** 2^(a+b) = 2^a * 2^b. */
  lemma {:induction false} Pow2Add(a: nat, b: nat)
    ensures Pow2(a + b) == Pow2(a) * Pow2(b)
  {
    if a > 0 {
      Pow2Add(a - 1, b);
      assert Pow2(a + b) == 2 * Pow2(a - 1 + b);
    }
  }

  /** A quotient and remainder that satisfy the division equation are the quotient and the
      remainder. */
  lemma DivModUnique(x: int, n: int, q: int, r: int)
    requires n > 0 && 0 <= r < n && x == q * n + r
    ensures x / n == q && x % n == r
  {
    var q', r' := x / n, x % n;
    assert (q - q') * n == r' - r;
    if q - q' >= 1 {
      MulAtLeast(q - q', n);
    } else if q' - q >= 1 {
      MulAtLeast(q' - q, n);
    }
  }

  /** A factor of at least one does not shrink a positive number. */
  lemma {:induction false} MulAtLeast(k: int, n: int)
    requires k >= 1 && n > 0
    ensures k * n >= n
  {
    if k > 1 {
      MulAtLeast(k - 1, n);
      assert k * n == (k - 1) * n + n;
    }
  }

  /** A host integer or enumeration type: its width in bits (at least one) and its signedness. */
  datatype IntType = IntType(bits: nat, signed: bool)

  /** An integer type has at least one bit. */
  predicate WellFormed(t: IntType) {
    t.bits >= 1
  }

  /** The values of type `t`: `[-2^(bits-1), 2^(bits-1))` if signed, `[0, 2^bits)` if not. */
  predicate InRange(t: IntType, v: int)
    requires WellFormed(t)
  {
    if t.signed then -Pow2(t.bits - 1) <= v < Pow2(t.bits - 1) else 0 <= v < Pow2(t.bits)
  }

  /** `(KUInt32)v`: a host integer turned into the word the setter writes. */
  function EncodeWord(v: int): Word {
    Wrap(v)
  }

  /** `(type)w`: the word the getter read, turned into a value of `t` — the one value of `t`
      congruent to `w` modulo 2^bits (the modular rule C++ uses for every integer conversion). */
  function DecodeWord(t: IntType, w: Word): (v: int)
    requires WellFormed(t)
    ensures InRange(t, v)
    ensures (v - w) % Pow2(t.bits) == 0
  {
    var n := Pow2(t.bits);
    var u := w % n;
    if t.signed && u >= Pow2(t.bits - 1) then
      DivModUnique(u - n - w, n, -(w / n) - 1, 0);
      u - n
    else
      DivModUnique(u - w, n, -(w / n), 0);
      u
  }

  /** Two values of one type that agree modulo 2^bits are equal: the conversion's result is unique. */
  lemma CongruentValuesEqual(t: IntType, a: int, b: int)
    requires WellFormed(t) && InRange(t, a) && InRange(t, b)
    requires (a - b) % Pow2(t.bits) == 0
    ensures a == b
  {
    var n := Pow2(t.bits);
    assert -n < a - b < n;
    DivModUnique(a - b, n, (a - b) / n, 0);
    var q := (a - b) / n;
    if q >= 1 {
      MulAtLeast(q, n);
    } else if q <= -1 {
      MulAtLeast(-q, n);
    }
  }

  /** Word-policy round trip: a value of `t` written by a setter is read back unchanged exactly
      when it survives the 32-bit word between them — always for types of 32 bits or fewer,
      and for wider types only for values in `[0, 2^32)`. */
  lemma WordPolicyRoundTrip(t: IntType, v: int)
    requires WellFormed(t) && InRange(t, v)
    ensures DecodeWord(t, EncodeWord(v)) == v <==> (t.bits <= 32 || 0 <= v < WORD_MOD)
  {
    if t.bits <= 32 {
      NarrowRoundTrip(t, v);
    } else {
      WideRoundTrip(t, v);
    }
  }

  /** For types of at most 32 bits the word loses nothing. */
  lemma NarrowRoundTrip(t: IntType, v: int)
    requires WellFormed(t) && InRange(t, v) && t.bits <= 32
    ensures DecodeWord(t, EncodeWord(v)) == v
  {
    var w := EncodeWord(v);
    var r := DecodeWord(t, w);
    var n := Pow2(t.bits);
    Pow2Word();
    Pow2Add(t.bits, 32 - t.bits);
    DivisorOfMultiple(v - w, n, Pow2(32 - t.bits));
    DifferenceOfMultiples(r - w, v - w, n);
    assert (r - w) - (v - w) == r - v;
    CongruentValuesEqual(t, r, v);
  }

  /** For wider types the word is read back zero-extended, so only `[0, 2^32)` survives. */
  lemma WideRoundTrip(t: IntType, v: int)
    requires WellFormed(t) && InRange(t, v) && t.bits > 32
    ensures DecodeWord(t, EncodeWord(v)) == v <==> 0 <= v < WORD_MOD
  {
    var w := EncodeWord(v);
    Pow2Word();
    Pow2Add(32, t.bits - 33);
    MulAtLeast(Pow2(t.bits - 33), Pow2(32));
    assert Pow2(t.bits) == 2 * Pow2(t.bits - 1);
    DivModUnique(w, Pow2(t.bits), 0, w);
    assert DecodeWord(t, w) == w;
  }

  /** 2^32 is the word modulus. */
  lemma Pow2Word()
    ensures Pow2(32) == WORD_MOD
  {
    assert Pow2(1) == 2;
    Pow2Add(1, 1);
    Pow2Add(2, 2);
    Pow2Add(4, 4);
    Pow2Add(8, 8);
    Pow2Add(16, 16);
  }

  /** A multiple of `n * k` is a multiple of `n`. */
  lemma DivisorOfMultiple(x: int, n: int, k: int)
    requires n > 0 && k > 0 && x % (n * k) == 0
    ensures x % n == 0
  {
    var q := x / (n * k);
    assert x == q * (n * k);
    assert x == (q * k) * n;
    DivModUnique(x, n, q * k, 0);
  }

  /** The difference of two multiples of `n` is a multiple of `n`. */
  lemma DifferenceOfMultiples(x: int, y: int, n: int)
    requires n > 0 && x % n == 0 && y % n == 0
    ensures (x - y) % n == 0
  {
    assert x == (x / n) * n && y == (y / n) * n;
    assert x - y == (x / n - y / n) * n;
    DivModUnique(x - y, n, x / n - y / n, 0);
  }

  /** Host pointers: 64 bits wide. */
  const HOST_PTR_MOD: int := 0x1_0000_0000_0000_0000

  type HostPtr = p: int | 0 <= p < HOST_PTR_MOD

  /** The null host pointer. */
  const NULL: HostPtr := 0

  /** `(KUInt32)(uintptr_t)p`: a host pointer truncated to one guest word. */
  function EncodePointer(p: HostPtr): Word {
    Wrap(p)
  }

  /** `(type)(uintptr_t)w`: a guest word zero-extended to a host pointer. */
  function DecodePointer(w: Word): HostPtr {
    w
  }

  /** Pointer-policy round trip: what comes back is the pointer modulo 2^32, which is the
      pointer itself exactly when it lies below 2^32; null survives. */
  lemma PointerPolicyRoundTrip(p: HostPtr)
    ensures DecodePointer(EncodePointer(p)) == p % WORD_MOD
    ensures DecodePointer(EncodePointer(p)) == p <==> p < WORD_MOD
    ensures DecodePointer(EncodePointer(NULL)) == NULL
  {
  }
}
