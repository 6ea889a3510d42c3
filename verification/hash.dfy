/** Addressing: `DefaultHasher::hash` and `DefaultHasher::compress` for every key width
    the crate implements `Hash` for.

    Unsigned widths are bit-vectors; a signed key is its two's-complement bit pattern,
    so Rust's arithmetic `>>` on `i16`/`i32` and the sign-extending `as usize` cast are
    written out explicitly. `usize` is taken to be 64 bits wide. Note that Rust's `>>`
    binds tighter than `^` while Dafny's binds looser, hence `v ^ (v >> 7)` below. */
module Hash {
  import opened Common

  /** A key of one of the eight primitive types that implement the `Hash` marker. */
  datatype Key =
    | U8(u8: bv8)
    | I8(i8: bv8)
    | U16(u16: bv16)
    | I16(i16: bv16)
    | U32(u32: bv32)
    | I32(i32: bv32)
    | U64(u64: bv64)
    | Usize(usize: bv64)

  /** 2^64: one more than the largest `usize`. */
  const USIZE_LIMIT: int := 0x1_0000_0000_0000_0000

  /** Rust's `>>` by 7 on an `i16`: the vacated high bits are copies of the sign bit. */
  function Sar16(v: bv16): bv16
  {
    if v < 0x8000 then v >> 7 else (v >> 7) | 0xFE00
  }

  /** Rust's `>>` by 7 on an `i32`. */
  function Sar32(v: bv32): bv32
  {
    if v < 0x8000_0000 then v >> 7 else (v >> 7) | 0xFE00_0000
  }

  /** `v ^ v >> 7` on the unsigned widths. */
  function Scramble16(v: bv16): bv16
  {
    v ^ (v >> 7)
  }

  function Scramble32(v: bv32): bv32
  {
    v ^ (v >> 7)
  }

  function Scramble64(v: bv64): bv64
  {
    v ^ (v >> 7)
  }

  /** The number of values of a key's type: 2 to the power of its bit width. */
  function Width(k: Key): nat
  {
    match k
    case U8(_) => 0x100
    case I8(_) => 0x100
    case U16(_) => 0x1_0000
    case I16(_) => 0x1_0000
    case U32(_) => 0x1_0000_0000
    case I32(_) => 0x1_0000_0000
    case U64(_) => USIZE_LIMIT
    case Usize(_) => USIZE_LIMIT
  }

  /** Whether a key's type is one of the signed ones. */
  predicate Signed(k: Key)
  {
    k.I8? || k.I16? || k.I32?
  }

  /** Which of the eight key types a key has. */
  function Kind(k: Key): nat
  {
    match k
    case U8(_) => 0
    case I8(_) => 1
    case U16(_) => 2
    case I16(_) => 3
    case U32(_) => 4
    case I32(_) => 5
    case U64(_) => 6
    case Usize(_) => 7
  }

  /** A key's bit pattern read as an unsigned number. */
  function Bits(k: Key): nat
  {
    match k
    case U8(v) => v as nat
    case I8(v) => v as nat
    case U16(v) => v as nat
    case I16(v) => v as nat
    case U32(v) => v as nat
    case I32(v) => v as nat
    case U64(v) => v as nat
    case Usize(v) => v as nat
  }

  /** A key that stands for a negative number: a signed key with its sign bit set. */
  predicate Negative(k: Key)
  {
    Signed(k) && Bits(k) >= Width(k) / 2
  }

  /** `DefaultHasher::hash`: the identity on the 8-bit widths, `v ^ v >> 7` on the
      wider ones (with an arithmetic shift on the signed ones). The hash has the key's
      own type, and an 8-bit key is its own hash. */
  function DefaultHash(k: Key): (h: Key)
    ensures Kind(h) == Kind(k) && Width(h) == Width(k) && Signed(h) == Signed(k)
    ensures Width(k) == 0x100 ==> h == k
  {
    match k
    case U8(v) => U8(v)
    case I8(v) => I8(v)
    case U16(v) => U16(Scramble16(v))
    case I16(v) => I16(v ^ Sar16(v))
    case U32(v) => U32(Scramble32(v))
    case I32(v) => I32(v ^ Sar32(v))
    case U64(v) => U64(Scramble64(v))
    case Usize(v) => Usize(Scramble64(v))
  }

  /** `hash as usize`: zero extension of the unsigned widths; sign extension of the
      signed ones, so a negative value `v - 2^w` becomes `v - 2^w + 2^64`. Either way
      the low bits are the hash's own, and the top bit is set exactly for a negative
      hash of a narrower type. */
  function AsUsize(h: Key): (u: nat)
    ensures u < USIZE_LIMIT
    ensures u % Width(h) == Bits(h)
    ensures !Negative(h) ==> u == Bits(h)
    ensures Width(h) < USIZE_LIMIT ==> (u >= USIZE_LIMIT / 2 <==> Negative(h))
  {
    if Negative(h) then
      SignExtended(Bits(h), Width(h));
      Bits(h) + USIZE_LIMIT - Width(h)
    else
      BitsBelowWidth(h);
      Bits(h)
  }

  /** A key's bit pattern lies below its type's width, and so is its own remainder. */
  lemma BitsBelowWidth(h: Key)
    ensures Bits(h) < Width(h) <= USIZE_LIMIT
    ensures Bits(h) % Width(h) == Bits(h)
  {
    OwnRemainder(Bits(h), Width(h));
  }

  lemma OwnRemainder(x: nat, w: nat)
    requires x < w
    ensures x % w == x
  {
  }

  /** Sign extension of a negative `w`-bit pattern `v` to 64 bits keeps its low bits
      and sets the top one. */
  lemma SignExtended(v: nat, w: nat)
    requires w == 0x100 || w == 0x1_0000 || w == 0x1_0000_0000
    requires w / 2 <= v < w
    ensures (v + USIZE_LIMIT - w) % w == v
    ensures USIZE_LIMIT / 2 <= v + USIZE_LIMIT - w < USIZE_LIMIT
  {
    if w == 0x100 {
      assert (v + USIZE_LIMIT - 0x100) % 0x100 == v;
    } else if w == 0x1_0000 {
      assert (v + USIZE_LIMIT - 0x1_0000) % 0x1_0000 == v;
    } else {
      assert (v + USIZE_LIMIT - 0x1_0000_0000) % 0x1_0000_0000 == v;
    }
  }

  /** `DefaultHasher::compress`: `(hash as usize) % upper_bound`. An empty table is the
      remainder-by-zero panic; otherwise the index lies in the table. */
  function Compress(h: Key, upperBound: nat): (r: Result<nat>)
    ensures r.Err? <==> upperBound == 0
    ensures r.Err? ==> r.panic == RemainderByZero
    ensures r.Ok? ==> r.value < upperBound
  {
    Remainder(AsUsize(h), upperBound)
  }

  /** Rust's `%` on `usize`: a divisor of 0 is the remainder-by-zero panic; otherwise
      the remainder lies below the divisor, and a dividend already below the divisor is
      its own remainder. */
  function Remainder(u: nat, n: nat): (r: Result<nat>)
    ensures r.Err? <==> n == 0
    ensures r.Err? ==> r.panic == RemainderByZero
    ensures r.Ok? ==> r.value < n
    ensures r.Ok? && u < n ==> r.value == u
  {
    if n == 0 then Err(RemainderByZero) else Ok(u % n)
  }

  /** The address of a key in a table of `n` buckets: `compress(hash(key), n)`. It
      lies in the table, and computing it for an empty table panics. */
  function Address(k: Key, n: nat): (r: Result<nat>)
    ensures r.Err? <==> n == 0
    ensures r.Err? ==> r.panic == RemainderByZero
    ensures r.Ok? ==> r.value < n
  {
    Compress(DefaultHash(k), n)
  }

  /** A non-negative hash that already lies in the table is its own index. */
  lemma CompressOwnIndex(h: Key, n: nat)
    requires !Negative(h) && Bits(h) < n
    ensures Compress(h, n) == Ok(Bits(h))
  {
  }

  /** An 8-bit key that is not negative and fits in the table is its own address. */
  lemma ByteKeyOwnAddress(k: Key, n: nat)
    requires Width(k) == 0x100 && !Negative(k) && Bits(k) < n
    ensures Address(k, n) == Ok(Bits(k))
  {
    CompressOwnIndex(DefaultHash(k), n);
  }

  // ---------------------------------------------------------------------------
  // Properties
  // ---------------------------------------------------------------------------

  /** Every address lies in `[0, n)` when the table is not empty, and computing an
      address for an empty table is the remainder-by-zero panic. */
  lemma AddressInRange(k: Key, n: nat)
    ensures n == 0 <==> Address(k, n) == Err(RemainderByZero)
    ensures n > 0 ==> Address(k, n).Ok? && Address(k, n).value < n
  {
  }

  /** The 8-bit hashes are the identity, so with 256 buckets every `u8` key is its own
      address and no two `u8` keys collide. */
  lemma U8OwnAddress(k: bv8)
    ensures DefaultHash(U8(k)) == U8(k) && DefaultHash(I8(k)) == I8(k)
    ensures Address(U8(k), 256) == Ok(k as nat)
  {
  }

  /** The arithmetic shift makes the signed 16- and 32-bit hashes two-to-one: the sign
      bit of `v ^ v >> 7` is always clear, and 0 and -1 both hash to 0. */
  lemma SignedHashCollides(v: bv16)
    ensures DefaultHash(I16(0)) == DefaultHash(I16(0xFFFF)) == I16(0)
    ensures DefaultHash(I32(0)) == DefaultHash(I32(0xFFFF_FFFF)) == I32(0)
    ensures DefaultHash(I16(v)).i16 < 0x8000
  {
  }

  /** On a non-negative `i32` the arithmetic shift is the logical one, and a key below
      1024 hashes below 1024 (`v >> 7` is then below 8 and only flips the low bits). */
  lemma SmallI32Hash(v: bv32)
    requires v < 1024
    ensures DefaultHash(I32(v)) == I32(v ^ (v >> 7))
    ensures v ^ (v >> 7) < 1024
  {
  }

  lemma SmallScrambleInjective(a: bv32, b: bv32)
    requires a < 1024 && b < 1024 && a != b
    ensures a ^ (a >> 7) != b ^ (b >> 7)
  {
  }

  lemma NatOfBv32(v: bv32)
    ensures (v as nat) as bv32 == v
  {
  }

  lemma EqualNatsOfBv32(v: bv32, w: bv32)
    requires v as nat == w as nat
    ensures v == w
  {
    NatOfBv32(v);
    NatOfBv32(w);
  }

  lemma SmallI32AsUsize(h: bv32)
    requires h < 1024
    ensures AsUsize(I32(h)) == h as nat < 1024
  {
  }

  /** A non-negative `i32` key below 1024 has its own scramble as its address in a
      1024-bucket table. */
  lemma SmallI32Address(a: bv32)
    requires a < 1024
    ensures Address(I32(a), 1024) == Ok((a ^ (a >> 7)) as nat)
  {
    SmallI32Hash(a);
    SmallI32AsUsize(a ^ (a >> 7));
  }

  /** The `i32` keys 0..1023 get pairwise distinct addresses in a 1024-bucket table, so
      their addresses are a permutation of `[0, 1024)`. */
  lemma SmallI32KeysOwnAddresses(a: bv32, b: bv32)
    requires a < 1024 && b < 1024 && a != b
    ensures Address(I32(a), 1024) != Address(I32(b), 1024)
  {
    var ha, hb := a ^ (a >> 7), b ^ (b >> 7);
    SmallI32Address(a);
    SmallI32Address(b);
    SmallScrambleInjective(a, b);
    if ha as nat == hb as nat {
      EqualNatsOfBv32(ha, hb);
    }
  }

  /** The scramble is invertible on the three unsigned widths it is applied to, hence
      injective: shift-xors by 7, 14, 28, ... undo it, because applying `w ^ (w >> k)`
      to `v ^ (v >> k)` gives `v ^ (v >> 2k)`. */
  lemma ScrambleInvertible16(v: bv16)
    ensures var h := v ^ (v >> 7); var w := h ^ (h >> 7); w ^ (w >> 14) == v
  {
  }

  lemma ScrambleInvertible32(v: bv32)
    ensures var h := v ^ (v >> 7); var w := h ^ (h >> 7); var x := w ^ (w >> 14);
            x ^ (x >> 28) == v
  {
  }

  lemma ScrambleInvertible64(v: bv64)
    ensures var h := v ^ (v >> 7); var w := h ^ (h >> 7); var x := w ^ (w >> 14);
            var y := x ^ (x >> 28); y ^ (y >> 56) == v
  {
  }

  /** `DefaultHasher::hash` never maps two keys to one hash when the first key is
      unsigned or 8 bits wide: the scramble's inverse recovers the key. (The signed
      16- and 32-bit hashes are not injective; see `SignedHashCollides`.) */
  lemma HashInjective(a: Key, b: Key)
    requires !Signed(a) || Width(a) == 0x100
    ensures DefaultHash(a) == DefaultHash(b) ==> a == b
  {
    if DefaultHash(a) == DefaultHash(b) && Width(a) != 0x100 {
      SameHashSameKind(a, b);
      if a.U16? {
        SameHash16(a, b);
      } else if a.U32? {
        SameHash32(a, b);
      } else {
        SameHash64(a, b);
      }
    }
  }

  lemma SameHashSameKind(a: Key, b: Key)
    requires DefaultHash(a) == DefaultHash(b)
    ensures Kind(a) == Kind(b)
  {
  }

  lemma SameHash16(a: Key, b: Key)
    requires a.U16? && Kind(b) == 2 && DefaultHash(a) == DefaultHash(b)
    ensures a == b
  {
    Injective16(a.u16, b.u16);
  }

  lemma SameHash32(a: Key, b: Key)
    requires a.U32? && Kind(b) == 4 && DefaultHash(a) == DefaultHash(b)
    ensures a == b
  {
    Injective32(a.u32, b.u32);
  }

  lemma SameHash64(a: Key, b: Key)
    requires (a.U64? && Kind(b) == 6) || (a.Usize? && Kind(b) == 7)
    requires DefaultHash(a) == DefaultHash(b)
    ensures a == b
  {
    if a.U64? {
      Injective64(a.u64, b.u64);
    } else {
      Injective64(a.usize, b.usize);
    }
  }

  lemma Injective16(a: bv16, b: bv16)
    requires Scramble16(a) == Scramble16(b)
    ensures a == b
  {
    Recovered16(a);
    Recovered16(b);
  }

  /** The inverse of the 16-bit scramble, as in `ScrambleInvertible16`. */
  function Descramble16(h: bv16): (v: bv16)
  {
    var w := h ^ (h >> 7); w ^ (w >> 14)
  }

  lemma Recovered16(v: bv16)
    ensures Descramble16(Scramble16(v)) == v
  {
    ScrambleUnfolds16(v);
    DescrambleInverts16(v);
  }

  lemma ScrambleUnfolds16(v: bv16)
    ensures Scramble16(v) == v ^ (v >> 7)
  {
  }

  lemma DescrambleInverts16(v: bv16)
    ensures Descramble16(v ^ (v >> 7)) == v
  {
    DescrambleUnfolds16(v ^ (v >> 7));
    ScrambleInvertible16(v);
  }

  lemma DescrambleUnfolds16(h: bv16)
    ensures Descramble16(h) == (var w := h ^ (h >> 7); w ^ (w >> 14))
  {
  }

  lemma Injective32(a: bv32, b: bv32)
    requires Scramble32(a) == Scramble32(b)
    ensures a == b
  {
    Recovered32(a);
    Recovered32(b);
  }

  /** The inverse of the 32-bit scramble, as in `ScrambleInvertible32`. */
  function Descramble32(h: bv32): (v: bv32)
  {
    var w := h ^ (h >> 7); var x := w ^ (w >> 14); x ^ (x >> 28)
  }

  lemma Recovered32(v: bv32)
    ensures Descramble32(Scramble32(v)) == v
  {
    ScrambleUnfolds32(v);
    DescrambleInverts32(v);
  }

  lemma ScrambleUnfolds32(v: bv32)
    ensures Scramble32(v) == v ^ (v >> 7)
  {
  }

  lemma DescrambleInverts32(v: bv32)
    ensures Descramble32(v ^ (v >> 7)) == v
  {
    DescrambleUnfolds32(v ^ (v >> 7));
    ScrambleInvertible32(v);
  }

  lemma DescrambleUnfolds32(h: bv32)
    ensures Descramble32(h) == (var w := h ^ (h >> 7); var x := w ^ (w >> 14); x ^ (x >> 28))
  {
  }

  lemma Injective64(a: bv64, b: bv64)
    requires Scramble64(a) == Scramble64(b)
    ensures a == b
  {
    Recovered64(a);
    Recovered64(b);
  }

  /** The inverse of the 64-bit scramble, as in `ScrambleInvertible64`. */
  function Descramble64(h: bv64): (v: bv64)
  {
    var w := h ^ (h >> 7); var x := w ^ (w >> 14); var y := x ^ (x >> 28); y ^ (y >> 56)
  }

  lemma Recovered64(v: bv64)
    ensures Descramble64(Scramble64(v)) == v
  {
    ScrambleUnfolds64(v);
    DescrambleInverts64(v);
  }

  lemma ScrambleUnfolds64(v: bv64)
    ensures Scramble64(v) == v ^ (v >> 7)
  {
  }

  lemma DescrambleInverts64(v: bv64)
    ensures Descramble64(v ^ (v >> 7)) == v
  {
    DescrambleUnfolds64(v ^ (v >> 7));
    ScrambleInvertible64(v);
  }

  lemma DescrambleUnfolds64(h: bv64)
    ensures Descramble64(h) == (var w := h ^ (h >> 7); var x := w ^ (w >> 14);
                                var y := x ^ (x >> 28); y ^ (y >> 56))
  {
  }
}
