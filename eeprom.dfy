/** The EEPROM image of an FTDI chip and the engine that patches it: byte and
    word accessors, the three-way conditional setters and the checksum.

    The image is a fixed buffer of ELEN bytes. As a value it is a
    `seq<byte>`; the setters and the checksum work in place on an
    `array<byte>`, and each is specified by a function on the old contents. */
module Eeprom {

  /** Capacity of the image buffer in bytes. */
  const ELEN: nat := 0x800

  /** Number of little-endian 16-bit words in the image. */
  const WORDS: nat := ELEN / 2

  /** Word index of the stored checksum (bytes 0xFE and 0xFF). */
  const CHECKSUM_WORD: nat := 0x7F

  /** Value the checksum fold starts from. */
  const CHECKSUM_SEED: bv16 := 0xAAAA

  /** An unsigned 8-bit EEPROM byte. */
  newtype byte = x: int | 0 <= x < 0x100

  // ---------------------------------------------------------------------
  // Accessors

  /** Byte n of the image: byte 2k is the low half and byte 2k+1 the high
      half of word k. */
  function GetByte(img: seq<byte>, n: nat): (b: byte)
    requires n < |img|
    ensures n % 2 == 0 && n + 1 < |img| ==> b as int == GetWord(img, n / 2) % 0x100
    ensures n % 2 == 1 ==> b as int == GetWord(img, n / 2) / 0x100
  {
    img[n]
  }

  /** The little-endian 16-bit word at word index n, made of bytes 2n (low)
      and 2n+1 (high). */
  function GetWord(img: seq<byte>, n: nat): (w: int)
    requires 2 * n + 1 < |img|
    ensures 0 <= w < 0x10000
  {
    img[2 * n + 1] as int * 0x100 + img[2 * n] as int
  }

  /** A word splits back into its two bytes: the low byte at 2n and the high
      byte at 2n+1. */
  lemma WordBytes(img: seq<byte>, n: nat)
    requires 2 * n + 1 < |img|
    ensures GetWord(img, n) % 0x100 == img[2 * n] as int
    ensures GetWord(img, n) / 0x100 == img[2 * n + 1] as int
  {
  }

  /** Two images hold the same word at n exactly when they hold the same two
      bytes there. */
  lemma WordEqualIffBytesEqual(s: seq<byte>, t: seq<byte>, n: nat)
    requires 2 * n + 1 < |s| && 2 * n + 1 < |t|
    ensures GetWord(s, n) == GetWord(t, n) <==> s[2 * n] == t[2 * n] && s[2 * n + 1] == t[2 * n + 1]
  {
  }


  /** The bound the word accessors assert on their index: the byte bound,
      although they touch bytes 2n and 2n+1. */
  predicate AssertedWordIndex(n: nat) {
    n < ELEN
  }

  /** The asserted bound admits word indices whose bytes lie past the end of
      the buffer; the first is 0x400. */
  lemma AssertedWordIndexAdmitsOverrun()
    ensures AssertedWordIndex(WORDS) && 2 * WORDS + 1 >= ELEN
    ensures forall n: nat :: AssertedWordIndex(n) && n >= WORDS ==> 2 * n + 1 >= ELEN
  {
  }

  /** The bound the word accessors need: both bytes of word n lie in the
      buffer, which holds exactly for the WORDS word indices. */
  predicate WordIndex(n: nat) {
    2 * n + 1 < ELEN
  }

  /** The needed bound admits exactly the indices below WORDS, the indices
      the write-back loop uses, and every one of them passes the asserted
      bound too. */
  lemma WordIndexExact(n: nat)
    ensures WordIndex(n) <==> n < WORDS
    ensures WordIndex(n) ==> AssertedWordIndex(n) && 2 * n < ELEN
  {
  }

  // ---------------------------------------------------------------------
  // Conditional setters: a negative value means "not set", a value equal to
  // the current one writes nothing, any other value overwrites the field.

  /** The image after setting byte n to v under the three-way rule. */
  function PutByte(s: seq<byte>, n: nat, v: int): (r: seq<byte>)
    requires n < |s|
    requires v < 0x100
    ensures |r| == |s|
    ensures v < 0 ==> r == s
    ensures v == s[n] as int ==> r == s
    ensures 0 <= v ==> r[n] as int == v
    ensures r == s[n := r[n]]
  {
    if v < 0 || v == s[n] as int then s else s[n := v as byte]
  }

  /** The image after setting word n to v under the three-way rule: the high
      byte goes to 2n+1 and the low byte to 2n. */
  function PutWord(s: seq<byte>, n: nat, v: int): (r: seq<byte>)
    requires 2 * n + 1 < |s|
    requires v < 0x10000
    ensures |r| == |s|
    ensures v < 0 ==> r == s
    ensures v == GetWord(s, n) ==> r == s
    ensures 0 <= v ==> GetWord(r, n) == v
    ensures 0 <= v ==> r[2 * n] as int == v % 0x100 && r[2 * n + 1] as int == v / 0x100
    ensures r == s[2 * n := r[2 * n]][2 * n + 1 := r[2 * n + 1]]
  {
    if v < 0 || v == GetWord(s, n) then s
    else s[2 * n + 1 := (v / 0x100) as byte][2 * n := (v % 0x100) as byte]
  }

  /** The word setter changes no byte but 2n and 2n+1. */
  lemma PutWordKeepsOtherBytes(s: seq<byte>, n: nat, v: int)
    requires 2 * n + 1 < |s| && v < 0x10000
    ensures forall j :: 0 <= j < |s| && j != 2 * n && j != 2 * n + 1 ==> PutWord(s, n, v)[j] == s[j]
  {
  }

  /** Overwrites byte n with v unless v is negative or already stored. */
  method SetByte(buf: array<byte>, n: nat, v: int)
    requires buf.Length == ELEN
    requires n < ELEN
    requires v < 0x100
    modifies buf
    ensures buf[..] == PutByte(old(buf[..]), n, v)
  {
    var was := GetByte(buf[..], n);
    if v < 0 {
      return;
    }
    if v == was as int {
      return;
    }
    buf[n] := v as byte;
  }

  /** Overwrites word n with v unless v is negative or already stored. */
  method SetWord(buf: array<byte>, n: nat, v: int)
    requires buf.Length == ELEN
    requires WordIndex(n)
    requires v < 0x10000
    modifies buf
    ensures buf[..] == PutWord(old(buf[..]), n, v)
  {
    var was := GetWord(buf[..], n);
    if v < 0 {
      return;
    }
    if v == was {
      return;
    }
    buf[2 * n + 1] := (v / 0x100) as byte;
    buf[2 * n] := (v % 0x100) as byte;
  }

  // ---------------------------------------------------------------------
  // Checksum

  /** 16-bit rotate left by one bit: bit 15 wraps round to bit 0. */
  function Rotl1(c: bv16): bv16 {
    (c << 1) | (c >> 15)
  }

  /** 16-bit rotate right by one bit, the inverse of Rotl1. */
  function Rotr1(c: bv16): bv16 {
    (c >> 1) | (c << 15)
  }

  /** Rotating right undoes rotating left. */
  lemma RotateBack(c: bv16)
    ensures Rotr1(Rotl1(c)) == c
  {
  }

  /** Rotl1 agrees with the built-in 16-bit rotation. */
  lemma Rotl1IsRotation(c: bv16)
    ensures Rotl1(c) == c.RotateLeft(1)
  {
  }

  /** One step of the checksum: xor in a word, then rotate. */
  function Step(c: bv16, w: int): bv16
    requires 0 <= w < 0x10000
  {
    Rotl1(c ^ (w as bv16))
  }

  /** A step can be undone: rotating back and xoring the word out again
      gives the accumulator, so a step loses nothing. */
  lemma StepUndone(c: bv16, w: int)
    requires 0 <= w < 0x10000
    ensures Rotr1(Step(c, w)) ^ (w as bv16) == c
  {
  }

  /** The same word stepped into two different accumulators gives two
      different results. */
  lemma StepKeepsDifference(c: bv16, d: bv16, w: int)
    requires 0 <= w < 0x10000 && c != d
    ensures Step(c, w) != Step(d, w)
  {
  }

  /** The accumulator after folding words lo .. hi-1, in ascending order,
      into seed. */
  function Fold(s: seq<byte>, lo: nat, hi: nat, seed: bv16): bv16
    requires lo <= hi && 2 * hi <= |s|
    decreases hi - lo, s  // s only keeps the verifier from unrolling constant ranges
  {
    if hi == lo then seed else Step(Fold(s, lo, hi - 1, seed), GetWord(s, hi - 1))
  }

  /** The checksum of an image: the fold, seeded with 0xAAAA, over words
      0x00 .. 0x11 and then 0x40 .. 0x7E. */
  function ChecksumOf(s: seq<byte>): bv16
    requires |s| == ELEN
  {
    Fold(s, 0x40, CHECKSUM_WORD, Fold(s, 0, 0x12, CHECKSUM_SEED))
  }

  /** Whether word i is one of the 81 words the checksum covers. */
  predicate Summed(i: nat) {
    i < 0x12 || 0x40 <= i < CHECKSUM_WORD
  }

  /** Computes the checksum of the image and stores it at word 0x7F through
      the conditional word setter. */
  method Checksum(buf: array<byte>)
    requires buf.Length == ELEN
    modifies buf
    ensures buf[..] == PutWord(old(buf[..]), CHECKSUM_WORD, ChecksumOf(old(buf[..])) as int)
    ensures GetWord(buf[..], CHECKSUM_WORD) == ChecksumOf(old(buf[..])) as int
    ensures forall j :: 0 <= j < ELEN && j != 2 * CHECKSUM_WORD && j != 2 * CHECKSUM_WORD + 1 ==> buf[j] == old(buf[j])
  {
    ghost var img := buf[..];
    var c: bv16 := CHECKSUM_SEED;
    var a := 0;
    while a < 0x12
      invariant 0 <= a <= 0x12
      invariant c == Fold(img, 0, a, CHECKSUM_SEED)
    {
      c := Step(c, GetWord(buf[..], a));
      a := a + 1;
    }
    ghost var low := c;
    a := 0x40;
    while a < CHECKSUM_WORD
      invariant 0x40 <= a <= CHECKSUM_WORD
      invariant c == Fold(img, 0x40, a, low)
    {
      c := Step(c, GetWord(buf[..], a));
      a := a + 1;
    }
    SetWord(buf, CHECKSUM_WORD, c as int);
    PutWordKeepsOtherBytes(img, CHECKSUM_WORD, c as int);
  }

  /** The fold over a word range sees only the words in that range. */
  lemma {:induction false} FoldFrame(s: seq<byte>, t: seq<byte>, lo: nat, hi: nat, seed: bv16)
    requires lo <= hi && 2 * hi <= |s| && 2 * hi <= |t|
    requires forall i :: lo <= i < hi ==> GetWord(s, i) == GetWord(t, i)
    ensures Fold(s, lo, hi, seed) == Fold(t, lo, hi, seed)
    decreases hi - lo
  {
    if hi > lo {
      FoldFrame(s, t, lo, hi - 1, seed);
    }
  }

  /** The checksum is a function of the 81 summed words alone. */
  lemma ChecksumDependsOnlyOnSummedWords(s: seq<byte>, t: seq<byte>)
    requires |s| == ELEN && |t| == ELEN
    requires forall i :: Summed(i) ==> GetWord(s, i) == GetWord(t, i)
    ensures ChecksumOf(s) == ChecksumOf(t)
  {
    FoldFrame(s, t, 0, 0x12, CHECKSUM_SEED);
    FoldFrame(s, t, 0x40, CHECKSUM_WORD, Fold(s, 0, 0x12, CHECKSUM_SEED));
  }

  /** Storing the checksum does not change it, since word 0x7F is not summed;
      so a second store writes nothing. */
  lemma ChecksumIdempotent(s: seq<byte>)
    requires |s| == ELEN
    ensures var t := PutWord(s, CHECKSUM_WORD, ChecksumOf(s) as int);
            ChecksumOf(t) == ChecksumOf(s) &&
            PutWord(t, CHECKSUM_WORD, ChecksumOf(t) as int) == t
  {
    var t := PutWord(s, CHECKSUM_WORD, ChecksumOf(s) as int);
    forall i | Summed(i) ensures GetWord(s, i) == GetWord(t, i) {
      WordEqualIffBytesEqual(s, t, i);
    }
    ChecksumDependsOnlyOnSummedWords(s, t);
  }

  /** Folding zero words only rotates, and 0xAAAA and 0x5555 are each
      other's one-bit rotation. */
  lemma {:induction false} FoldOverZeros(s: seq<byte>, lo: nat, hi: nat)
    requires lo <= hi && 2 * hi <= |s|
    requires forall i :: lo <= i < hi ==> GetWord(s, i) == 0
    ensures Fold(s, lo, hi, 0xAAAA) == if (hi - lo) % 2 == 0 then 0xAAAA else 0x5555
    ensures Fold(s, lo, hi, 0x5555) == if (hi - lo) % 2 == 0 then 0x5555 else 0xAAAA
    decreases hi - lo
  {
    if hi > lo {
      FoldOverZeros(s, lo, hi - 1);
      assert Rotl1(0xAAAA) == 0x5555 && Rotl1(0x5555) == 0xAAAA;
    }
  }

  /** An image whose summed words are all zero has checksum 0x5555: 81 odd
      rotations of 0xAAAA. */
  lemma ZeroWordsChecksum(s: seq<byte>)
    requires |s| == ELEN
    requires forall i :: Summed(i) ==> GetWord(s, i) == 0
    ensures ChecksumOf(s) == 0x5555
  {
    FoldOverZeros(s, 0, 0x12);
    FoldOverZeros(s, 0x40, CHECKSUM_WORD);
  }

  /** Folding the same words into two different accumulators keeps them
      different, since every step can be undone. */
  lemma {:induction false} FoldKeepsDifference(s: seq<byte>, t: seq<byte>, lo: nat, hi: nat, c: bv16, d: bv16)
    requires lo <= hi && 2 * hi <= |s| && 2 * hi <= |t|
    requires forall i :: lo <= i < hi ==> GetWord(s, i) == GetWord(t, i)
    requires c != d
    ensures Fold(s, lo, hi, c) != Fold(t, lo, hi, d)
    decreases hi - lo
  {
    if hi > lo {
      FoldKeepsDifference(s, t, lo, hi - 1, c, d);
      StepKeepsDifference(Fold(s, lo, hi - 1, c), Fold(t, lo, hi - 1, d), GetWord(s, hi - 1));
    }
  }
}
