/** The Secure Hash Standard, FIPS PUB 180-1, on messages of whole octets. */
module Sha1Standard {
  type Octet = x: int | 0 <= x < 256
  type Word = bv32

  datatype Digest = Digest(a: Word, b: Word, c: Word, d: Word, e: Word)

  const INITIAL := Digest(0x67452301, 0xEFCDAB89, 0x98BADCFE, 0x10325476, 0xC3D2E1F0)
  const BLOCK := 64

  type Block = b: seq<Octet> | |b| == BLOCK witness seq(BLOCK, _ => 0)

  const TWO32 := 0x1_0000_0000
  const TWO64 := 0x1_0000_0000_0000_0000

  // --- sections 3, 5 and 6: operations, functions and constants ---

  function CircularShift(bits: nat, word: Word): Word
    requires 0 < bits < 32
  {
    (word << bits) | (word >> (32 - bits))
  }

  /** Addition modulo 2^32. */
  function Plus(x: Word, y: Word): Word {
    x + y
  }

  function Choose(b: Word, c: Word, d: Word): Word {
    (b & c) | (!b & d)
  }

  function Parity(b: Word, c: Word, d: Word): Word {
    b ^ c ^ d
  }

  function Majority(b: Word, c: Word, d: Word): Word {
    (b & c) | (b & d) | (c & d)
  }

  function F(t: nat, b: Word, c: Word, d: Word): Word {
    if t < 20 then Choose(b, c, d)
    else if t < 40 then Parity(b, c, d)
    else if t < 60 then Majority(b, c, d)
    else Parity(b, c, d)
  }

  function K(t: nat): Word {
    if t < 20 then 0x5A827999 else if t < 40 then 0x6ED9EBA1 else if t < 60 then 0x8F1BBCDC else 0xCA62C1D6
  }

  // --- section 4: padding ---

  function OctetOf(n: nat): Octet {
    n % 256
  }

  /** The last `k` octets of a number, most significant first. */
  function Octets(n: nat, k: nat): (r: seq<Octet>)
    ensures |r| == k
  {
    if k == 0 then [] else Octets(n / 256, k - 1) + [OctetOf(n)]
  }

  function Zeros(n: nat): (r: seq<Octet>)
    ensures |r| == n && forall i :: 0 <= i < n ==> r[i] == 0
  {
    seq(n, _ => 0)
  }

  /** The fewest zero octets that leave eight octets free in the last block. */
  function ZerosFor(length: nat): (z: nat)
    ensures z < BLOCK && (length + 1 + z + 8) % BLOCK == 0
  {
    var used := length % BLOCK;
    if used <= 55 then 55 - used else 119 - used
  }

  /** What is appended to a message of `length` octets: a mark, zeros, and the length
      in bits as eight octets. */
  function Padding(length: nat): (p: seq<Octet>)
    ensures |p| == 9 + ZerosFor(length)
  {
    [0x80] + Zeros(ZerosFor(length)) + Octets(8 * length, 8)
  }

  function Pad(m: seq<Octet>): (p: seq<Octet>)
    ensures |p| % BLOCK == 0
  {
    m + Padding(|m|)
  }

  // --- section 7: the digest ---

  function BlockWord(block: Block, t: nat): Word
    requires t < 16
  {
    (block[4 * t] as bv32 << 24) | (block[4 * t + 1] as bv32 << 16) | (block[4 * t + 2] as bv32 << 8)
    | (block[4 * t + 3] as bv32)
  }

  function Mix(x: Word, y: Word, z: Word, u: Word): Word {
    CircularShift(1, x ^ y ^ z ^ u)
  }

  function Expanded(first: nat -> Word, t: nat): Word {
    if t < 16 then first(t)
    else Mix(Expanded(first, t - 3), Expanded(first, t - 8), Expanded(first, t - 14), Expanded(first, t - 16))
  }

  function BlockWords(block: Block): nat -> Word {
    (t: nat) => if t < 16 then BlockWord(block, t) else 0
  }

  /** The words W of a block. */
  function W(block: Block): nat -> Word {
    (t: nat) => Expanded(BlockWords(block), t)
  }

  function Temp(a: Word, f: Word, e: Word, w: Word, k: Word): Word {
    Plus(Plus(Plus(Plus(CircularShift(5, a), f), e), w), k)
  }

  function Round(t: nat, h: Digest, w: Word): Digest {
    Digest(Temp(h.a, F(t, h.b, h.c, h.d), h.e, w, K(t)), h.a, CircularShift(30, h.b), h.c, h.d)
  }

  function Rounds(h: Digest, w: nat -> Word, t: nat): Digest {
    if t == 0 then h else Round(t - 1, Rounds(h, w, t - 1), w(t - 1))
  }

  function Add(g: Digest, h: Digest): Digest {
    Digest(Plus(g.a, h.a), Plus(g.b, h.b), Plus(g.c, h.c), Plus(g.d, h.d), Plus(g.e, h.e))
  }

  function Process(h: Digest, block: Block): Digest
  {
    Add(h, Rounds(h, W(block), 80))
  }

  /** Work the `n` blocks of `m` into `h`, first to last. */
  function Fold<H>(step: (H, Block) -> H, h: H, m: seq<Octet>, n: nat): H
    requires |m| == 64 * n
    decreases n
  {
    if n == 0 then h else step(Fold(step, h, m[..64 * (n - 1)], n - 1), m[64 * (n - 1)..])
  }

  function Sha1(m: seq<Octet>): Digest {
    Fold(Process, INITIAL, Pad(m), |Pad(m)| / 64)
  }
}
