/** The incremental digest: octets are collected in a block of 64, each full block is
    worked into the digest, and the result pads what is left. */
module Sha1Context {
  import opened Sha1Standard

  // --- one block ---

  /** The circular shift as the code writes it, forced to 32 bits. */
  function ShiftAround(bits: nat, word: Word): Word
    requires 0 < bits < 32
  {
    ((word << bits) & 0xFFFFFFFF) | (word >> (32 - bits))
  }

  method Shifted(bits: nat, word: Word) returns (r: Word)
    requires 0 < bits < 32
    ensures r == CircularShift(bits, word)
  {
    r := ShiftAround(bits, word);
  }

  /** A sum forced to 32 bits. */
  method Added(x: Word, y: Word) returns (r: Word)
    ensures r == Plus(x, y)
  {
    r := (x + y) & 0xFFFFFFFF;
  }

  method Chosen(b: Word, c: Word, d: Word) returns (r: Word)
    ensures r == Choose(b, c, d)
  {
    r := (b & c) | (!b & d);
  }

  method Mixed(b: Word, c: Word, d: Word) returns (r: Word)
    ensures r == Parity(b, c, d)
  {
    r := b ^ c ^ d;
  }

  method Voted(b: Word, c: Word, d: Word) returns (r: Word)
    ensures r == Majority(b, c, d)
  {
    r := (b & c) | (b & d) | (c & d);
  }

  method SumUp(a: Word, f: Word, e: Word, w: Word, k: Word) returns (temp: Word)
    ensures temp == Temp(a, f, e, w, k)
  {
    temp := Shifted(5, a);
    temp := Added(temp, f);
    temp := Added(temp, e);
    temp := Added(temp, w);
    temp := Added(temp, k);
  }

  method AddTo(h: Digest, g: Digest) returns (r: Digest)
    ensures r == Add(h, g)
  {
    var a := Added(h.a, g.a);
    var b := Added(h.b, g.b);
    var c := Added(h.c, g.c);
    var d := Added(h.d, g.d);
    var e := Added(h.e, g.e);
    r := Digest(a, b, c, d, e);
  }

  method WordAt(block: array<Octet>, t: nat) returns (x: Word)
    requires block.Length == BLOCK && t < 16
    ensures x == BlockWord(block[..], t)
  {
    x := block[t * 4] as bv32 << 24;
    x := x | (block[t * 4 + 1] as bv32 << 16);
    x := x | (block[t * 4 + 2] as bv32 << 8);
    x := x | (block[t * 4 + 3] as bv32);
  }

  /** The first `t` words are those of the expansion. */
  ghost predicate ExpandedTo(s: seq<Word>, first: nat -> Word, t: nat) {
    t <= |s| && forall j :: 0 <= j < t ==> s[j] == Expanded(first, j)
  }

  lemma ExpandedStep(s: seq<Word>, first: nat -> Word, t: nat)
    requires 16 <= t < |s| && ExpandedTo(s, first, t)
    ensures ExpandedTo(s[t := Mix(s[t - 3], s[t - 8], s[t - 14], s[t - 16])], first, t + 1)
  {
  }

  method Expand(w: array<Word>, ghost first: nat -> Word)
    requires w.Length == 80 && forall t :: 0 <= t < 16 ==> w[t] == first(t)
    modifies w
    ensures ExpandedTo(w[..], first, 80)
  {
    for t := 16 to 80
      invariant ExpandedTo(w[..], first, t)
    {
      ExpandedStep(w[..], first, t);
      var x := Shifted(1, w[t - 3] ^ w[t - 8] ^ w[t - 14] ^ w[t - 16]);
      w[t] := x;
    }
  }

  method Schedule(block: array<Octet>) returns (w: array<Word>)
    requires block.Length == BLOCK
    ensures fresh(w) && w.Length == 80
    ensures forall t :: 0 <= t < 80 ==> w[t] == W(block[..])(t)
  {
    w := new Word[80];
    ghost var first := BlockWords(block[..]);
    for t := 0 to 16
      invariant BlockWords(block[..]) == first && forall j :: 0 <= j < t ==> w[j] == first(j)
    {
      var x := WordAt(block, t);
      w[t] := x;
    }
    Expand(w, first);
  }

  method ProcessMessageBlock(h: Digest, block: array<Octet>) returns (r: Digest)
    requires block.Length == BLOCK
    ensures r == Process(h, block[..])
  {
    var w := Schedule(block);
    var g := RunRounds(h, w, W(block[..]));
    r := AddTo(h, g);
  }

  method RunRounds(h: Digest, w: array<Word>, ghost words: nat -> Word) returns (g: Digest)
    requires w.Length == 80 && forall t :: 0 <= t < 80 ==> w[t] == words(t)
    ensures g == Rounds(h, words, 80)
  {
    var a, b, c, d, e := h.a, h.b, h.c, h.d, h.e;
    for t := 0 to 20
      invariant Digest(a, b, c, d, e) == Rounds(h, words, t)
    {
      var f := Chosen(b, c, d);
      var temp := SumUp(a, f, e, w[t], 0x5A827999);
      e := d;
      d := c;
      c := Shifted(30, b);
      b := a;
      a := temp;
    }
    for t := 20 to 40
      invariant Digest(a, b, c, d, e) == Rounds(h, words, t)
    {
      var f := Mixed(b, c, d);
      var temp := SumUp(a, f, e, w[t], 0x6ED9EBA1);
      e := d;
      d := c;
      c := Shifted(30, b);
      b := a;
      a := temp;
    }
    for t := 40 to 60
      invariant Digest(a, b, c, d, e) == Rounds(h, words, t)
    {
      var f := Voted(b, c, d);
      var temp := SumUp(a, f, e, w[t], 0x8F1BBCDC);
      e := d;
      d := c;
      c := Shifted(30, b);
      b := a;
      a := temp;
    }
    for t := 60 to 80
      invariant Digest(a, b, c, d, e) == Rounds(h, words, t)
    {
      var f := Mixed(b, c, d);
      var temp := SumUp(a, f, e, w[t], 0xCA62C1D6);
      e := d;
      d := c;
      c := Shifted(30, b);
      b := a;
      a := temp;
    }
    g := Digest(a, b, c, d, e);
  }

  // --- padding ---

  lemma Regroup<T>(m: seq<T>, full: nat, p: seq<T>)
    requires full <= |m|
    ensures m + p == m[..full] + (m[full..] + p)
  {
  }

  lemma FoldAppend<H>(step: (H, Block) -> H, h: H, m: seq<Octet>, n: nat, block: Block)
    requires |m| == 64 * n
    ensures Fold(step, h, m + block, n + 1) == step(Fold(step, h, m, n), block)
  {
    assert (m + block)[..64 * n] == m && (m + block)[64 * n..] == block;
  }

  lemma {:induction false} OctetsSplit(high: nat, low: nat, k: nat)
    requires low < Power(k)
    ensures Octets(high * Power(k) + low, 4 + k) == Octets(high, 4) + Octets(low, k)
  {
    if k > 0 {
      DropOctet(high, low, Power(k - 1));
      OctetsSplit(high, low / 256, k - 1);
    }
  }

  lemma DropOctet(high: nat, low: nat, p: nat)
    ensures (high * (256 * p) + low) / 256 == high * p + low / 256
    ensures (high * (256 * p) + low) % 256 == low % 256
  {
    assert high * (256 * p) == 256 * (high * p);
  }

  function Power(k: nat): (p: nat)
    ensures p > 0
  {
    if k == 0 then 1 else 256 * Power(k - 1)
  }

  /** The two counters, one after the other, are the length of the message. */
  lemma CountersAreLength(high: nat, low: nat)
    requires low < TWO32
    ensures Octets(high * TWO32 + low, 8) == Octets(high, 4) + Octets(low, 4)
  {
    assert Power(4) == TWO32 by {
      assert Power(1) == 256 && Power(2) == 0x1_0000 && Power(3) == 0x100_0000;
    }
    OctetsSplit(high, low, 4);
  }

  lemma FourOctets(x: nat)
    ensures Octets(x, 4) == [OctetOf(x / 0x100_0000), OctetOf(x / 0x1_0000), OctetOf(x / 0x100), OctetOf(x)]
  {
    var y, z, u := x / 256, x / 0x1_0000, x / 0x100_0000;
    assert y / 256 == z && z / 256 == u;
    assert Octets(u, 1) == Octets(u / 256, 0) + [OctetOf(u)];
    assert Octets(z, 2) == Octets(u, 1) + [OctetOf(z)];
    assert Octets(y, 3) == Octets(z, 2) + [OctetOf(y)];
  }

  lemma OneBlock<H>(step: (H, Block) -> H, h: H, m: seq<Octet>, n: nat, p: seq<Octet>, block: Block)
    requires 64 * n <= |m| && block == m[64 * n..] + p
    ensures |m + p| == 64 * (n + 1) && Fold(step, h, m + p, n + 1) == step(Fold(step, h, m[..64 * n], n), block)
  {
    Regroup(m, 64 * n, p);
    FoldAppend(step, h, m[..64 * n], n, block);
  }

  lemma TwoBlocks<H>(step: (H, Block) -> H, h: H, m: seq<Octet>, n: nat, p: seq<Octet>, block: Block, last: Block)
    requires 64 * n <= |m| && block + last == m[64 * n..] + p
    ensures |m + p| == 64 * (n + 2)
    ensures Fold(step, h, m + p, n + 2) == step(step(Fold(step, h, m[..64 * n], n), block), last)
  {
    var f := m[..64 * n];
    Regroup(m, 64 * n, p);
    FoldAppend(step, h, f, n, block);
    FoldAppend(step, h, f + block, n + 1, last);
    assert f + (block + last) == f + block + last;
  }

  lemma Rejoin<T>(a: seq<T>, b: seq<T>, c: seq<T>, d: seq<T>)
    ensures a + b + c + d == a + (b + c + d)
  {
  }

  lemma Respread<T>(a: seq<T>, b: seq<T>, c: seq<T>, d: seq<T>, e: seq<T>)
    ensures (a + b + c) + (d + e) == a + (b + (c + d) + e)
  {
  }

  lemma ZerosJoin(i: nat, j: nat)
    ensures Zeros(i) + Zeros(j) == Zeros(i + j)
  {
  }

  /** The padding fits behind the rest of the message. */
  lemma ShortPadding(rest: seq<Octet>, length: nat)
    requires |rest| == length % BLOCK && |rest| <= 55
    ensures rest + [0x80] + Zeros(55 - |rest|) + Octets(8 * length, 8) == rest + Padding(length)
  {
    Rejoin(rest, [0x80], Zeros(55 - |rest|), Octets(8 * length, 8));
  }

  /** The padding needs a second block. */
  lemma LongPadding(rest: seq<Octet>, length: nat)
    requires |rest| == length % BLOCK && |rest| > 55
    ensures (rest + [0x80] + Zeros(63 - |rest|)) + (Zeros(56) + Octets(8 * length, 8)) == rest + Padding(length)
  {
    ZerosJoin(63 - |rest|, 56);
    assert ZerosFor(length) == 119 - |rest|;
    Respread(rest, [0x80], Zeros(63 - |rest|), Zeros(56), Octets(8 * length, 8));
  }

  method FillZeros(a: array<Octet>, from: nat, to: nat)
    requires from <= to <= a.Length
    modifies a
    ensures a[..] == old(a[..from]) + Zeros(to - from) + old(a[to..])
  {
    var i := from;
    while i < to
      invariant from <= i <= to && a[..] == old(a[..from]) + Zeros(i - from) + old(a[i..])
    {
      a[i] := 0;
      i := i + 1;
    }
  }

  method StoreCounter(a: array<Octet>, at: nat, x: nat)
    requires at + 4 <= a.Length
    modifies a
    ensures a[..] == old(a[..at]) + Octets(x, 4) + old(a[at + 4..])
  {
    a[at] := x / 0x100_0000 % 256;
    a[at + 1] := x / 0x1_0000 % 256;
    a[at + 2] := x / 0x100 % 256;
    a[at + 3] := x % 256;
    FourOctets(x);
  }

  method StoreLength(a: array<Octet>, high: nat, low: nat)
    requires a.Length == BLOCK && low < TWO32
    modifies a
    ensures a[..] == old(a[..56]) + Octets(high * TWO32 + low, 8)
  {
    StoreCounter(a, 56, high);
    StoreCounter(a, 60, low);
    CountersAreLength(high, low);
  }

  method PadMark(a: array<Octet>, index: nat)
    requires index < a.Length == BLOCK
    modifies a
    ensures a[..] == old(a[..index]) + [0x80] + Zeros(63 - index)
  {
    a[index] := 0x80;
    FillZeros(a, index + 1, 64);
  }

  method PadHere(a: array<Octet>, index: nat, high: nat, low: nat)
    requires index <= 55 && a.Length == BLOCK && low < TWO32
    modifies a
    ensures a[..] == old(a[..index]) + [0x80] + Zeros(55 - index) + Octets(high * TWO32 + low, 8)
  {
    a[index] := 0x80;
    FillZeros(a, index + 1, 56);
    StoreLength(a, high, low);
  }

  method PadNext(a: array<Octet>, high: nat, low: nat)
    requires a.Length == BLOCK && low < TWO32
    modifies a
    ensures a[..] == Zeros(56) + Octets(high * TWO32 + low, 8)
  {
    FillZeros(a, 0, 56);
    StoreLength(a, high, low);
  }

  // --- the context ---

  /** The first `n` blocks of `m` are in the digest, the other octets in `block`. */
  ghost predicate Kept<H(!new)>(step: (H, Block) -> H, h: H, m: seq<Octet>, n: nat, digest: H, block: seq<Octet>,
                                index: nat) {
    && index < 64 == |block| && |m| == 64 * n + index && block[..index] == m[64 * n..]
    && digest == Fold(step, h, m[..64 * n], n)
  }

  /** What is more, the counters hold the length of the message in bits. */
  ghost predicate Holding<H(!new)>(step: (H, Block) -> H, h: H, m: seq<Octet>, n: nat, digest: H, block: seq<Octet>,
                                   index: nat, high: nat, low: nat)
  {
    && Kept(step, h, m, n, digest, block, index)
    && 8 * |m| == high * TWO32 + low && low < TWO32 && high < TWO32
  }

  lemma IndexIs(length: nat, n: nat, index: nat)
    requires length == 64 * n + index && index < 64
    ensures length % 64 == index
  {
  }

  lemma ShortFinish<H(!new)>(step: (H, Block) -> H, h: H, m: seq<Octet>, n: nat, digest: H, was: seq<Octet>, index: nat,
                             high: nat, low: nat, block: seq<Octet>)
    requires Holding(step, h, m, n, digest, was, index, high, low) && index <= 55
    requires block == was[..index] + [0x80] + Zeros(55 - index) + Octets(high * TWO32 + low, 8)
    ensures |block| == 64 && Fold(step, h, Pad(m), |Pad(m)| / 64) == step(digest, block)
  {
    IndexIs(|m|, n, index);
    ShortPadding(m[64 * n..], |m|);
    OneBlock(step, h, m, n, Padding(|m|), block);
  }

  lemma LongFinish<H(!new)>(step: (H, Block) -> H, h: H, m: seq<Octet>, n: nat, digest: H, was: seq<Octet>, index: nat,
                            high: nat, low: nat, block: seq<Octet>, last: seq<Octet>)
    requires Holding(step, h, m, n, digest, was, index, high, low) && index > 55
    requires block == was[..index] + [0x80] + Zeros(63 - index)
    requires last == Zeros(56) + Octets(high * TWO32 + low, 8)
    ensures |block| == |last| == 64 && Fold(step, h, Pad(m), |Pad(m)| / 64) == step(step(digest, block), last)
  {
    IndexIs(|m|, n, index);
    LongPadding(m[64 * n..], |m|);
    TwoBlocks(step, h, m, n, Padding(|m|), block, last);
  }

  /** The message ends in this block. */
  method PadOne(h: Digest, a: array<Octet>, index: nat, high: nat, low: nat, ghost m: seq<Octet>,
                ghost n: nat) returns (r: Digest)
    requires Holding(Process, INITIAL, m, n, h, a[..], index, high, low) && index <= 55
    modifies a
    ensures r == Sha1(m)
  {
    ghost var was := a[..];
    PadHere(a, index, high, low);
    ShortFinish(Process, INITIAL, m, n, h, was, index, high, low, a[..]);
    r := ProcessMessageBlock(h, a);
  }

  /** The mark ends this block, the length ends the next. */
  method PadTwo(h: Digest, a: array<Octet>, index: nat, high: nat, low: nat, ghost m: seq<Octet>,
                ghost n: nat) returns (r: Digest)
    requires Holding(Process, INITIAL, m, n, h, a[..], index, high, low) && index > 55
    modifies a
    ensures r == Sha1(m)
  {
    ghost var was := a[..];
    PadMark(a, index);
    ghost var first := a[..];
    r := ProcessMessageBlock(h, a);
    PadNext(a, high, low);
    LongFinish(Process, INITIAL, m, n, h, was, index, high, low, first, a[..]);
    r := ProcessMessageBlock(r, a);
  }

  lemma CountOne(n: nat, high: nat, low: nat)
    requires 8 * n == high * TWO32 + low && low < TWO32 && high < TWO32
    ensures (low + 8) % TWO32 == 0 <==> low + 8 == TWO32
    ensures low + 8 == TWO32 ==> 8 * (n + 1) == (high + 1) * TWO32
    ensures low + 8 != TWO32 ==> (low + 8) % TWO32 == low + 8 && 8 * (n + 1) < TWO64
  {
    assert low + 8 <= TWO32 by {
      assert 8 * (n - high * 0x2000_0000) == low;
    }
  }

  lemma KeepOne<H(!new)>(step: (H, Block) -> H, h: H, m: seq<Octet>, n: nat, digest: H, block: seq<Octet>,
                         index: nat, x: Octet, block': seq<Octet>)
    requires Kept(step, h, m, n, digest, block, index) && index < 63 && block' == block[index := x]
    ensures Kept(step, h, m + [x], n, digest, block', index + 1)
  {
    assert (m + [x])[..64 * n] == m[..64 * n] && (m + [x])[64 * n..] == m[64 * n..] + [x];
    assert block'[..index + 1] == block[..index] + [x];
  }

  lemma KeepBlock<H(!new)>(step: (H, Block) -> H, h: H, m: seq<Octet>, n: nat, digest: H, block: seq<Octet>, x: Octet,
                           digest': H, block': seq<Octet>)
    requires Kept(step, h, m, n, digest, block, 63) && block' == block[63 := x] && digest' == step(digest, block')
    ensures Kept(step, h, m + [x], n + 1, digest', block', 0)
  {
    var f, b := m[..64 * n], block';
    assert b == block[..63] + [x];
    assert m + [x] == f + b && (m + [x])[..64 * (n + 1)] == m + [x];
    FoldAppend(step, h, f, n, b);
  }

  /** One more octet: it stays in the block, or the block is full and goes into the digest. */
  ghost predicate Stored<H(!new)>(step: (H, Block) -> H, n: nat, digest: H, block: seq<Octet>, index: nat,
                                  n': nat, digest': H, index': nat)
  {
    |block| == 64 && if index == 63 then n' == n + 1 && digest' == step(digest, block) && index' == 0
                     else n' == n && digest' == digest && index' == index + 1
  }

  lemma StoredKept<H(!new)>(step: (H, Block) -> H, h: H, m: seq<Octet>, n: nat, digest: H, was: seq<Octet>, index: nat,
                            x: Octet, block: seq<Octet>, n': nat, digest': H, index': nat)
    requires Kept(step, h, m, n, digest, was, index) && block == was[index := x]
    requires Stored(step, n, digest, block, index, n', digest', index')
    ensures Kept(step, h, m + [x], n', digest', block, index')
  {
    if index == 63 {
      KeepBlock(step, h, m, n, digest, was, x, digest', block);
    } else {
      KeepOne(step, h, m, n, digest, was, index, x, block);
    }
  }

  /** Put an octet into the block; a full block goes into the digest. */
  method StoreIn(h: Digest, a: array<Octet>, index: nat, x: Octet, ghost n: nat)
    returns (h': Digest, index': nat, ghost n': nat)
    requires index < a.Length == 64
    modifies a
    ensures a[..] == old(a[..])[index := x] && Stored(Process, n, h, a[..], index, n', h', index')
  {
    a[index] := x;
    if index + 1 == 64 {
      h' := ProcessMessageBlock(h, a);
      index', n' := 0, n + 1;
    } else {
      h', index', n' := h, index + 1, n;
    }
  }

  class Context {
    var digest: Digest
    var lengthLow: nat
    var lengthHigh: nat
    const block: array<Octet>
    var index: nat
    var computed: bool
    var corrupted: bool
    ghost var message: seq<Octet>
    ghost var blocks: nat

    ghost predicate Valid()
      reads this, block
    {
      && block.Length == BLOCK && index < BLOCK
      && (!corrupted && !computed ==>
            Holding(Process, INITIAL, message, blocks, digest, block[..], index, lengthHigh, lengthLow))
      && (!corrupted && computed ==> digest == Sha1(message))
    }

    constructor ()
      ensures Valid() && fresh(block) && message == [] && !computed && !corrupted
    {
      block := new Octet[64];
      digest := Digest(0x67452301, 0xEFCDAB89, 0x98BADCFE, 0x10325476, 0xC3D2E1F0);
      lengthLow, lengthHigh, index := 0, 0, 0;
      computed, corrupted, message, blocks := false, false, [], 0;
    }

    method Reset()
      requires block.Length == BLOCK
      modifies this
      ensures Valid() && message == [] && !computed && !corrupted
    {
      lengthLow, lengthHigh, index := 0, 0, 0;
      digest := Digest(0x67452301, 0xEFCDAB89, 0x98BADCFE, 0x10325476, 0xC3D2E1F0);
      computed, corrupted, message, blocks := false, false, [], 0;
    }

    /** Take in one octet of the message. */
    method Take(x: Octet)
      requires block.Length == BLOCK && !corrupted
      requires Holding(Process, INITIAL, message, blocks, digest, block[..], index, lengthHigh, lengthLow)
      modifies this, block
      ensures message == old(message) + [x] && index < BLOCK && computed == old(computed)
      ensures corrupted <==> 8 * |message| >= TWO64
      ensures !corrupted ==> Holding(Process, INITIAL, message, blocks, digest, block[..], index, lengthHigh, lengthLow)
    {
      CountOctet(|message|);
      Store(x);
    }

    /** Eight more bits after `n` octets. */
    method CountOctet(ghost n: nat)
      requires !corrupted && 8 * n == lengthHigh * TWO32 + lengthLow && lengthLow < TWO32 && lengthHigh < TWO32
      modifies this`lengthLow, this`lengthHigh, this`corrupted
      ensures corrupted <==> 8 * (n + 1) >= TWO64
      ensures !corrupted ==> 8 * (n + 1) == lengthHigh * TWO32 + lengthLow && lengthLow < TWO32 && lengthHigh < TWO32
    {
      CountOne(n, lengthHigh, lengthLow);
      lengthLow := (lengthLow + 8) % TWO32;
      if lengthLow == 0 {
        lengthHigh := (lengthHigh + 1) % TWO32;
        if lengthHigh == 0 {
          corrupted := true;
        }
      }
    }

    method Store(x: Octet)
      requires Kept(Process, INITIAL, message, blocks, digest, block[..], index)
      modifies this`index, this`digest, this`message, this`blocks, block
      ensures message == old(message) + [x]
      ensures Kept(Process, INITIAL, message, blocks, digest, block[..], index)
    {
      ghost var was := block[..];
      var h, i;
      ghost var n;
      h, i, n := StoreIn(digest, block, index, x, blocks);
      StoredKept(Process, INITIAL, message, blocks, digest, was, index, x, block[..], n, h, i);
      digest, index, message, blocks := h, i, message + [x], n;
    }

    method PadMessage()
      requires block.Length == BLOCK
      requires Holding(Process, INITIAL, message, blocks, digest, block[..], index, lengthHigh, lengthLow)
      modifies this`digest, this`index, block
      ensures digest == Sha1(message) && index == 0
    {
      if index > 55 {
        digest := PadTwo(digest, block, index, lengthHigh, lengthLow, message, blocks);
      } else {
        digest := PadOne(digest, block, index, lengthHigh, lengthLow, message, blocks);
      }
      index := 0;
    }

    /** Take in the next portion of the message.  A portion that is not empty spoils a
        finished digest, and so does the octet with which the message gets too long. */
    method Input(data: seq<Octet>)
      requires Valid()
      modifies this, block
      ensures Valid() && computed == old(computed)
      ensures data == [] ==> corrupted == old(corrupted) && message == old(message) && digest == old(digest)
      ensures data != [] && old(computed || corrupted) ==> corrupted
      ensures !old(computed || corrupted) ==> (corrupted <==> 8 * (|old(message)| + |data|) >= TWO64)
      ensures !corrupted ==> message == old(message) + data
    {
      if data == [] {
        return;
      }
      if computed || corrupted {
        corrupted := true;
        return;
      }
      ghost var was := message;
      var i := 0;
      while i < |data| && !corrupted
        invariant i <= |data| && !computed && index < BLOCK && message == was + data[..i]
        invariant corrupted <==> 8 * |message| >= TWO64
        invariant !corrupted ==>
                    Holding(Process, INITIAL, message, blocks, digest, block[..], index, lengthHigh, lengthLow)
      {
        Take(data[i]);
        i := i + 1;
      }
    }

    /** The digest of everything taken in since the reset, unless it was spoiled. */
    method Result() returns (ok: bool)
      requires Valid()
      modifies this, block
      ensures Valid() && message == old(message) && corrupted == old(corrupted)
      ensures ok <==> !corrupted
      ensures ok ==> computed && digest == Sha1(message)
    {
      if corrupted {
        return false;
      }
      if !computed {
        PadMessage();
        computed := true;
      }
      return true;
    }
  }

  function Joined(portions: seq<seq<Octet>>): seq<Octet> {
    if portions == [] then [] else Joined(portions[..|portions| - 1]) + portions[|portions| - 1]
  }

  /** However a message is divided into portions, the digest is that of the whole;
      there is none exactly when the message has 2^64 bits or more. */
  method DigestOf(portions: seq<seq<Octet>>) returns (ok: bool, digest: Digest)
    ensures ok <==> 8 * |Joined(portions)| < TWO64
    ensures ok ==> digest == Sha1(Joined(portions))
  {
    var context := new Context();
    for i := 0 to |portions|
      invariant context.Valid() && fresh(context) && fresh(context.block) && !context.computed
      invariant context.corrupted <==> 8 * |Joined(portions[..i])| >= TWO64
      invariant !context.corrupted ==> context.message == Joined(portions[..i])
    {
      assert portions[..i + 1][..i] == portions[..i];
      context.Input(portions[i]);
    }
    assert portions[..|portions|] == portions;
    ok := context.Result();
    digest := context.digest;
  }
}
