/** The SHA-1 and HMAC code of kurl.c: a buffer of sixteen words that also holds the message schedule. */
module Sha1 {
  import opened ByteNumbers
  import opened Sha1Standard

  /** The byte of a little-endian word. */
  function Lane(w: Word, i: nat): Byte
    requires i < 4
  {
    if i == 0 then (w & 0xFF) as Byte
    else if i == 1 then ((w >> 8) & 0xFF) as Byte
    else if i == 2 then ((w >> 16) & 0xFF) as Byte
    else (w >> 24) as Byte
  }

  /** A little-endian word with one of its bytes replaced. */
  function WithLane(w: Word, i: nat, x: Byte): Word
    requires i < 4
  {
    if i == 0 then (w & 0xFFFF_FF00) | (x as Word)
    else if i == 1 then (w & 0xFFFF_00FF) | ((x as Word) << 8)
    else if i == 2 then (w & 0xFF00_FFFF) | ((x as Word) << 16)
    else (w & 0x00FF_FFFF) | ((x as Word) << 24)
  }

  /** Writing one byte of a word changes that byte only. */
  lemma LaneReplaced(w: Word, i: nat, x: Byte, j: nat)
    requires i < 4 && j < 4
    ensures Lane(WithLane(w, i, x), j) == if i == j then x else Lane(w, j)
  {
    hide *;
    if i == 0 {
      Written0(w, x);
      Lanes0(WithLane(w, 0, x), w, x, j);
    } else if i == 1 {
      Written1(w, x);
      Lanes1(WithLane(w, 1, x), w, x, j);
    } else if i == 2 {
      Written2(w, x);
      Lanes2(WithLane(w, 2, x), w, x, j);
    } else {
      Written3(w, x);
      Lanes3(WithLane(w, 3, x), w, x, j);
    }
  }

  predicate Only0(v: Word, w: Word, x: Byte) {
    (v & 0xFF) as Byte == x && v >> 8 == w >> 8
  }

  lemma Written0(w: Word, x: Byte)
    ensures Only0(WithLane(w, 0, x), w, x)
  {
  }

  lemma Lanes0(v: Word, w: Word, x: Byte, j: nat)
    requires Only0(v, w, x) && j < 4
    ensures Lane(v, j) == if j == 0 then x else Lane(w, j)
  {
  }

  predicate Only1(v: Word, w: Word, x: Byte) {
    v & 0xFF == w & 0xFF && ((v >> 8) & 0xFF) as Byte == x && v >> 16 == w >> 16
  }

  lemma Written1(w: Word, x: Byte)
    ensures Only1(WithLane(w, 1, x), w, x)
  {
  }

  lemma Lanes1(v: Word, w: Word, x: Byte, j: nat)
    requires Only1(v, w, x) && j < 4
    ensures Lane(v, j) == if j == 1 then x else Lane(w, j)
  {
  }

  predicate Only2(v: Word, w: Word, x: Byte) {
    v & 0xFFFF == w & 0xFFFF && ((v >> 16) & 0xFF) as Byte == x && v >> 24 == w >> 24
  }

  lemma Written2(w: Word, x: Byte)
    ensures Only2(WithLane(w, 2, x), w, x)
  {
  }

  lemma Lanes2(v: Word, w: Word, x: Byte, j: nat)
    requires Only2(v, w, x) && j < 4
    ensures Lane(v, j) == if j == 2 then x else Lane(w, j)
  {
  }

  predicate Only3(v: Word, w: Word, x: Byte) {
    v & 0xFF_FFFF == w & 0xFF_FFFF && (v >> 24) as Byte == x
  }

  lemma Written3(w: Word, x: Byte)
    ensures Only3(WithLane(w, 3, x), w, x)
  {
  }

  lemma Lanes3(v: Word, w: Word, x: Byte, j: nat)
    requires Only3(v, w, x) && j < 4
    ensures Lane(v, j) == if j == 3 then x else Lane(w, j)
  {
  }

  /** Read from the last lane to the first, a word is its bytes in the standard's order. */
  lemma WordOfLanes(w: Word)
    ensures WordOf(Lane(w, 3), Lane(w, 2), Lane(w, 1), Lane(w, 0)) == w
  {
  }

  /** The code's form of the choice function. */
  function ChCode(b: Word, c: Word, d: Word): Word {
    d ^ (b & (c ^ d))
  }

  /** The code's form of the majority function. */
  function MajCode(b: Word, c: Word, d: Word): Word {
    (b & c) | (d & (b | c))
  }

  lemma ChBits(b: Word, c: Word, d: Word)
    ensures d ^ (b & (c ^ d)) == (b & c) ^ (!b & d)
  {
  }

  lemma ChForm(b: Word, c: Word, d: Word)
    ensures ChCode(b, c, d) == Ch(b, c, d)
  {
    ChBits(b, c, d);
  }

  lemma MajBits(b: Word, c: Word, d: Word)
    ensures (b & c) | (d & (b | c)) == (b & c) ^ (b & d) ^ (c & d)
  {
  }

  lemma MajForm(b: Word, c: Word, d: Word)
    ensures MajCode(b, c, d) == Maj(b, c, d)
  {
    MajBits(b, c, d);
  }

  function Swapped(a: Word): Word {
    (a << 24) | ((a << 8) & 0x00ff0000) | ((a >> 8) & 0x0000ff00) | (a >> 24)
  }

  /** The bytes of a swapped word in memory are those of the word, the most significant first. */
  lemma SwappedLanes(a: Word)
    ensures [Lane(Swapped(a), 0), Lane(Swapped(a), 1), Lane(Swapped(a), 2), Lane(Swapped(a), 3)] == BytesOf(a)
  {
  }

  lemma AddCommutes(x: Word, y: Word)
    ensures Add(x, y) == Add(y, x)
  {
  }

  lemma SumOfSums(x: Word, y: Word, z: Word)
    ensures Add(x + y, z) == Add(x, y + z)
  {
  }

  lemma AddAssociates(x: Word, y: Word, z: Word)
    ensures Add(Add(x, y), z) == Add(x, Add(y, z))
  {
    SumOfSums(x, y, z);
    assert Add(x, y) == x + y && Add(y, z) == y + z;
    hide *;
  }

  /** The code adds up the five terms of a round in another order than the standard. */
  lemma SumForm(k: Word, f: Word, r: Word, e: Word, w: Word)
    ensures Add(Add(k, f), Add(Add(r, e), w)) == Add(Add(Add(Add(r, f), e), k), w)
  {
    hide *;
    AddCommutes(k, f);
    AddAssociates(f, k, Add(Add(r, e), w));
    AddAssociates(k, Add(r, e), w);
    AddCommutes(k, Add(r, e));
    AddAssociates(f, Add(Add(r, e), k), w);
    AddAssociates(f, Add(r, e), k);
    AddAssociates(f, r, e);
    AddCommutes(f, r);
  }

  /** The slots of the circular schedule from turn i on: word t of the schedule lies at t modulo 16. */
  predicate Circular(w: seq<Word>, m: Block, i: nat) {
    |w| == 16 && forall t {:trigger W(m, t)} :: Oldest(i) <= t < Oldest(i) + 16 ==> w[t % 16] == W(m, t)
  }

  function Oldest(i: nat): nat {
    if i < 16 then 0 else i - 16
  }

  lemma CircularStart(m: Block)
    ensures Circular(m, m, 0)
  {
  }

  /** The next word of the schedule takes the place of the one sixteen turns older. */
  lemma CircularNext(w: seq<Word>, m: Block, i: nat, x: Word)
    requires Circular(w, m, i) && i >= 16
    requires x == Rotl1(Xor4(w[(i + 13) % 16], w[(i + 8) % 16], w[(i + 2) % 16], w[i % 16]))
    ensures x == W(m, i) && Circular(w[i % 16 := x], m, i + 1)
  {
    hide Rotl1, Xor4;
    assert (i + 13) % 16 == (i - 3) % 16 && (i + 8) % 16 == (i - 8) % 16 && (i + 2) % 16 == (i - 14) % 16
        && i % 16 == (i - 16) % 16;
    assert w[(i - 3) % 16] == W(m, i - 3) && w[(i - 8) % 16] == W(m, i - 8) && w[(i - 14) % 16] == W(m, i - 14)
        && w[(i - 16) % 16] == W(m, i - 16);
    forall t | i - 15 <= t < i + 1 ensures w[i % 16 := x][t % 16] == W(m, t) {
      OtherSlot(i, t);
      if t != i {
        assert w[t % 16] == W(m, t);
      }
    }
  }

  lemma OtherSlot(i: nat, t: nat)
    requires i - 15 <= t <= i
    ensures t % 16 == i % 16 <==> t == i
  {
  }

  /** The term that the code chooses in turn i of the loop. */
  function TurnTerm(i: nat, b: Word, c: Word, d: Word): Word {
    if i < 20 then Add(0x5a827999, ChCode(b, c, d))
    else if i < 40 then Add(0x6ed9eba1, Parity(b, c, d))
    else if i < 60 then Add(0x8f1bbcdc, MajCode(b, c, d))
    else Add(0xca62c1d6, Parity(b, c, d))
  }

  lemma TurnTermIs(i: nat, b: Word, c: Word, d: Word)
    ensures TurnTerm(i, b, c, d) == Add(K(i), F(i, b, c, d))
  {
    hide Add, Ch, ChCode, Maj, MajCode, Parity;
    ChForm(b, c, d);
    MajForm(b, c, d);
  }

  lemma TurnIsRound(i: nat, h: Hash, w: Word, t: Word)
    requires t == Add(TurnTerm(i, h.b, h.c, h.d), Add(Add(Rotl5(h.a), h.e), w))
    ensures Round(h, i, w) == Hash(t, h.a, Rotl30(h.b), h.c, h.d)
  {
    hide Add, TurnTerm, K, F, Rotl5, Rotl30;
    TurnTermIs(i, h.b, h.c, h.d);
    SumForm(K(i), F(i, h.b, h.c, h.d), Rotl5(h.a), h.e, w);
  }

  /** The bytes of the buffer so far. */
  predicate Buffered(w: seq<Word>, bytes: seq<Byte>) {
    |w| == 16 && |bytes| <= 64 && forall k :: 0 <= k < |bytes| ==> Lane(w[k / 4], 3 - k % 4) == bytes[k]
  }

  lemma BufferedMore(w: seq<Word>, bytes: seq<Byte>, x: Byte)
    requires Buffered(w, bytes) && |bytes| < 64
    ensures var n := |bytes|; Buffered(w[n / 4 := WithLane(w[n / 4], 3 - n % 4, x)], bytes + [x])
  {
    hide Lane, WithLane;
    var n := |bytes|;
    var w1 := w[n / 4 := WithLane(w[n / 4], 3 - n % 4, x)];
    forall k | 0 <= k <= n ensures Lane(w1[k / 4], 3 - k % 4) == (bytes + [x])[k] {
      LaneReplaced(w[n / 4], 3 - n % 4, x, 3 - k % 4);
      assert k / 4 == n / 4 && k % 4 == n % 4 ==> k == n;
      assert k < n ==> Lane(w[k / 4], 3 - k % 4) == bytes[k];
    }
  }

  /** One word of the buffer is that of its four bytes. */
  lemma BufferedWord(w: seq<Word>, bytes: seq<Byte>, i: nat)
    requires Buffered(w, bytes) && |bytes| == 64 && i < 16
    ensures WordOf(bytes[4 * i], bytes[4 * i + 1], bytes[4 * i + 2], bytes[4 * i + 3]) == w[i]
  {
    hide Lane, WordOf;
    WordOfLanes(w[i]);
    assert bytes[4 * i] == Lane(w[i], 3);
    assert bytes[4 * i + 1] == Lane(w[i], 2);
    assert bytes[4 * i + 2] == Lane(w[i], 1);
    assert bytes[4 * i + 3] == Lane(w[i], 0);
  }

  /** A full buffer read as words is the block of its bytes. */
  lemma BufferedBlock(w: seq<Word>, bytes: seq<Byte>)
    requires Buffered(w, bytes) && |bytes| == 64
    ensures BlockOf(bytes) == w
  {
    assert |w| == 16;
    hide Lane, WordOf, Buffered;
    forall i | 0 <= i < 16 ensures BlockOf(bytes)[i] == w[i] {
      BufferedWord(w, bytes, i);
    }
  }

  lemma BufferedNone(w: seq<Word>)
    requires |w| == 16
    ensures Buffered(w, [])
  {
  }

  lemma BlockAdded(whole: seq<Byte>, block: seq<Byte>)
    requires |whole| % 64 == 0 && |block| == 64
    ensures |whole + block| % 64 == 0
    ensures HashBlocks(whole + block) == Compress(HashBlocks(whole), BlockOf(block))
  {
    hide Compress, BlockOf;
    assert (whole + block)[..|whole + block| - 64] == whole && (whole + block)[|whole + block| - 64..] == block;
  }

  lemma NextCount(n: nat)
    ensures (n % 0x1_0000_0000 + 1) % 0x1_0000_0000 == (n + 1) % 0x1_0000_0000
  {
  }

  /** The padding of the code: the length in bytes is counted modulo 2^32. */
  function CodePadding(length: nat): (p: seq<Byte>)
    ensures |p| == Gap(length) + 9
  {
    EndMark() + Zeros(Gap(length)) + CountBytes(length % 0x1_0000_0000)
  }

  function CountBytes(count: nat): (b: seq<Byte>)
    ensures |b| == 8
  {
    [0, 0, 0, ByteOf(count / 0x2000_0000), ByteOf(count / 0x20_0000), ByteOf(count / 0x2000), ByteOf(count / 0x20),
        ByteOf(8 * count)]
  }

  lemma CountIsLength(count: nat)
    requires count < 0x1_0000_0000
    ensures CountBytes(count) == LengthBytes(8 * count)
  {
    assert ByteOf(0) == 0;
    var n := 8 * count;
    assert n / 0x100_0000_0000_0000 == 0 && n / 0x1_0000_0000_0000 == 0 && n / 0x100_0000_0000 == 0;
    assert n / 0x1_0000_0000 == count / 0x2000_0000 && n / 0x100_0000 == count / 0x20_0000;
    assert n / 0x1_0000 == count / 0x2000 && n / 0x100 == count / 0x20;
  }

  lemma ByteOfInjective(m: nat, n: nat)
    requires ByteOf(m) == ByteOf(n)
    ensures m % 256 == n % 256
  {
    ByteRoundTrip(m % 256);
    ByteRoundTrip(n % 256);
  }

  /** Dividing by one byte less adds the byte. */
  lemma ByteMore(n: nat, d: nat)
    requires d in {0x1, 0x100, 0x1_0000, 0x100_0000, 0x1_0000_0000, 0x100_0000_0000, 0x1_0000_0000_0000}
    ensures n / d == 256 * (n / (256 * d)) + n / d % 256
  {
  }

  lemma SameBytes(m: nat, n: nat, d: nat)
    requires d in {0x1, 0x100, 0x1_0000, 0x100_0000, 0x1_0000_0000, 0x100_0000_0000, 0x1_0000_0000_0000}
    requires m / (256 * d) == n / (256 * d) && ByteOf(m / d) == ByteOf(n / d)
    ensures m / d == n / d
  {
    ByteOfInjective(m / d, n / d);
    hide ByteOf;
    ByteMore(m, d);
    ByteMore(n, d);
  }

  /** The eight bytes of a length say which it is. */
  lemma LengthBytesInjective(m: nat, n: nat)
    requires m < 0x1_0000_0000_0000_0000 && n < 0x1_0000_0000_0000_0000 && LengthBytes(m) == LengthBytes(n)
    ensures m == n
  {
    hide ByteOf;
    var b, c := LengthBytes(m), LengthBytes(n);
    assert b[0] == c[0] && b[1] == c[1] && b[2] == c[2] && b[3] == c[3] && b[4] == c[4] && b[5] == c[5]
        && b[6] == c[6] && b[7] == c[7];
    ByteOfInjective(m / 0x100_0000_0000_0000, n / 0x100_0000_0000_0000);
    assert m / 0x100_0000_0000_0000 == n / 0x100_0000_0000_0000;
    SameBytes(m, n, 0x1_0000_0000_0000);
    SameBytes(m, n, 0x100_0000_0000);
    SameBytes(m, n, 0x1_0000_0000);
    SameBytes(m, n, 0x100_0000);
    SameBytes(m, n, 0x1_0000);
    SameBytes(m, n, 0x100);
    SameBytes(m, n, 0x1);
  }

  /** Of the messages that the standard admits, the code pads exactly those below 2^32 bytes as the standard does. */
  lemma PaddingExact(length: nat)
    requires length < 0x2000_0000_0000_0000
    ensures CodePadding(length) == Padding(length) <==> length < 0x1_0000_0000
  {
    hide *;
    if length < 0x1_0000_0000 {
      PaddingSame(length);
    } else {
      PaddingDiffers(length);
    }
  }

  lemma PaddingSame(length: nat)
    requires length < 0x1_0000_0000
    ensures CodePadding(length) == Padding(length)
  {
    hide *;
    PaddingParts(length);
    CountIsLength(length);
  }

  lemma PaddingDiffers(length: nat)
    requires 0x1_0000_0000 <= length < 0x2000_0000_0000_0000
    ensures CodePadding(length) != Padding(length)
  {
    hide *;
    var count := length % 0x1_0000_0000;
    PaddingParts(length);
    CountIsLength(count);
    if CodePadding(length) == Padding(length) {
      SameTails(EndMark() + Zeros(Gap(length)), CountBytes(count), LengthBytes(8 * length));
      LengthBytesInjective(8 * count, 8 * length);
    }
  }

  lemma PaddingParts(length: nat)
    ensures CodePadding(length) == EndMark() + Zeros(Gap(length)) + CountBytes(length % 0x1_0000_0000)
    ensures Padding(length) == EndMark() + Zeros(Gap(length)) + LengthBytes(8 * length)
  {
    hide LengthBytes, CountBytes, Gap, Zeros, EndMark;
  }

  lemma SameTails(start: seq<Byte>, a: seq<Byte>, b: seq<Byte>)
    ensures start + a == start + b <==> a == b
  {
    assert (start + a)[|start|..] == a && (start + b)[|start|..] == b;
  }

  /** The hash of the code. */
  function CodeSha1(message: seq<Byte>): (d: seq<Byte>)
    ensures |d| == 20
  {
    CodePaddedWhole(|message|);
    Digest(HashBlocks(message + CodePadding(|message|)))
  }

  lemma CodePaddedWhole(length: nat)
    ensures (length + |CodePadding(length)|) % 64 == 0
  {
    hide Gap;
    PaddedWhole(length);
  }

  /** For a message below 2^32 bytes the code's hash is the standard's. */
  lemma CodeSha1Exact(message: seq<Byte>)
    requires |message| < 0x1_0000_0000
    ensures CodeSha1(message) == Sha1Standard.Sha1(message)
  {
    hide CodePadding, Padding, HashBlocks, Digest;
    PaddingExact(|message|);
  }

  lemma ZerosMore(k: nat)
    ensures Zeros(k + 1) == Zeros(k) + [0]
  {
  }

  lemma GapReached(n: nat, k: nat)
    requires k <= Gap(n) && (n + 1 + k) % 64 == 56
    ensures k == Gap(n)
  {
    GapFits(n);
  }

  /** The bytes of the state in memory. */
  function StateBytes(s: seq<Word>): (b: seq<Byte>)
    requires |s| == 5
    ensures |b| == 20
  {
    Lanes(s[0]) + Lanes(s[1]) + Lanes(s[2]) + Lanes(s[3]) + Lanes(s[4])
  }

  function Lanes(w: Word): (b: seq<Byte>)
    ensures |b| == 4
  {
    [Lane(w, 0), Lane(w, 1), Lane(w, 2), Lane(w, 3)]
  }

  lemma SwappedState(s: seq<Word>, t: seq<Word>)
    requires |s| == 5 && |t| == 5 && forall i :: 0 <= i < 5 ==> t[i] == Swapped(s[i])
    ensures StateBytes(t) == Digest(Hash(s[0], s[1], s[2], s[3], s[4]))
  {
    hide Lane, Swapped, BytesOf;
    SwappedLanes(s[0]);
    SwappedLanes(s[1]);
    SwappedLanes(s[2]);
    SwappedLanes(s[3]);
    SwappedLanes(s[4]);
  }

  const INT_MAX := 0x7fff_ffff

  /** sha1nfo: the two unions are arrays of words, read and written bytewise in little-endian order. */
  class Sha1Info {
    const buf: array<Word>
    var bufOffset: nat
    const state: array<Word>
    var byteCount: nat
    const keyBuffer: array<Byte>
    /** The bytes added since the last start. */
    ghost var added: seq<Byte>

    constructor ()
      ensures Shape() && fresh(buf) && fresh(state) && fresh(keyBuffer)
    {
      buf, state, keyBuffer := new Word[16], new Word[5], new Byte[64];
      bufOffset, byteCount, added := 0, 0, [];
    }

    predicate Shape() {
      buf.Length == 16 && state.Length == 5 && keyBuffer.Length == 64 && buf != state
    }

    function State(): Hash
      requires Shape()
      reads state
    {
      Hash(state[0], state[1], state[2], state[3], state[4])
    }

    /** The state is the hash of what has been added but for the bytes in the buffer. */
    ghost predicate Held()
      reads this, buf, state
    {
      && buf.Length == 16 && state.Length == 5 && bufOffset <= 64 && bufOffset <= |added|
          && (|added| - bufOffset) % 64 == 0
      && Hash(state[0], state[1], state[2], state[3], state[4]) == HashBlocks(added[..|added| - bufOffset])
      && Buffered(buf[..], added[|added| - bufOffset..])
    }

    ghost predicate Valid()
      reads this, buf, state
    {
      Shape() && Held() && bufOffset < 64
    }

    /** Everything that has been added has been written, and counted modulo 2^32. */
    ghost predicate Counted()
      reads this
    {
      byteCount == |added| % 0x1_0000_0000
    }

    /** sha1_init */
    method Init()
      requires Shape()
      modifies this, state
      ensures Valid() && Counted() && added == []
    {
      state[0], state[1], state[2], state[3], state[4] := 0x67452301, 0xefcdab89, 0x98badcfe, 0x10325476, 0xc3d2e1f0;
      byteCount := 0;
      bufOffset := 0;
      added := [];
    }

    /** sha1_hashBlock */
    method HashBlock()
      requires Shape()
      modifies buf, state
      ensures State() == Compress(old(State()), old(buf[..]))
    {
      hide W, Round, TurnTerm, Add, Rotl5, Rotl30;
      ghost var h, m: Block := State(), buf[..];
      CircularStart(m);
      var i, a, b, c, d, e := 0, state[0], state[1], state[2], state[3], state[4];
      while i < 80
        invariant i <= 80 && Circular(buf[..], m, i) && Hash(a, b, c, d, e) == Rounds(h, m, i) && State() == h
      {
        var x := NextWord(m, i);
        var t := Term(i, b, c, d);
        t := Add(t, Add(Add(Rotl5(a), e), x));
        TurnIsRound(i, Hash(a, b, c, d, e), x, t);
        e, d, c, b, a := d, c, Rotl30(b), a, t;
        i := i + 1;
      }
      AddState(a, b, c, d, e);
    }

    /** The word of turn i, which from turn 16 on first takes the place of the oldest one. */
    method NextWord(ghost m: Block, i: nat) returns (x: Word)
      requires Shape() && Circular(buf[..], m, i)
      modifies buf
      ensures x == W(m, i) && Circular(buf[..], m, i + 1)
    {
      hide Rotl1, Xor4;
      ghost var w := buf[..];
      if i >= 16 {
        var t := Xor4(buf[(i + 13) % 16], buf[(i + 8) % 16], buf[(i + 2) % 16], buf[i % 16]);
        buf[i % 16] := Rotl1(t);
        CircularNext(w, m, i, Rotl1(t));
        assert buf[..] == w[i % 16 := Rotl1(t)];
      }
      x := buf[i % 16];
      assert buf[..][i % 16] == W(m, i);
    }

    static method Term(i: nat, b: Word, c: Word, d: Word) returns (t: Word)
      ensures t == TurnTerm(i, b, c, d)
    {
      hide Add, ChCode, MajCode, Parity;
      if i < 20 {
        t := Add(0x5a827999, ChCode(b, c, d));
      } else if i < 40 {
        t := Add(0x6ed9eba1, Parity(b, c, d));
      } else if i < 60 {
        t := Add(0x8f1bbcdc, MajCode(b, c, d));
      } else {
        t := Add(0xca62c1d6, Parity(b, c, d));
      }
    }

    method AddState(a: Word, b: Word, c: Word, d: Word, e: Word)
      requires Shape()
      modifies state
      ensures State() == Plus(old(State()), Hash(a, b, c, d, e))
    {
      hide Add;
      state[0] := Add(state[0], a);
      state[1] := Add(state[1], b);
      state[2] := Add(state[2], c);
      state[3] := Add(state[3], d);
      state[4] := Add(state[4], e);
    }

    /** The assignment to the byte at bufOffset ^ 3, and the step to the next one. */
    method Store(x: Byte)
      requires Valid()
      modifies this`bufOffset, this`added, buf
      ensures Shape() && Held() && added == old(added) + [x] && bufOffset == old(bufOffset) + 1
    {
      hide HashBlocks, Buffered, WithLane;
      ghost var w, held := buf[..], added[|added| - bufOffset..];
      BufferedMore(w, held, x);
      buf[bufOffset / 4] := WithLane(buf[bufOffset / 4], 3 - bufOffset % 4, x);
      assert buf[..] == w[bufOffset / 4 := WithLane(w[bufOffset / 4], 3 - bufOffset % 4, x)];
      bufOffset := bufOffset + 1;
      added := added + [x];
      assert added[|added| - bufOffset..] == held + [x];
      assert added[..|added| - bufOffset] == old(added[..|added| - bufOffset]);
    }

    /** A full buffer goes into the state. */
    method Flush()
      requires Shape() && Held() && bufOffset == 64
      modifies this`bufOffset, buf, state
      ensures Valid()
    {
      hide HashBlocks, Compress, BlockOf, Buffered;
      ghost var whole, block := added[..|added| - 64], added[|added| - 64..];
      BufferedBlock(buf[..], block);
      BlockAdded(whole, block);
      assert whole + block == added;
      HashBlock();
      bufOffset := 0;
      assert added[..|added|] == added && added[|added|..] == [];
      BufferedNone(buf[..]);
    }

    /** sha1_add */
    method AddByte(x: Byte)
      requires Valid()
      modifies this`bufOffset, this`added, buf, state
      ensures Valid() && added == old(added) + [x]
    {
      hide HashBlocks, Buffered;
      Store(x);
      if bufOffset == 64 {
        Flush();
      }
    }

    /** sha1_write1 */
    method WriteByte(x: Byte)
      requires Valid() && Counted()
      modifies this`bufOffset, this`added, this`byteCount, buf, state
      ensures Valid() && Counted() && added == old(added) + [x]
    {
      byteCount := (byteCount + 1) % 0x1_0000_0000;
      AddByte(x);
      NextCount(|old(added)|);
    }

    /** sha1_write */
    method Write(data: seq<Byte>)
      requires Valid() && Counted()
      modifies this`bufOffset, this`added, this`byteCount, buf, state
      ensures Valid() && Counted() && added == old(added) + data
    {
      var i := 0;
      while i < |data|
        invariant i <= |data| && Valid() && Counted() && added == old(added) + data[..i]
      {
        WriteByte(data[i]);
        i := i + 1;
      }
    }

    /** The bytes up to the length. */
    method Pad()
      requires Valid()
      modifies this`bufOffset, this`added, buf, state
      ensures Valid() && added == old(added) + EndMark() + Zeros(Gap(|old(added)|))
    {
      GapFits(|added|);
      hide Held, Gap, EndMark;
      ghost var n, k, start := |added|, 0, added + EndMark();
      AddByte(EndMark()[0]);
      assert EndMark() == [EndMark()[0]];
      while bufOffset != 56
        invariant Valid() && k <= Gap(n) && added == start + Zeros(k)
        decreases Gap(n) - k
      {
        OffsetIs();
        AddByte(0);
        ZerosMore(k);
        k := k + 1;
      }
      OffsetIs();
      GapReached(n, k);
    }

    lemma OffsetIs()
      requires Valid()
      ensures bufOffset == |added| % 64
    {
      hide HashBlocks, Buffered;
    }

    /** sha1_final: the bytes of the state, which then is no state of a hash any more. */
    method Final() returns (digest: seq<Byte>)
      requires Valid() && Counted()
      modifies this`bufOffset, this`added, buf, state
      ensures |digest| == 20 && digest == CodeSha1(old(added))
      ensures |old(added)| < 0x1_0000_0000 ==> digest == Sha1Standard.Sha1(old(added))
    {
      hide Held, Gap, HashBlocks, ByteOf, Digest, Sha1Standard.Sha1, Zeros;
      if |added| < 0x1_0000_0000 {
        CodeSha1Exact(added);
      }
      Pad();
      AddCount();
      assert added == old(added) + CodePadding(|old(added)|);
      AllHashed(|old(added)|);
      digest := SwapState();
    }

    /** The length of the message, in bits. */
    method AddCount()
      requires Valid()
      modifies this`bufOffset, this`added, buf, state
      ensures Valid() && added == old(added) + CountBytes(byteCount)
    {
      hide Held, ByteOf;
      AddByte(0);
      AddByte(0);
      AddByte(0);
      AddByte(ByteOf(byteCount / 0x2000_0000));
      AddByte(ByteOf(byteCount / 0x20_0000));
      AddByte(ByteOf(byteCount / 0x2000));
      AddByte(ByteOf(byteCount / 0x20));
      AddByte(ByteOf(8 * byteCount));
    }

    lemma AllHashed(length: nat)
      requires Valid() && |added| == length + Gap(length) + 9
      ensures Shape() && |added| % 64 == 0 && State() == HashBlocks(added)
    {
      GapFits(length);
      hide HashBlocks, Buffered, Gap;
      assert (length + 1 + Gap(length)) % 64 == 56;
      assert |added| % 64 == 0;
      assert bufOffset == 0;
      assert added[..|added|] == added;
    }

    /** The bytes of the words are reversed in place. */
    method SwapState() returns (digest: seq<Byte>)
      requires Shape()
      modifies state
      ensures digest == Digest(old(State()))
    {
      hide Swapped, Digest, StateBytes;
      ghost var s := state[..];
      var i := 0;
      while i < 5
        invariant i <= 5 && forall k :: 0 <= k < 5 ==> state[k] == if k < i then Swapped(s[k]) else s[k]
      {
        state[i] := Swapped(state[i]);
        i := i + 1;
      }
      SwappedState(s, state[..]);
      digest := StateBytes(state[..]);
    }

    /** The copy or the hash of the key in the zeroed key buffer. */
    method SetKey(key: seq<Byte>)
      requires Shape() && |key| <= INT_MAX && keyBuffer.Length == 64
      modifies this, buf, state, keyBuffer
      ensures keyBuffer[..] == BlockKey(key)
    {
      hide Held, Sha1Standard.Sha1;
      var short := key;
      if |key| > 64 {
        Init();
        Write(key);
        assert added == key;
        short := Final();
      }
      forall i | 0 <= i < 64 {
        keyBuffer[i] := if i < |short| then short[i] else 0;
      }
      assert keyBuffer[..] == short + Zeros(64 - |short|);
    }

    /** The masked key goes in as the first block. */
    method WriteMasked(mask: Byte)
      requires Valid() && Counted() && added == []
      modifies this`bufOffset, this`added, this`byteCount, buf, state
      ensures Valid() && Counted() && added == Masked(keyBuffer[..], mask)
    {
      hide Held, Mask;
      var i := 0;
      while i < 64
        invariant i <= 64 && Valid() && Counted() && keyBuffer[..] == old(keyBuffer[..])
            && added == Masked(keyBuffer[..], mask)[..i]
      {
        WriteByte(Mask(keyBuffer[i], mask));
        assert Masked(keyBuffer[..], mask)[i] == Mask(keyBuffer[i], mask);
        i := i + 1;
      }
    }

    /** sha1_init_hmac; lengths are of type int. */
    method InitHmac(key: seq<Byte>)
      requires Shape() && |key| <= INT_MAX
      modifies this, buf, state, keyBuffer
      ensures Valid() && Counted() && keyBuffer[..] == BlockKey(key) && added == Masked(BlockKey(key), 0x36)
    {
      hide Held, BlockKey, Masked;
      SetKey(key);
      Init();
      WriteMasked(0x36);
    }

    /** sha1_final_hmac, after the text has been written in any pieces. */
    method FinalHmac(ghost key: seq<Byte>, ghost text: seq<Byte>) returns (mac: seq<Byte>)
      requires Valid() && Counted() && keyBuffer[..] == BlockKey(key) && added == Masked(BlockKey(key), 0x36) + text
      requires 64 + |text| < 0x1_0000_0000
      modifies this, buf, state
      ensures mac == Hmac(key, text)
    {
      hide Held, BlockKey, Masked, Sha1Standard.Sha1;
      var inner := Final();
      Init();
      WriteMasked(0x5c);
      Write(inner);
      mac := Final();
    }
  }

  function Joined(pieces: seq<seq<Byte>>): seq<Byte> {
    if pieces == [] then [] else pieces[0] + Joined(pieces[1..])
  }

  /** A message written in any pieces is hashed as the standard says. */
  method DigestOf(pieces: seq<seq<Byte>>) returns (digest: seq<Byte>)
    requires |Joined(pieces)| < 0x1_0000_0000
    ensures digest == Sha1Standard.Sha1(Joined(pieces))
  {
    hide Sha1Info.Held, Sha1Standard.Sha1;
    var s := new Sha1Info();
    s.Init();
    WritePieces(s, pieces);
    assert s.added == Joined(pieces);
    digest := s.Final();
  }

  method WritePieces(s: Sha1Info, pieces: seq<seq<Byte>>)
    requires s.Valid() && s.Counted()
    modifies s`bufOffset, s`added, s`byteCount, s.buf, s.state
    ensures s.Valid() && s.Counted() && s.added == old(s.added) + Joined(pieces)
  {
    hide Sha1Info.Held;
    var i := 0;
    while i < |pieces|
      invariant i <= |pieces| && s.Valid() && s.Counted() && s.added + Joined(pieces[i..])
          == old(s.added) + Joined(pieces)
    {
      s.Write(pieces[i]);
      i := i + 1;
    }
  }

  /** A text written in any pieces is authenticated as RFC 2104 says. */
  method HmacOf(key: seq<Byte>, pieces: seq<seq<Byte>>) returns (mac: seq<Byte>)
    requires |key| <= INT_MAX && 64 + |Joined(pieces)| < 0x1_0000_0000
    ensures mac == Hmac(key, Joined(pieces))
  {
    hide Sha1Info.Held, Sha1Standard.Sha1, BlockKey, Masked, Hmac;
    var s := new Sha1Info();
    s.InitHmac(key);
    WritePieces(s, pieces);
    mac := s.FinalHmac(key, Joined(pieces));
  }
}
