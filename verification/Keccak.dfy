/**
 Keccak-256 as a sponge over an arbitrary permutation of twenty-five 64-bit lanes.

 The reference is section 4 (sponge) and section 5.1 (pad10*1) of FIPS 202, on bits and bytes, with
 no suffix bits before the padding; the implementation XORs 64-bit lanes in place.
 */
module Keccak {

  const RATE: nat := 136

  type Permutation = seq<bv64> -> seq<bv64>

  ghost predicate KeepsLanes(f: Permutation) {
    forall s: seq<bv64> :: |s| == 25 ==> |f(s)| == 25
  }

  // --- lanes and bytes ------------------------------------------------------------------------

  function Low(x: bv64): bv8 { (x & 0xff) as bv8 }

  /** Byte `j` of a lane, least significant first. */
  function ByteAt(lane: bv64, j: nat): bv8 {
    match j
    case 0 => Low(lane)
    case 1 => Low(lane >> 8)
    case 2 => Low(lane >> 16)
    case 3 => Low(lane >> 24)
    case 4 => Low(lane >> 32)
    case 5 => Low(lane >> 40)
    case 6 => Low(lane >> 48)
    case _ => Low(lane >> 56)
  }

  /** The lane assembled by shifting bytes in from the last to the first. */
  function LaneOf(bytes: seq<bv8>): bv64 {
    if bytes == [] then 0 else (LaneOf(bytes[1..]) << 8) | (bytes[0] as bv64)
  }

  lemma ShiftIn(x: bv64, c: bv8, j: nat)
    requires j < 8
    ensures ByteAt((x << 8) | (c as bv64), j) == if j == 0 then c else ByteAt(x, j - 1)
  {
    if j == 0 {} else if j == 1 {} else if j == 2 {} else if j == 3 {}
    else if j == 4 {} else if j == 5 {} else if j == 6 {} else {}
  }

  lemma {:induction false} LaneBytes(bytes: seq<bv8>, j: nat)
    requires j < |bytes| <= 8
    ensures ByteAt(LaneOf(bytes), j) == bytes[j]
  {
    ShiftIn(LaneOf(bytes[1..]), bytes[0], j);
    if j > 0 { LaneBytes(bytes[1..], j - 1); }
  }

  lemma XorBytes(l: bv64, m: bv64, j: nat)
    requires j < 8
    ensures ByteAt(l ^ m, j) == ByteAt(l, j) ^ ByteAt(m, j)
  {
    match j
    case 0 => LowXor(l, m);
    case 1 => LowXor(l >> 8, m >> 8); assert (l ^ m) >> 8 == (l >> 8) ^ (m >> 8);
    case 2 => LowXor(l >> 16, m >> 16); assert (l ^ m) >> 16 == (l >> 16) ^ (m >> 16);
    case 3 => LowXor(l >> 24, m >> 24); assert (l ^ m) >> 24 == (l >> 24) ^ (m >> 24);
    case 4 => LowXor(l >> 32, m >> 32); assert (l ^ m) >> 32 == (l >> 32) ^ (m >> 32);
    case 5 => LowXor(l >> 40, m >> 40); assert (l ^ m) >> 40 == (l >> 40) ^ (m >> 40);
    case 6 => LowXor(l >> 48, m >> 48); assert (l ^ m) >> 48 == (l >> 48) ^ (m >> 48);
    case _ => LowXor(l >> 56, m >> 56); assert (l ^ m) >> 56 == (l >> 56) ^ (m >> 56);
  }

  lemma LowXor(x: bv64, y: bv64)
    ensures Low(x ^ y) == Low(x) ^ Low(y)
  {
  }

  lemma LaneExtensionality(l: bv64, m: bv64)
    requires forall j :: 0 <= j < 8 ==> ByteAt(l, j) == ByteAt(m, j)
    ensures l == m
  {
    assert ByteAt(l, 0) == ByteAt(m, 0) && ByteAt(l, 1) == ByteAt(m, 1) && ByteAt(l, 2) == ByteAt(m, 2)
        && ByteAt(l, 3) == ByteAt(m, 3) && ByteAt(l, 4) == ByteAt(m, 4) && ByteAt(l, 5) == ByteAt(m, 5)
        && ByteAt(l, 6) == ByteAt(m, 6) && ByteAt(l, 7) == ByteAt(m, 7);
  }

  /** Eight pieces of every element, in order. */
  function Spread<L, B>(items: seq<L>, piece: (L, nat) -> B): (r: seq<B>)
    ensures |r| == 8 * |items|
  {
    seq(8 * |items|, i requires 0 <= i < 8 * |items| => piece(items[i / 8], i % 8))
  }

  function ToBytes(lanes: seq<bv64>): (bytes: seq<bv8>)
    ensures |bytes| == 8 * |lanes|
  {
    Spread(lanes, ByteAt)
  }

  function ToLanes(bytes: seq<bv8>): (lanes: seq<bv64>)
    ensures |lanes| == |bytes| / 8
  {
    seq(|bytes| / 8, i requires 0 <= i < |bytes| / 8 => LaneOf(bytes[8 * i..8 * i + 8]))
  }

  /** Packing and unpacking lanes are inverse little-endian views. */
  lemma LanesOfBytes(lanes: seq<bv64>)
    ensures ToLanes(ToBytes(lanes)) == lanes
  {
    forall i | 0 <= i < |lanes| ensures ToLanes(ToBytes(lanes))[i] == lanes[i] {
      LaneOfBytes(lanes, i);
    }
  }

  lemma LaneOfBytes(lanes: seq<bv64>, i: nat)
    requires i < |lanes|
    ensures LaneOf(ToBytes(lanes)[8 * i..8 * i + 8]) == lanes[i]
  {
    var word := ToBytes(lanes)[8 * i..8 * i + 8];
    forall j | 0 <= j < 8 ensures ByteAt(LaneOf(word), j) == ByteAt(lanes[i], j) {
      LaneBytes(word, j);
      assert word[j] == ToBytes(lanes)[8 * i + j];
      assert (8 * i + j) / 8 == i && (8 * i + j) % 8 == j;
    }
    LaneExtensionality(LaneOf(word), lanes[i]);
  }

  lemma BytesOfLanes(bytes: seq<bv8>)
    requires |bytes| % 8 == 0
    ensures ToBytes(ToLanes(bytes)) == bytes
  {
    forall k | 0 <= k < |bytes| ensures ToBytes(ToLanes(bytes))[k] == bytes[k] {
      LaneBytes(bytes[8 * (k / 8)..8 * (k / 8) + 8], k % 8);
    }
  }

  // --- padding --------------------------------------------------------------------------------

  function Filled(n: nat): seq<bv8> { seq(n, _ => 0) }

  /** The bytes appended to a message of `length` bytes. */
  function PadBytes(length: nat): (pad: seq<bv8>)
    ensures 0 < |pad| <= RATE && (length + |pad|) % RATE == 0
  {
    var room := RATE - length % RATE;
    assert (length + room) % RATE == 0;
    if room == 1 then [0x81] else [0x01] + Filled(room - 2) + [0x80]
  }

  function Padded(message: seq<bv8>): (p: seq<bv8>)
    ensures |p| % RATE == 0 && |p| > 0
  {
    message + PadBytes(|message|)
  }

  function Bit(b: bv8, k: nat): bool
    requires k < 8
  {
    match k
    case 0 => b & 0x01 != 0
    case 1 => b & 0x02 != 0
    case 2 => b & 0x04 != 0
    case 3 => b & 0x08 != 0
    case 4 => b & 0x10 != 0
    case 5 => b & 0x20 != 0
    case 6 => b & 0x40 != 0
    case _ => b & 0x80 != 0
  }

  function BitsOf(bytes: seq<bv8>): (bits: seq<bool>)
    ensures |bits| == 8 * |bytes|
  {
    seq(8 * |bytes|, i requires 0 <= i < 8 * |bytes| => Bit(bytes[i / 8], i % 8))
  }

  /** pad10*1 of section 5.1: a one, the least number of zeros, a one. */
  function Pad10Star1(x: nat, m: nat): seq<bool>
    requires x > 0
  {
    [true] + seq((-(m as int) - 2) % x, _ => false) + [true]
  }

  lemma PadBits()
    ensures Bit(0x01, 0) && Bit(0x80, 7) && Bit(0x81, 0) && Bit(0x81, 7)
    ensures forall k :: 0 <= k < 8 ==> !Bit(0x00, k)
    ensures forall k :: 0 < k < 8 ==> !Bit(0x01, k)
    ensures forall k :: 0 <= k < 7 ==> !Bit(0x80, k)
    ensures forall k :: 0 < k < 7 ==> !Bit(0x81, k)
  {
  }

  /** The appended bytes are exactly pad10*1 of the message's bit string, for every length. */
  lemma PaddingIsPad10Star1(message: seq<bv8>)
    ensures BitsOf(Padded(message)) == BitsOf(message) + Pad10Star1(8 * RATE, 8 * |message|)
  {
    var n := |message|;
    var room := RATE - n % RATE;
    var zeros := (-(8 * n) - 2) % (8 * RATE);
    assert zeros == 8 * room - 2 by {
      assert -(8 * n) - 2 == (8 * RATE) * (-(n / RATE) - 1) + (8 * room - 2);
      ModUnique(-(8 * n) - 2, 8 * RATE, -(n / RATE) - 1, 8 * room - 2);
    }
    var left, right := BitsOf(Padded(message)), BitsOf(message) + Pad10Star1(8 * RATE, 8 * n);
    PadBits();
    forall i | 0 <= i < |left| ensures left[i] == right[i] {
      if i >= 8 * n {
        assert Padded(message)[i / 8] == PadBytes(n)[i / 8 - n];
      }
    }
  }

  lemma ModUnique(a: int, x: int, q: int, r: int)
    requires x > 0 && 0 <= r < x && a == x * q + r
    ensures a % x == r
  {
    var d := a / x - q;
    assert x * d == r - a % x;
    if d != 0 { FarFromZero(x, d); }
  }

  lemma FarFromZero(x: int, d: int)
    requires x > 0 && d != 0
    ensures x * d >= x || x * d <= -x
  {
    if d > 0 { assert x * (d - 1) >= 0; } else { assert x * (-d - 1) >= 0; }
  }

  /** No two messages pad to the same blocks. */
  lemma PaddingIsInjective(left: seq<bv8>, right: seq<bv8>)
    requires Padded(left) == Padded(right)
    ensures left == right
  {
    var p := Padded(left);
    if |left| < |right| {
      LastMarker(left, right);
    } else if |right| < |left| {
      LastMarker(right, left);
    }
    assert left == p[..|left|] && right == p[..|right|];
  }

  lemma Markers()
    ensures 0x01 as bv8 != 0x00 && 0x01 as bv8 != 0x80 && 0x81 as bv8 != 0x00 && 0x81 as bv8 != 0x80
  {
  }

  lemma LastMarker(left: seq<bv8>, right: seq<bv8>)
    requires |left| < |right|
    ensures Padded(left) != Padded(right)
  {
    Markers();
    assert Padded(right)[|right|] == PadBytes(|right|)[0];
    if |Padded(left)| == |Padded(right)| {
      assert Padded(left)[|right|] == PadBytes(|left|)[|right| - |left|];
    }
  }

  // --- the reference sponge -------------------------------------------------------------------

  /** The first `count` items combined with `others`, the rest unchanged. */
  function Mix<T>(op: (T, T) -> T, items: seq<T>, others: seq<T>, count: nat): (r: seq<T>)
    requires count <= |others| && count <= |items|
    ensures |r| == |items|
  {
    seq(|items|, i requires 0 <= i < |items| => if i < count then op(items[i], others[i]) else items[i])
  }

  lemma MixStep<T>(op: (T, T) -> T, items: seq<T>, others: seq<T>, n: nat)
    requires n < |others| && n < |items|
    ensures Mix(op, items, others, n)[n] == items[n]
    ensures Mix(op, items, others, n + 1) == Mix(op, items, others, n)[n := op(items[n], others[n])]
  {
  }

  function Xor8(a: bv8, b: bv8): bv8 { a ^ b }

  function Xor64(a: bv64, b: bv64): bv64 { a ^ b }

  function XorBlock(state: seq<bv8>, block: seq<bv8>): (r: seq<bv8>)
    requires |block| <= |state|
    ensures |r| == |state|
  {
    Mix(Xor8, state, block, |block|)
  }

  function PermuteBytes(f: Permutation, state: seq<bv8>): seq<bv8> {
    ToBytes(f(ToLanes(state)))
  }

  /** Section 4: XOR each rate-sized block into the state and permute. */
  ghost function Absorb(f: Permutation, state: seq<bv8>, p: seq<bv8>): (r: seq<bv8>)
    requires KeepsLanes(f) && |state| == 200
    ensures |r| == 200
    decreases |p|
  {
    if |p| < RATE then state
    else Absorb(f, PermuteBytes(f, XorBlock(state, p[..RATE])), p[RATE..])
  }

  ghost function Digest(f: Permutation, message: seq<bv8>): seq<bv8>
    requires KeepsLanes(f)
  {
    Absorb(f, Filled(200), Padded(message))[..32]
  }

  lemma {:induction false} AbsorbOneMore(f: Permutation, state: seq<bv8>, p: seq<bv8>, block: seq<bv8>)
    requires KeepsLanes(f) && |state| == 200 && |p| % RATE == 0 && |block| == RATE
    ensures Absorb(f, state, p + block) == PermuteBytes(f, XorBlock(Absorb(f, state, p), block))
    decreases |p|
  {
    if p == [] {
      assert p + block == block && block[..RATE] == block;
    } else {
      assert (p + block)[..RATE] == p[..RATE] && (p + block)[RATE..] == p[RATE..] + block;
      AbsorbOneMore(f, PermuteBytes(f, XorBlock(state, p[..RATE])), p[RATE..], block);
    }
  }

  // --- the implementation ---------------------------------------------------------------------

  /** The first `count` words XORed into the first `count` lanes. */
  function XorLanes(lanes: seq<bv64>, words: seq<bv64>, count: nat): (r: seq<bv64>)
    requires count <= |words| <= |lanes|
    ensures |r| == |lanes|
  {
    Mix(Xor64, lanes, words, count)
  }

  /** Mixing and spreading commute when the pieces of a combination combine the pieces. */
  lemma SpreadOfMix<L(!new), B>(piece: (L, nat) -> B, opL: (L, L) -> L, opB: (B, B) -> B, items: seq<L>, others: seq<L>)
    requires |others| <= |items|
    requires forall l: L, m: L, j: nat {:trigger piece(opL(l, m), j)} :: j < 8 ==>
               piece(opL(l, m), j) == opB(piece(l, j), piece(m, j))
    ensures Spread(Mix(opL, items, others, |others|), piece)
         == Mix(opB, Spread(items, piece), Spread(others, piece), 8 * |others|)
  {
    var left := Spread(Mix(opL, items, others, |others|), piece);
    var right := Mix(opB, Spread(items, piece), Spread(others, piece), 8 * |others|);
    forall k | 0 <= k < 8 * |items| ensures left[k] == right[k] {
      assert k / 8 < |others| <==> k < 8 * |others|;
    }
  }

  lemma XorLanesIsXorBlock(lanes: seq<bv64>, words: seq<bv64>)
    requires |words| <= |lanes|
    ensures ToBytes(XorLanes(lanes, words, |words|)) == XorBlock(ToBytes(lanes), ToBytes(words))
  {
    XorPieces();
    SpreadOfMix(ByteAt, Xor64, Xor8, lanes, words);
  }

  lemma XorPiece(l: bv64, m: bv64, j: nat)
    requires j < 8
    ensures ByteAt(Xor64(l, m), j) == Xor8(ByteAt(l, j), ByteAt(m, j))
  {
    XorBytes(l, m, j);
  }

  lemma XorPieces()
    ensures forall l: bv64, m: bv64, j: nat {:trigger ByteAt(Xor64(l, m), j)} :: j < 8 ==>
              ByteAt(Xor64(l, m), j) == Xor8(ByteAt(l, j), ByteAt(m, j))
  {
    forall l: bv64, m: bv64, j: nat | j < 8
      ensures ByteAt(Xor64(l, m), j) == Xor8(ByteAt(l, j), ByteAt(m, j))
    {
      XorPiece(l, m, j);
    }
  }

  class KeccakState {
    const lanes: array<bv64>

    constructor ()
      ensures fresh(lanes) && lanes.Length == 25 && forall i :: 0 <= i < 25 ==> lanes[i] == 0
    {
      lanes := new bv64[25](_ => 0);
    }

    method XorInto(index: nat, value: bv64)
      requires index < 25 && lanes.Length == 25
      modifies lanes
      ensures lanes[..] == old(lanes[..])[index := Xor64(old(lanes[index]), value)]
    {
      lanes[index] := lanes[index] ^ value;
    }

    /** The permutation applied in place. */
    method Permute(f: Permutation)
      requires lanes.Length == 25 && KeepsLanes(f)
      modifies lanes
      ensures lanes[..] == f(old(lanes[..]))
    {
      var next := f(lanes[..]);
      assert |next| == 25;
      forall i | 0 <= i < 25 {
        lanes[i] := next[i];
      }
    }
  }

  /** Eight bytes into one lane, from the last byte down. */
  method PackLane(block: seq<bv8>, at: nat) returns (lane: bv64)
    requires at + 8 <= |block|
    ensures lane == LaneOf(block[at..at + 8])
  {
    lane := 0;
    for j := 8 downto 0
      invariant lane == LaneOf(block[at + j..at + 8])
    {
      assert block[at + j..at + 8][1..] == block[at + j + 1..at + 8];
      lane := (lane << 8) | (block[at + j] as bv64);
    }
  }

  method AbsorbBlock(f: Permutation, state: KeccakState, block: seq<bv8>)
    requires KeepsLanes(f) && state.lanes.Length == 25 && |block| == RATE
    modifies state.lanes
    ensures ToBytes(state.lanes[..]) == PermuteBytes(f, XorBlock(ToBytes(old(state.lanes[..])), block))
  {
    ghost var before, words := state.lanes[..], ToLanes(block);
    for i := 0 to 17
      invariant state.lanes[..] == XorLanes(before, words, i)
    {
      var lane := PackLane(block, 8 * i);
      state.XorInto(i, lane);
      MixStep(Xor64, before, words, i);
    }
    BytesOfLanes(block);
    XorLanesIsXorBlock(before, words);
    LanesOfBytes(state.lanes[..]);
    state.Permute(f);
  }

  /** The final block: the remainder with both padding bits XOR-merged into zeros. */
  method FinalBlock(rest: seq<bv8>) returns (last: seq<bv8>)
    requires |rest| < RATE
    ensures last == rest + PadBytes(|rest|)
  {
    var buffer := new bv8[RATE](_ => 0);
    for i := 0 to |rest|
      invariant forall k :: 0 <= k < RATE ==> buffer[k] == if k < i then rest[k] else 0
    {
      buffer[i] := rest[i];
    }
    buffer[|rest|] := buffer[|rest|] ^ 0x01;
    buffer[RATE - 1] := buffer[RATE - 1] ^ 0x80;
    assert 0 ^ 0x01 == 0x01 as bv8 && 0 ^ 0x80 == 0x80 as bv8 && 0x01 ^ 0x80 == 0x81 as bv8;
    last := buffer[..];
    PadsRest(rest, last);
  }

  lemma PadsRest(rest: seq<bv8>, last: seq<bv8>)
    requires |rest| < RATE == |last|
    requires forall k :: 0 <= k < RATE ==>
               last[k] == if k < |rest| then rest[k] else if k == |rest| == RATE - 1 then 0x81 else if k == |rest| then 0x01
                          else if k == RATE - 1 then 0x80 else 0
    ensures last == rest + PadBytes(|rest|)
  {
    var padding := PadBytes(|rest|);
    forall k | 0 <= k < RATE ensures last[k] == (rest + padding)[k] {
      if k >= |rest| { assert (rest + padding)[k] == padding[k - |rest|]; }
    }
  }

  method Squeeze(state: KeccakState) returns (digest: seq<bv8>)
    requires state.lanes.Length == 25
    ensures digest == ToBytes(state.lanes[..])[..32]
  {
    digest := [];
    for i := 0 to 4
      invariant digest == ToBytes(state.lanes[..])[..8 * i]
    {
      for j := 0 to 8
        invariant digest == ToBytes(state.lanes[..])[..8 * i + j]
      {
        assert (8 * i + j) / 8 == i && (8 * i + j) % 8 == j;
        digest := digest + [ByteAt(state.lanes[i], j)];
      }
    }
  }

  /** Absorbs every whole block and returns where the remainder starts. */
  method AbsorbWholeBlocks(f: Permutation, state: KeccakState, message: seq<bv8>) returns (offset: nat)
    requires KeepsLanes(f) && state.lanes.Length == 25
    modifies state.lanes
    ensures offset <= |message| && offset % RATE == 0 && |message| - offset < RATE
    ensures ToBytes(state.lanes[..]) == Absorb(f, ToBytes(old(state.lanes[..])), message[..offset])
  {
    offset := 0;
    ghost var start := ToBytes(state.lanes[..]);
    while |message| - offset >= RATE
      invariant offset <= |message| && offset % RATE == 0
      invariant ToBytes(state.lanes[..]) == Absorb(f, start, message[..offset])
    {
      var block := message[offset..offset + RATE];
      AbsorbOneMore(f, start, message[..offset], block);
      assert message[..offset] + block == message[..offset + RATE];
      AbsorbBlock(f, state, block);
      offset := offset + RATE;
    }
  }

  lemma PaddedSplits(message: seq<bv8>, offset: nat)
    requires offset <= |message| && offset % RATE == 0 && |message| - offset < RATE
    ensures Padded(message) == message[..offset] + (message[offset..] + PadBytes(|message| - offset))
  {
    var rest := |message| - offset;
    assert offset == RATE * (offset / RATE);
    ModUnique(|message|, RATE, offset / RATE, rest);
    ModUnique(rest, RATE, 0, rest);
    assert PadBytes(|message|) == PadBytes(rest);
    assert message == message[..offset] + message[offset..];
  }

  /** The digest bytes that `keccak256Hex` renders, for every message and permutation. */
  method Keccak256(f: Permutation, message: seq<bv8>) returns (digest: seq<bv8>)
    requires KeepsLanes(f)
    ensures digest == Digest(f, message)
  {
    var state := new KeccakState();
    assert ToBytes(state.lanes[..]) == Filled(200) by { ZeroBytes(state.lanes[..]); }
    var offset := AbsorbWholeBlocks(f, state, message);
    var last := FinalBlock(message[offset..]);
    PaddedSplits(message, offset);
    AbsorbOneMore(f, Filled(200), message[..offset], last);
    AbsorbBlock(f, state, last);
    digest := Squeeze(state);
  }

  lemma ZeroBytes(lanes: seq<bv64>)
    requires |lanes| == 25 && forall i :: 0 <= i < 25 ==> lanes[i] == 0
    ensures ToBytes(lanes) == Filled(200)
  {
    assert forall j :: 0 <= j < 8 ==> ByteAt(0, j) == 0;
  }
}
