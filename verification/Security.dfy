/** The handshake state machine and the block-wise cipher of a connection
    (silkroad-security/src/security.rs). The block cipher itself is a parameter. */
module Security {
  import opened Wrappers
  import opened Words
  import opened PowMod

  const BLOCK_SIZE := 8

  /** A block of the cipher; also a 64 bit key or value, as its little-endian bytes. */
  type Block = s: Bytes | |s| == BLOCK_SIZE witness [0, 0, 0, 0, 0, 0, 0, 0]

  /** A block cipher: both functions take the key first. */
  datatype BlockCipher = BlockCipher(encrypt: (Block, Block) -> Block, decrypt: (Block, Block) -> Block)

  ghost predicate Invertible(cipher: BlockCipher) {
    && (forall key: Block, block: Block {:trigger cipher.encrypt(key, block)} ::
          cipher.decrypt(key, cipher.encrypt(key, block)) == block)
    && (forall key: Block, block: Block {:trigger cipher.decrypt(key, block)} ::
          cipher.encrypt(key, cipher.decrypt(key, block)) == block)
  }

  datatype SecurityError =
    | SecurityUninitialized
    | AlreadyInitialized
    | InitializationUnfinished
    | InvalidBlockLength(length: nat)
    | KeyExchangeMismatch(received: Block, calculated: Block)
    | ArithmeticPanic

  datatype SecurityState =
    | Uninitialized
    | HandshakeStarted(startCount: bv32, startCrc: u32, handshakeSeed: Block, x: u32, p: u32, a: u32)
    | Challenged(key: Block, count: bv32, crc: u32)
    | Established(key: Block, countBytes: (bv8, bv8, bv8), crc: u32)

  // ---------------------------------------------------------------- Keys

  function LeBytes(v: u32): (r: Bytes)
    ensures |r| == 4
  {
    [v % 0x100, v / 0x100 % 0x100, v / 0x1_0000 % 0x100, v / 0x100_0000]
  }

  function ToU64(low: u32, high: u32): Block {
    LeBytes(low) + LeBytes(high)
  }

  function Xor(a: byte, b: byte): byte {
    ((a as bv8) ^ (b as bv8)) as int
  }

  /** One byte of a transformed key: the byte, xor the wrapping sum of itself, a byte of the key and
      the key byte. */
  function TransformByte(b: byte, k: byte, keyByte: byte): byte {
    Xor(b, (b + k + keyByte) % 0x100)
  }

  /** Four bytes of a value, each with its byte of the key. */
  function TransformHalf(half: Bytes, key: u32, keyByte: byte): (r: Bytes)
    requires |half| == 4
    ensures |r| == 4
  {
    var k := LeBytes(key);
    [TransformByte(half[0], k[0], keyByte), TransformByte(half[1], k[1], keyByte),
     TransformByte(half[2], k[2], keyByte), TransformByte(half[3], k[3], keyByte)]
  }

  /** The bytes of the key are used twice, for the lower and for the upper half of the value. */
  function TransformKey(val: Block, key: u32, keyByte: byte): Block {
    TransformHalf(val[..4], key, keyByte) + TransformHalf(val[4..], key, keyByte)
  }

  /** `transform_key`, on the bytes of the value in place. */
  method TransformKeyInPlace(val: Block, key: u32, keyByte: byte) returns (r: Block)
    ensures r == TransformKey(val, key, keyByte)
  {
    var stream := new byte[BLOCK_SIZE](i requires 0 <= i < BLOCK_SIZE => val[i]);
    assert stream[..] == val;
    FourBytes(stream, 0, key, keyByte);
    assert stream[4..] == val[4..];
    FourBytes(stream, 4, key, keyByte);
    assert stream[..] == stream[..4] + stream[4..];
    r := stream[..];
  }

  method FourBytes(stream: array<byte>, at: nat, key: u32, keyByte: byte)
    requires at + 4 <= stream.Length
    modifies stream
    ensures stream[at..at + 4] == TransformHalf(old(stream[at..at + 4]), key, keyByte)
    ensures stream[..at] == old(stream[..at]) && stream[at + 4..] == old(stream[at + 4..])
  {
    var k := LeBytes(key);
    var c0 := TransformByte(stream[at], k[0], keyByte);
    var c1 := TransformByte(stream[at + 1], k[1], keyByte);
    var c2 := TransformByte(stream[at + 2], k[2], keyByte);
    var c3 := TransformByte(stream[at + 3], k[3], keyByte);
    assert TransformHalf(stream[at..at + 4], key, keyByte) == [c0, c1, c2, c3];
    stream[at], stream[at + 1], stream[at + 2], stream[at + 3] := c0, c1, c2, c3;
  }

  /** Masking the low byte of the low word is a remainder of the value. */
  lemma LowBits(v: u32)
    ensures LeBytes(v)[0] % 4 == v % 4 && LeBytes(v)[0] % 8 == v % 8
  {
    LowByteBits(v, v / 0x100, v % 0x100);
  }

  lemma LowByteBits(v: int, high: int, low: int)
    requires v == 0x100 * high + low
    requires high >= 0 && low >= 0
    ensures low % 4 == v % 4 && low % 8 == v % 8
  {
    AddMultiple(low, 64 * high, 4);
    AddMultiple(low, 32 * high, 8);
  }

  /** The key both sides use during the challenge. */
  function ExchangeKey(a: u32, b: u32, k: u32): Block {
    TransformKey(ToU64(a, b), k, k % 4)
  }

  /** What the client has to prove it knows, and what the server answers. */
  function ClientProof(a: u32, b: u32, k: u32): Block {
    TransformKey(ToU64(b, a), k, b % 8)
  }

  function ServerProof(a: u32, b: u32, k: u32): Block {
    TransformKey(ToU64(a, b), k, a % 8)
  }

  function SessionKey(handshakeSeed: Block, k: u32): Block {
    TransformKey(handshakeSeed, k, 3)
  }

  // ---------------------------------------------------------------- The count seed

  function CycleOnce(val: bv32): bv32 {
    (((((((((((val >> 2) ^ val) >> 2) ^ val) >> 1) ^ val) >> 1) ^ val) >> 1) ^ val) & 1)
    | ((((val & 1) << 31) | (val >> 1)) & 0xFFFF_FFFE)
  }

  function Cycled(val: bv32, n: nat): bv32 {
    if n == 0 then val else CycleOnce(Cycled(val, n - 1))
  }

  method CycleValue(seed: bv32) returns (val: bv32)
    ensures val == Cycled(seed, 32)
  {
    val := seed;
    for i := 0 to 32
      invariant val == Cycled(seed, i)
    {
      val := CycleOnce(val);
    }
  }

  function NonZero(b: bv8): bv8 {
    if b == 0 then 1 else b
  }

  function CountBytes(seed: bv32): (r: (bv8, bv8, bv8))
    ensures r.1 != 0 && r.2 != 0
  {
    var round1 := Cycled(seed, 32);
    var round2 := Cycled(round1, 32);
    var round3 := Cycled(round2, 32);
    var round4 := Cycled(round3, 32);
    CountFrom(round1, round2, round3, round4)
  }

  function CountFrom(round1: bv32, round2: bv32, round3: bv32, round4: bv32): (r: (bv8, bv8, bv8))
    ensures r.1 != 0 && r.2 != 0
  {
    var byte1 := NonZero(((round4 & 0xFF) ^ (round3 & 0xFF)) as bv8);
    var byte2 := NonZero(((round1 & 0xFF) ^ (round2 & 0xFF)) as bv8);
    (byte1 ^ byte2, byte2, byte1)
  }

  // ---------------------------------------------------------------- The handshake, step by step

  /** What `start_challenge` does to the state and answers. */
  function StartChallenge(cipher: BlockCipher, state: SecurityState, b: u32, clientKey: Block)
    : (SecurityState, Result<Block, SecurityError>)
  {
    if !state.HandshakeStarted? then (state, Err(SecurityUninitialized))
    else
      var power := PowerMod(state.p, state.x, b);
      if power.Err? then (state, Err(ArithmeticPanic))
      else
        var k, a := power.value, state.a;
        var received := cipher.decrypt(ExchangeKey(a, b, k), clientKey);
        if received != ClientProof(a, b, k) then (state, Err(KeyExchangeMismatch(received, ClientProof(a, b, k))))
        else (Challenged(SessionKey(state.handshakeSeed, k), state.startCount, state.startCrc),
              Ok(cipher.encrypt(ExchangeKey(a, b, k), ServerProof(a, b, k))))
  }

  function AcceptChallenge(state: SecurityState): (SecurityState, Result<(), SecurityError>) {
    if !state.Challenged? then (state, Err(InitializationUnfinished))
    else (Established(state.key, CountBytes(state.count), state.crc), Ok(()))
  }

  /** The additional seeds are the generator, the modulus and the server's power, in this order. */
  datatype InitializationData = InitializationData(
    seed: Block, countSeed: bv32, crcSeed: u32, handshakeSeed: Block, additionalSeeds: (u32, u32, u32))

  /** The random values drawn at the start; the last three are masked to 31 bits. */
  datatype Randoms = Randoms(seed: Block, countSeed: bv32, crcSeed: u32, handshakeSeed: Block, x: u31, g: u31, p: u31)

  function Initialize(state: SecurityState, r: Randoms): (SecurityState, Result<InitializationData, SecurityError>) {
    if !state.Uninitialized? then (state, Err(AlreadyInitialized))
    else
      var a := PowerMod(r.p, r.x, r.g);
      if a.Err? then (state, Err(ArithmeticPanic))
      else (HandshakeStarted(r.countSeed, r.crcSeed, r.handshakeSeed, r.x, r.p, a.value),
            Ok(InitializationData(r.seed, r.countSeed, r.crcSeed, r.handshakeSeed, (r.g, r.p, a.value))))
  }

  // ---------------------------------------------------------------- Block-wise encryption

  /** A function applied to every whole block. */
  function MapBlocks(f: Block -> Block, data: Bytes): (r: Bytes)
    ensures |r| == |data|
  {
    if |data| < BLOCK_SIZE then data else f(data[..BLOCK_SIZE]) + MapBlocks(f, data[BLOCK_SIZE..])
  }

  lemma MapBlocksStep(f: Block -> Block, was: Bytes, at: nat, done: Bytes)
    requires at + BLOCK_SIZE <= |was|
    ensures done + MapBlocks(f, was[at..]) == done + f(was[at..at + BLOCK_SIZE]) + MapBlocks(f, was[at + BLOCK_SIZE..])
  {
    assert was[at..][..BLOCK_SIZE] == was[at..at + BLOCK_SIZE] && was[at..][BLOCK_SIZE..] == was[at + BLOCK_SIZE..];
  }

  /** `find_encrypted_length`: the least multiple of the block size that is not smaller. */
  function FindEncryptedLength(length: nat): (r: nat)
    ensures r % BLOCK_SIZE == 0 && length <= r < length + BLOCK_SIZE
  {
    var aligned := length % BLOCK_SIZE;
    if aligned == 0 then length else length + (8 - aligned)
  }

  function Zeros(n: nat): Bytes {
    seq(n, _ => 0)
  }

  function Padded(data: Bytes): (r: Bytes)
    ensures |r| == FindEncryptedLength(|data|)
  {
    data + Zeros(FindEncryptedLength(|data|) - |data|)
  }

  function Keyed(f: (Block, Block) -> Block, key: Block): Block -> Block {
    (block: Block) => f(key, block)
  }

  function CryptBytes(state: SecurityState, f: (Block, Block) -> Block, data: Bytes): Result<Bytes, SecurityError> {
    if !state.Established? then Err(SecurityUninitialized)
    else if |data| % BLOCK_SIZE != 0 then Err(InvalidBlockLength(|data|))
    else Ok(MapBlocks(Keyed(f, state.key), data))
  }

  function EncryptBytes(cipher: BlockCipher, state: SecurityState, data: Bytes): Result<Bytes, SecurityError> {
    if !state.Established? then Err(SecurityUninitialized) else CryptBytes(state, cipher.encrypt, Padded(data))
  }

  function DecryptBytes(cipher: BlockCipher, state: SecurityState, data: Bytes): Result<Bytes, SecurityError> {
    CryptBytes(state, cipher.decrypt, data)
  }

  // ---------------------------------------------------------------- The class

  class SilkroadSecurity {
    const cipher: BlockCipher
    var state: SecurityState

    constructor (cipher: BlockCipher)
      ensures this.cipher == cipher && state == Uninitialized
    {
      this.cipher := cipher;
      state := Uninitialized;
    }

    method InitializeRandom(randoms: Randoms) returns (r: Result<InitializationData, SecurityError>)
      modifies this
      ensures (state, r) == Initialize(old(state), randoms)
    {
      if !state.Uninitialized? {
        return Err(AlreadyInitialized);
      }
      var a := GPowXModP(randoms.p, randoms.x, randoms.g);
      if a.Err? {
        return Err(ArithmeticPanic);
      }
      state := HandshakeStarted(randoms.countSeed, randoms.crcSeed, randoms.handshakeSeed, randoms.x, randoms.p, a.value);
      return Ok(InitializationData(randoms.seed, randoms.countSeed, randoms.crcSeed, randoms.handshakeSeed,
                                   (randoms.g, randoms.p, a.value)));
    }

    method InitializeWith(countSeed: bv32, crcSeed: u32, handshakeSeed: Block, x: u32, p: u32, a: u32)
      modifies this
      ensures state == HandshakeStarted(countSeed, crcSeed, handshakeSeed, x, p, a)
    {
      state := HandshakeStarted(countSeed, crcSeed, handshakeSeed, x, p, a);
    }

    method Restart()
      modifies this
      ensures state == Uninitialized
    {
      state := Uninitialized;
    }

    method Challenge(b: u32, clientKey: Block) returns (r: Result<Block, SecurityError>)
      modifies this
      ensures (state, r) == StartChallenge(cipher, old(state), b, clientKey)
    {
      if !state.HandshakeStarted? {
        return Err(SecurityUninitialized);
      }
      var power := GPowXModP(state.p, state.x, b);
      if power.Err? {
        return Err(ArithmeticPanic);
      }
      var k := power.value;
      var exchange := NewKey(ToU64(state.a, b), k, k, 4);
      var received := cipher.decrypt(exchange, clientKey);
      var expected := NewKey(ToU64(b, state.a), k, b, 8);
      if expected != received {
        return Err(KeyExchangeMismatch(received, expected));
      }
      var answer := NewKey(ToU64(state.a, b), k, state.a, 8);
      var encrypted := cipher.encrypt(exchange, answer);
      var session := TransformKeyInPlace(state.handshakeSeed, k, 3);
      state := Challenged(session, state.startCount, state.startCrc);
      return Ok(encrypted);
    }

    /** A transformed key whose key byte is taken from the low bits of `from`. */
    method NewKey(val: Block, key: u32, from: u32, mask: int) returns (r: Block)
      requires mask == 4 || mask == 8
      ensures r == TransformKey(val, key, from % mask)
    {
      LowBits(from);
      r := TransformKeyInPlace(val, key, LeBytes(from)[0] % mask);
    }

    method Accept() returns (r: Result<(), SecurityError>)
      modifies this
      ensures (state, r) == AcceptChallenge(old(state))
    {
      if !state.Challenged? {
        return Err(InitializationUnfinished);
      }
      state := Established(state.key, CountBytes(state.count), state.crc);
      return Ok(());
    }

    /** `encrypt_mut` and `decrypt_mut`. */
    method CryptInPlace(f: (Block, Block) -> Block, data: array<byte>) returns (r: Result<(), SecurityError>)
      modifies data
      ensures CryptBytes(state, f, old(data[..])) == if r.Ok? then Ok(data[..]) else Err(r.error)
      ensures r.Err? ==> data[..] == old(data[..])
    {
      if !state.Established? {
        return Err(SecurityUninitialized);
      }
      if data.Length % BLOCK_SIZE != 0 {
        return Err(InvalidBlockLength(data.Length));
      }
      CryptChunks(Keyed(f, state.key), data, data.Length / BLOCK_SIZE);
      return Ok(());
    }

    /** The chunks of the buffer are rewritten in place, each once. */
    static method CryptChunks(f: Block -> Block, data: array<byte>, chunks: nat)
      requires data.Length == BLOCK_SIZE * chunks
      modifies data
      ensures data[..] == MapBlocks(f, old(data[..]))
    {
      ghost var was: Bytes := data[..];
      for n := 0 to chunks
        invariant data[BLOCK_SIZE * n..] == was[BLOCK_SIZE * n..]
        invariant MapBlocks(f, was) == data[..BLOCK_SIZE * n] + MapBlocks(f, was[BLOCK_SIZE * n..])
      {
        MapBlocksStep(f, was, BLOCK_SIZE * n, data[..BLOCK_SIZE * n]);
        CryptChunk(f, data, BLOCK_SIZE * n, was);
      }
      assert was[BLOCK_SIZE * chunks..] == [] && data[..BLOCK_SIZE * chunks] == data[..];
    }

    static method CryptChunk(f: Block -> Block, data: array<byte>, at: nat, ghost was: Bytes)
      requires at + BLOCK_SIZE <= data.Length == |was| && data[at..] == was[at..]
      modifies data
      ensures data[..at + BLOCK_SIZE] == old(data[..at]) + f(was[at..at + BLOCK_SIZE])
      ensures data[at + BLOCK_SIZE..] == was[at + BLOCK_SIZE..]
    {
      var block: Block := data[at..at + BLOCK_SIZE];
      assert block == was[at..at + BLOCK_SIZE];
      var out := f(block);
      forall j | 0 <= j < BLOCK_SIZE {
        data[at + j] := out[j];
      }
    }

    method Encrypt(data: Bytes) returns (r: Result<Bytes, SecurityError>)
      ensures r == EncryptBytes(cipher, state, data)
    {
      if !state.Established? {
        return Err(SecurityUninitialized);
      }
      var target := FindEncryptedLength(|data|);
      var padded := data;
      for n := 0 to target - |data|
        invariant padded == data + Zeros(n)
      {
        padded := padded + [0];
      }
      var buffer := new byte[|padded|](i requires 0 <= i < |padded| => padded[i]);
      assert buffer[..] == padded;
      var done := CryptInPlace(cipher.encrypt, buffer);
      if done.Err? {
        return Err(done.error);
      }
      return Ok(buffer[..]);
    }

    method Decrypt(data: Bytes) returns (r: Result<Bytes, SecurityError>)
      ensures r == DecryptBytes(cipher, state, data)
    {
      var buffer := new byte[|data|](i requires 0 <= i < |data| => data[i]);
      assert buffer[..] == data;
      var done := CryptInPlace(cipher.decrypt, buffer);
      if done.Err? {
        return Err(done.error);
      }
      return Ok(buffer[..]);
    }
  }

  // ---------------------------------------------------------------- Round trip

  lemma {:induction false} MapBlocksInverse(f: Block -> Block, g: Block -> Block, data: Bytes)
    requires forall block: Block :: g(f(block)) == block
    ensures MapBlocks(g, MapBlocks(f, data)) == data
  {
    if |data| >= BLOCK_SIZE {
      var first: Block, rest := data[..BLOCK_SIZE], data[BLOCK_SIZE..];
      MapBlocksInverse(f, g, rest);
      var mapped := f(first) + MapBlocks(f, rest);
      assert mapped[..BLOCK_SIZE] == f(first) && mapped[BLOCK_SIZE..] == MapBlocks(f, rest);
      assert data == first + rest;
    }
  }

  /** Once established, every message decrypts to itself followed by zeros up to the next block
      boundary, and its encrypted form has exactly that length. */
  lemma EncryptionRoundTrip(cipher: BlockCipher, state: SecurityState, data: Bytes)
    requires Invertible(cipher) && state.Established?
    ensures EncryptBytes(cipher, state, data).Ok?
    ensures |EncryptBytes(cipher, state, data).value| == FindEncryptedLength(|data|)
    ensures DecryptBytes(cipher, state, EncryptBytes(cipher, state, data).value) == Ok(Padded(data))
  {
    MapBlocksInverse(Keyed(cipher.encrypt, state.key), Keyed(cipher.decrypt, state.key), Padded(data));
  }

  // ---------------------------------------------------------------- Block by block

  /** The block at a position. */
  function BlockAt(data: Bytes, i: nat): Block
    requires BLOCK_SIZE * i + BLOCK_SIZE <= |data|
  {
    data[BLOCK_SIZE * i..BLOCK_SIZE * i + BLOCK_SIZE]
  }

  lemma {:induction false} MappedBlock(f: Block -> Block, data: Bytes, i: nat)
    requires BLOCK_SIZE * i + BLOCK_SIZE <= |data|
    ensures BlockAt(MapBlocks(f, data), i) == f(BlockAt(data, i))
    decreases i
  {
    var first: Block, rest := data[..BLOCK_SIZE], data[BLOCK_SIZE..];
    var mapped := f(first) + MapBlocks(f, rest);
    if i > 0 {
      MappedBlock(f, rest, i - 1);
      assert BlockAt(mapped, i) == BlockAt(MapBlocks(f, rest), i - 1);
      assert BlockAt(data, i) == BlockAt(rest, i - 1);
    }
  }

  /** Zeros fill the data up to the next multiple of eight. */
  lemma PaddedAt(data: Bytes, j: nat)
    requires j < |Padded(data)|
    ensures |data| <= |Padded(data)| < |data| + 8 && |Padded(data)| % 8 == 0
    ensures Padded(data)[j] == if j < |data| then data[j] else 0
  {
  }

  /** Encrypting, told block by block: the i-th eight bytes are those of the padded data under the session key.
      Without a session there is an error. */
  lemma EncryptedBlocks(cipher: BlockCipher, state: SecurityState, data: Bytes, i: nat)
    requires 8 * i + 8 <= |Padded(data)|
    ensures !state.Established? ==> EncryptBytes(cipher, state, data) == Err(SecurityUninitialized)
    ensures state.Established? ==>
      && EncryptBytes(cipher, state, data).Ok? && |EncryptBytes(cipher, state, data).value| == |Padded(data)|
      && EncryptBytes(cipher, state, data).value[8 * i..8 * i + 8]
           == cipher.encrypt(state.key, Padded(data)[8 * i..8 * i + 8])
  {
    if state.Established? {
      MappedBlock(Keyed(cipher.encrypt, state.key), Padded(data), i);
    }
  }

  /** Decrypting, block by block, with the error for data that is not made of whole blocks. */
  lemma DecryptedBlocks(cipher: BlockCipher, state: SecurityState, data: Bytes, i: nat)
    requires 8 * i + 8 <= |data|
    ensures !state.Established? ==> DecryptBytes(cipher, state, data) == Err(SecurityUninitialized)
    ensures state.Established? && |data| % 8 != 0 ==> DecryptBytes(cipher, state, data) == Err(InvalidBlockLength(|data|))
    ensures state.Established? && |data| % 8 == 0 ==>
      && DecryptBytes(cipher, state, data).Ok? && |DecryptBytes(cipher, state, data).value| == |data|
      && DecryptBytes(cipher, state, data).value[8 * i..8 * i + 8] == cipher.decrypt(state.key, data[8 * i..8 * i + 8])
  {
    if state.Established? && |data| % 8 == 0 {
      MappedBlock(Keyed(cipher.decrypt, state.key), data, i);
    }
  }

  // ---------------------------------------------------------------- The formulas, by bytes and bits

  /** A 32 bit number and its bytes, lowest first. */
  lemma LeBytesValue(v: u32)
    ensures var b: seq<int> := LeBytes(v); v == b[0] + 0x100 * b[1] + 0x1_0000 * b[2] + 0x100_0000 * b[3]
  {
  }

  /** Two halves of a value: the low one first. */
  lemma ToU64Halves(low: u32, high: u32)
    ensures ToU64(low, high)[..4] == LeBytes(low) && ToU64(low, high)[4..] == LeBytes(high)
  {
  }

  /** Every byte of a transformed key, lower half and upper half alike. */
  lemma TransformedByte(val: Block, key: u32, keyByte: byte, i: nat)
    requires i < 4
    ensures TransformKey(val, key, keyByte)[i] == TransformByte(val[i], LeBytes(key)[i], keyByte)
    ensures TransformKey(val, key, keyByte)[4 + i] == TransformByte(val[4 + i], LeBytes(key)[i], keyByte)
  {
    HalfByte(val[..4], key, keyByte, i);
    HalfByte(val[4..], key, keyByte, i);
    Joined(TransformHalf(val[..4], key, keyByte), TransformHalf(val[4..], key, keyByte), i);
  }

  lemma Joined(low: Bytes, high: Bytes, i: nat)
    requires |low| == |high| == 4 && i < 4
    ensures (low + high)[i] == low[i] && (low + high)[4 + i] == high[i]
  {
  }

  /** The byte, xor the 8 bit sum of itself, a byte of the key and the key byte. */
  lemma TransformByteIs(b: byte, k: byte, keyByte: byte)
    ensures TransformByte(b, k, keyByte) == Xor(b, (b + k + keyByte) % 0x100)
  {
  }

  lemma HalfByte(half: Bytes, key: u32, keyByte: byte, i: nat)
    requires |half| == 4 && i < 4
    ensures TransformHalf(half, key, keyByte)[i] == TransformByte(half[i], LeBytes(key)[i], keyByte)
  {
  }

  /** `Xor` on bytes is the exclusive or of their bits. */
  lemma XorBits(x: byte, y: byte, a: bv8, b: bv8)
    requires x as bv8 == a && y as bv8 == b
    ensures Xor(x, y) == (a ^ b) as int
  {
  }

  /** One round of the count seed: the bits move down by one, the lowest goes to the top, and the new lowest bit
      is the parity of six bits. */
  lemma CycleBits(val: bv32)
    ensures CycleOnce(val) & 0xFFFF_FFFE == ((val >> 1) | (val << 31)) & 0xFFFF_FFFE
    ensures CycleOnce(val) & 1 == (val ^ (val >> 1) ^ (val >> 2) ^ (val >> 3) ^ (val >> 5) ^ (val >> 7)) & 1
  {
  }

  lemma {:induction false} CycledTwice(val: bv32, n: nat, m: nat)
    ensures Cycled(Cycled(val, n), m) == Cycled(val, n + m)
  {
    if m > 0 {
      CycledTwice(val, n, m - 1);
    }
  }

  /** The low byte of two values, xor, with zero replaced by one. */
  function SeedByte(a: bv32, b: bv32): bv8 {
    var low := ((a ^ b) & 0xFF) as bv8;
    if low == 0 then 1 else low
  }

  /** The three bytes of the count: of rounds 96 and 128, of rounds 32 and 64, and both of them, in the order
      xor, second, first. */
  lemma CountBytesExactly(seed: bv32)
    ensures var first := SeedByte(Cycled(seed, 128), Cycled(seed, 96));
      var second := SeedByte(Cycled(seed, 32), Cycled(seed, 64));
      CountBytes(seed) == (first ^ second, second, first)
  {
    CycledTwice(seed, 32, 32);
    CycledTwice(seed, 64, 32);
    CycledTwice(seed, 96, 32);
    CountFromExactly(Cycled(seed, 32), Cycled(seed, 64), Cycled(seed, 96), Cycled(seed, 128));
  }

  lemma CountFromExactly(round1: bv32, round2: bv32, round3: bv32, round4: bv32)
    ensures var first, second := SeedByte(round4, round3), SeedByte(round1, round2);
      CountFrom(round1, round2, round3, round4) == (first ^ second, second, first)
  {
    LowXor(round4, round3);
    LowXor(round1, round2);
  }

  lemma LowXor(a: bv32, b: bv32)
    ensures (a & 0xFF) ^ (b & 0xFF) == (a ^ b) & 0xFF
    ensures NonZero(((a & 0xFF) ^ (b & 0xFF)) as bv8) == SeedByte(a, b)
  {
  }

  // ---------------------------------------------------------------- Agreement

  /** A client that follows the exchange: it answers with its power of the generator and the proof
      under the key it computes itself. */
  function ClientKeyFor(cipher: BlockCipher, a: u32, b: u32, k: u32): Block {
    cipher.encrypt(ExchangeKey(a, b, k), ClientProof(a, b, k))
  }

  /** `start_challenge` accepts exactly one client key; any other key leaves the state alone. */
  lemma OneKeyIsAccepted(cipher: BlockCipher, state: SecurityState, b: u32, clientKey: Block)
    requires Invertible(cipher) && state.HandshakeStarted? && PowerMod(state.p, state.x, b).Ok?
    ensures var k := PowerMod(state.p, state.x, b).value;
      var (after, answer) := StartChallenge(cipher, state, b, clientKey);
      && (answer.Ok? <==> clientKey == ClientKeyFor(cipher, state.a, b, k))
      && (answer.Err? ==> after == state && answer.error.KeyExchangeMismatch?)
  {
    var k := PowerMod(state.p, state.x, b).value;
    var exchange := ExchangeKey(state.a, b, k);
    assert cipher.encrypt(exchange, cipher.decrypt(exchange, clientKey)) == clientKey;
    assert cipher.decrypt(exchange, cipher.encrypt(exchange, ClientProof(state.a, b, k))) == ClientProof(state.a, b, k);
  }

  /** A step out of turn is refused and leaves the state alone. */
  lemma OutOfTurn(cipher: BlockCipher, state: SecurityState, r: Randoms, b: u32, key: Block, data: Bytes)
    ensures !state.Uninitialized? ==> Initialize(state, r) == (state, Err(AlreadyInitialized))
    ensures !state.HandshakeStarted? ==> StartChallenge(cipher, state, b, key) == (state, Err(SecurityUninitialized))
    ensures !state.Challenged? ==> AcceptChallenge(state) == (state, Err(InitializationUnfinished))
    ensures !state.Established? ==>
      EncryptBytes(cipher, state, data) == DecryptBytes(cipher, state, data) == Err(SecurityUninitialized)
  {
  }

  /** A wrong key is answered with the proof that was received and the one that was expected. */
  lemma MismatchTells(cipher: BlockCipher, state: SecurityState, b: u32, key: Block)
    requires state.HandshakeStarted? && PowerMod(state.p, state.x, b).Ok?
    ensures var k := PowerMod(state.p, state.x, b).value;
      var received := cipher.decrypt(TransformKey(ToU64(state.a, b), k, k % 4), key);
      var expected := TransformKey(ToU64(b, state.a), k, b % 8);
      received != expected ==>
        StartChallenge(cipher, state, b, key) == (state, Err(KeyExchangeMismatch(received, expected)))
  {
  }

  /** The values of an exchange: the server sends `a`, a client with the secret `y` answers `b` and computes
      the common value `k`. */
  ghost predicate Exchanged(r: Randoms, y: u32, a: u32, b: u32, k: u32) {
    PowerMod(r.p, r.x, r.g) == Ok(a) && PowerMod(r.p, y, r.g) == Ok(b) && PowerMod(r.p, y, a) == Ok(k)
  }

  lemma ServerComputesTheSame(r: Randoms, y: u32) returns (a: u32, b: u32, k: u32)
    requires r.p >= 2
    ensures Exchanged(r, y, a, b, k) && PowerMod(r.p, r.x, b) == Ok(k)
  {
    DrawnNeverPanics(r.p, r.g, r.x, y);
    SecretsAgree(r.p, r.g, r.x, y);
    a, b := PowerMod(r.p, r.x, r.g).value, PowerMod(r.p, y, r.g).value;
    k := PowerMod(r.p, y, a).value;
  }

  /** The whole exchange with a client that mirrors the server's formulas, for every modulus from 2
      up: the server accepts, its challenge decrypts to what the client expects, and both end with
      the same session key. */
  lemma HandshakeAgrees(cipher: BlockCipher, r: Randoms, y: u32) returns (a: u32, b: u32, k: u32)
    requires Invertible(cipher) && r.p >= 2
    ensures Exchanged(r, y, a, b, k) && Initialize(Uninitialized, r).1.Ok?
    ensures var (challenged, challenge) :=
              StartChallenge(cipher, Initialize(Uninitialized, r).0, b, ClientKeyFor(cipher, a, b, k));
      && challenge.Ok?
      && cipher.decrypt(ExchangeKey(a, b, k), challenge.value) == ServerProof(a, b, k)
      && challenged == Challenged(SessionKey(r.handshakeSeed, k), r.countSeed, r.crcSeed)
      && AcceptChallenge(challenged).0 == Established(SessionKey(r.handshakeSeed, k), CountBytes(r.countSeed), r.crcSeed)
  {
    a, b, k := ServerComputesTheSame(r, y);
    var started := HandshakeStarted(r.countSeed, r.crcSeed, r.handshakeSeed, r.x, r.p, a);
    assert Initialize(Uninitialized, r).0 == started;
    ChallengeSucceeds(cipher, started, b, k);
  }

  lemma ChallengeSucceeds(cipher: BlockCipher, started: SecurityState, b: u32, k: u32)
    requires Invertible(cipher) && started.HandshakeStarted? && PowerMod(started.p, started.x, b) == Ok(k)
    ensures StartChallenge(cipher, started, b, ClientKeyFor(cipher, started.a, b, k)) ==
      (Challenged(SessionKey(started.handshakeSeed, k), started.startCount, started.startCrc),
       Ok(cipher.encrypt(ExchangeKey(started.a, b, k), ServerProof(started.a, b, k))))
  {
    OneKeyIsAccepted(cipher, started, b, ClientKeyFor(cipher, started.a, b, k));
  }
}
