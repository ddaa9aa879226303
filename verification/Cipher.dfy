/** XTEA over the payload of a radio message, in the 8-bit and 32-bit words of the source. */
module Cipher {

  type Word = bv32

  const DELTA: Word := 0x9E3779B9
  /** the sum at which encryption ends */
  const SUM: Word := 0xC6EF3720
  const ROUNDS: nat := 32
  const MSG_SIZE: nat := 17
  /** BANO_MSG_ENC_OFF: the first byte, with operation and flags, stays readable. */
  const ENC_OFF: nat := 1

  type Key = k: seq<Word> | |k| == 4 witness [0, 0, 0, 0]

  /** uint32_t sums and differences */
  function Plus(a: Word, b: Word): Word {
    a + b
  }

  function Minus(a: Word, b: Word): Word {
    a - b
  }

  /** What v0 is changed by: the low bits of the sum select a word of the key. */
  function Low(v: Word, sum: Word, k: Key): Word {
    Mix(v, sum, k[(sum & 3) as nat])
  }

  /** What v1 is changed by. */
  function High(v: Word, sum: Word, k: Key): Word {
    Mix(v, sum, k[((sum >> 11) & 3) as nat])
  }

  function Mix(v: Word, sum: Word, part: Word): Word {
    (((v << 4) ^ (v >> 5)) + v) ^ (sum + part)
  }

  datatype State = State(v0: Word, v1: Word, sum: Word)

  function EncRound(s: State, k: Key): State {
    var v0 := Plus(s.v0, Low(s.v1, s.sum, k));
    var sum := Plus(s.sum, DELTA);
    State(v0, Plus(s.v1, High(v0, sum, k)), sum)
  }

  function DecRound(s: State, k: Key): State {
    var v1 := Minus(s.v1, High(s.v0, s.sum, k));
    var sum := Minus(s.sum, DELTA);
    State(Minus(s.v0, Low(v1, sum, k)), v1, sum)
  }

  function EncRounds(s: State, k: Key, n: nat): State {
    if n == 0 then s else EncRound(EncRounds(s, k, n - 1), k)
  }

  function DecRounds(s: State, k: Key, n: nat): State
    decreases n
  {
    if n == 0 then s else DecRounds(DecRound(s, k), k, n - 1)
  }

  /** Subtracting what was added gives the old word back. */
  lemma PlusMinus(a: Word, b: Word)
    ensures Minus(Plus(a, b), b) == a
  {
    hide Plus, Minus;
    PlusIs(a, b);
    MinusSum(a, b);
  }

  lemma PlusIs(a: Word, b: Word)
    ensures Plus(a, b) == a + b
  {
  }

  lemma MinusSum(a: Word, b: Word)
    ensures Minus(a + b, b) == a
  {
  }

  lemma RoundInverse(s: State, k: Key)
    ensures DecRound(EncRound(s, k), k) == s
  {
    hide Low, High, Plus, Minus;
    var e := EncRound(s, k);
    PlusMinus(s.sum, DELTA);
    PlusMinus(s.v1, High(e.v0, e.sum, k));
    PlusMinus(s.v0, Low(s.v1, s.sum, k));
  }

  lemma {:induction false} RoundsInverse(s: State, k: Key, n: nat)
    ensures DecRounds(EncRounds(s, k, n), k, n) == s
  {
    hide EncRound, DecRound;
    if n > 0 {
      RoundInverse(EncRounds(s, k, n - 1), k);
      RoundsInverse(s, k, n - 1);
    }
  }

  function SumAt(n: nat): Word {
    if n == 0 then 0 else Plus(SumAt(n - 1), DELTA)
  }

  lemma {:induction false} SumAfter(s: State, k: Key, n: nat)
    requires s.sum == 0
    ensures EncRounds(s, k, n).sum == SumAt(n)
  {
    hide Low, High, Plus;
    if n > 0 { SumAfter(s, k, n - 1); }
  }

  /** The sum that decryption starts from is the one at which encryption ends. */
  lemma SumEnds()
    ensures SumAt(ROUNDS) == SUM
  {
    assert SumAt(8) == 0xF1BBCDC8;
    assert SumAt(16) == 0xE3779B90;
    assert SumAt(24) == 0xD5336958;
  }

  // ---------------------------------------------------------------- bytes

  /** A word in memory, least significant byte first. */
  function WordOf(b: seq<bv8>, p: nat): (w: Word)
    requires p + 4 <= |b|
  {
    (b[p] as Word) | ((b[p + 1] as Word) << 8) | ((b[p + 2] as Word) << 16) | ((b[p + 3] as Word) << 24)
  }

  function WordBytes(w: Word): (b: seq<bv8>)
    ensures |b| == 4
  {
    [(w & 0xFF) as bv8, ((w >> 8) & 0xFF) as bv8, ((w >> 16) & 0xFF) as bv8, ((w >> 24) & 0xFF) as bv8]
  }

  lemma WordBack(w: Word)
    ensures WordOf(WordBytes(w), 0) == w
  {
  }

  lemma BytesBack(b: seq<bv8>)
    requires |b| == 4
    ensures WordBytes(WordOf(b, 0)) == b
  {
  }

  /** A block of eight bytes, enciphered. */
  function EncBlock(b: seq<bv8>, k: Key): (r: seq<bv8>)
    requires |b| == 8
    ensures |r| == 8
  {
    var s := EncRounds(State(WordOf(b, 0), WordOf(b, 4), 0), k, ROUNDS);
    WordBytes(s.v0) + WordBytes(s.v1)
  }

  function DecBlock(b: seq<bv8>, k: Key): (r: seq<bv8>)
    requires |b| == 8
    ensures |r| == 8
  {
    var s := DecRounds(State(WordOf(b, 0), WordOf(b, 4), SUM), k, ROUNDS);
    WordBytes(s.v0) + WordBytes(s.v1)
  }

  /** 32 rounds of decryption undo 32 rounds of encryption, for every key and block. */
  lemma BlockInverse(b: seq<bv8>, k: Key)
    requires |b| == 8
    ensures DecBlock(EncBlock(b, k), k) == b
  {
    hide EncRounds, DecRounds, WordOf, WordBytes, SumAt;
    var s := State(WordOf(b, 0), WordOf(b, 4), 0);
    var e := EncRounds(s, k, ROUNDS);
    RoundsInverse(s, k, ROUNDS);
    SumAfter(s, k, ROUNDS);
    SumEnds();
    WordsBack(e.v0, e.v1);
    HalvesBack(b);
  }

  lemma WordsBack(v0: Word, v1: Word)
    ensures var c := WordBytes(v0) + WordBytes(v1); WordOf(c, 0) == v0 && WordOf(c, 4) == v1
  {
    hide WordOf;
    WordBack(v0);
    WordBack(v1);
    WordShift(WordBytes(v0), WordBytes(v1));
  }

  lemma WordShift(a: seq<bv8>, b: seq<bv8>)
    requires |a| == |b| == 4
    ensures WordOf(a + b, 0) == WordOf(a, 0) && WordOf(a + b, 4) == WordOf(b, 0)
  {
  }

  lemma HalvesBack(b: seq<bv8>)
    requires |b| == 8
    ensures WordBytes(WordOf(b, 0)) + WordBytes(WordOf(b, 4)) == b
  {
    hide WordOf, WordBytes;
    BytesBack(b[..4]);
    BytesBack(b[4..]);
    WordShift(b[..4], b[4..]);
    assert b == b[..4] + b[4..];
  }

  // ---------------------------------------------------------------- payloads

  datatype Alg = ALG_NONE | ALG_XTEA | ALG_AES

  /** The effect of bano_cipher_enc on 16 bytes. */
  function Enciphered(alg: Alg, key: Key, b: seq<bv8>): (r: seq<bv8>)
    requires |b| == 16
    ensures |r| == 16
  {
    if alg == ALG_XTEA then EncBlock(b[..8], key) + EncBlock(b[8..], key) else b
  }

  /** The effect of bano_cipher_dec on 16 bytes. */
  function Deciphered(alg: Alg, key: Key, b: seq<bv8>): (r: seq<bv8>)
    requires |b| == 16
    ensures |r| == 16
  {
    if alg == ALG_XTEA then DecBlock(b[..8], key) + DecBlock(b[8..], key) else b
  }

  lemma CipherInverse(alg: Alg, key: Key, b: seq<bv8>)
    requires |b| == 16
    ensures Deciphered(alg, key, Enciphered(alg, key, b)) == b
  {
    hide EncBlock, DecBlock;
    if alg == ALG_XTEA {
      BlockInverse(b[..8], key);
      BlockInverse(b[8..], key);
      var e := Enciphered(alg, key, b);
      assert e[..8] == EncBlock(b[..8], key) && e[8..] == EncBlock(b[8..], key);
      assert b == b[..8] + b[8..];
    }
  }

  // ---------------------------------------------------------------- in place

  class BanoCipher {
    const alg: Alg
    const key: Key

    /** bano_cipher_init */
    constructor (alg: Alg, key: Key)
      ensures this.alg == alg && this.key == key
    {
      this.alg, this.key := alg, key;
    }

    /** bano_cipher_enc, on 16 bytes from off on; the algorithm AES is not supported. */
    method Enc(data: array<bv8>, off: nat) returns (error: int)
      requires off + 16 <= data.Length
      modifies data
      ensures error == if alg == ALG_AES then -1 else 0
      ensures data[..off] == old(data[..off]) && data[off + 16..] == old(data[off + 16..])
      ensures data[off..off + 16] == Enciphered(alg, key, old(data[off..off + 16]))
    {
      hide EncBlock;
      ghost var s := data[..];
      assert s == s[..off] + s[off..off + 16] + s[off + 16..];
      match alg
      case ALG_NONE =>
        error := 0;
      case ALG_XTEA =>
        XteaEnc(data, off, key);
        assert data[off + 8..off + 16] == s[off..off + 16][8..];
        XteaEnc(data, off + 8, key);
        assert s[off..off + 16][..8] == s[off..off + 8];
        error := 0;
      case ALG_AES =>
        error := -1;
    }

    /** bano_cipher_dec */
    method Dec(data: array<bv8>, off: nat) returns (error: int)
      requires off + 16 <= data.Length
      modifies data
      ensures error == if alg == ALG_AES then -1 else 0
      ensures data[..off] == old(data[..off]) && data[off + 16..] == old(data[off + 16..])
      ensures data[off..off + 16] == Deciphered(alg, key, old(data[off..off + 16]))
    {
      hide DecBlock;
      ghost var s := data[..];
      assert s == s[..off] + s[off..off + 16] + s[off + 16..];
      match alg
      case ALG_NONE =>
        error := 0;
      case ALG_XTEA =>
        XteaDec(data, off, key);
        assert data[off + 8..off + 16] == s[off..off + 16][8..];
        XteaDec(data, off + 8, key);
        assert s[off..off + 16][..8] == s[off..off + 8];
        error := 0;
      case ALG_AES =>
        error := -1;
    }
  }

  /** Storing a 32-bit word. */
  method StoreWord(data: array<bv8>, p: nat, w: Word)
    requires p + 4 <= data.Length
    modifies data
    ensures data[..] == old(data[..p]) + WordBytes(w) + old(data[p + 4..])
  {
    hide WordBytes;
    var b := WordBytes(w);
    data[p], data[p + 1], data[p + 2], data[p + 3] := b[0], b[1], b[2], b[3];
  }

  /** The end of xtea_enc and of xtea_dec: both words of a block. */
  method StoreBlock(data: array<bv8>, off: nat, v0: Word, v1: Word)
    requires off + 8 <= data.Length
    modifies data
    ensures data[..] == old(data[..off]) + (WordBytes(v0) + WordBytes(v1)) + old(data[off + 8..])
  {
    hide WordBytes;
    ghost var s := data[..];
    StoreWord(data, off, v0);
    StoreWord(data, off + 4, v1);
    assert data[..] == s[..off] + (WordBytes(v0) + WordBytes(v1)) + s[off + 8..];
  }

  /** xtea_enc with dest == v */
  method XteaEnc(data: array<bv8>, off: nat, k: Key)
    requires off + 8 <= data.Length
    modifies data
    ensures data[..] == old(data[..off]) + EncBlock(old(data[off..off + 8]), k) + old(data[off + 8..])
  {
    hide WordBytes, WordOf, Low, High, Plus, Minus;
    ghost var b := data[off..off + 8];
    var v0, v1 := WordOf(data[off..off + 8], 0), WordOf(data[off..off + 8], 4);
    var sum: Word := 0;
    for i := 0 to ROUNDS
      invariant State(v0, v1, sum) == EncRounds(State(WordOf(b, 0), WordOf(b, 4), 0), k, i)
    {
      v0 := Plus(v0, Low(v1, sum, k));
      sum := Plus(sum, DELTA);
      v1 := Plus(v1, High(v0, sum, k));
    }
    StoreBlock(data, off, v0, v1);
  }

  /** xtea_dec with dest == v */
  method XteaDec(data: array<bv8>, off: nat, k: Key)
    requires off + 8 <= data.Length
    modifies data
    ensures data[..] == old(data[..off]) + DecBlock(old(data[off..off + 8]), k) + old(data[off + 8..])
  {
    hide WordBytes, WordOf, Low, High, Plus, Minus;
    var v0, v1 := WordOf(data[off..off + 8], 0), WordOf(data[off..off + 8], 4);
    var sum: Word := SUM;
    ghost var start := State(v0, v1, sum);
    for i := 0 to ROUNDS
      invariant DecRounds(start, k, ROUNDS) == DecRounds(State(v0, v1, sum), k, ROUNDS - i)
    {
      v1 := Minus(v1, High(v0, sum, k));
      sum := Minus(sum, DELTA);
      v0 := Minus(v0, Low(v1, sum, k));
    }
    StoreBlock(data, off, v0, v1);
  }

  // ---------------------------------------------------------------- messages

  /** The flag BANO_MSG_FLAG_ENC in the first byte of a message, above the two bits of the operation. */
  const ENC_FLAG: bv8 := 0x10

  predicate EncFlag(first: bv8) {
    first & ENC_FLAG != 0
  }

  /** The part of post_io that copies a message and enciphers the copy for a node that wants it. */
  method Outgoing(cipher: BanoCipher, msg: seq<bv8>, ciphered: bool) returns (enc_msg: array<bv8>)
    requires |msg| == MSG_SIZE
    ensures fresh(enc_msg) && enc_msg.Length == MSG_SIZE
    ensures enc_msg[1..] == if ciphered then Enciphered(cipher.alg, cipher.key, msg[1..]) else msg[1..]
    ensures enc_msg[0] == if ciphered then msg[0] | ENC_FLAG else msg[0]
  {
    hide Enciphered;
    enc_msg := new bv8[MSG_SIZE](i requires 0 <= i < MSG_SIZE => msg[i]);
    assert enc_msg[1..] == enc_msg[1..17] == msg[1..] && enc_msg[..1] == [msg[0]];
    if ciphered {
      var error := cipher.Enc(enc_msg, ENC_OFF);
      assert enc_msg[0] == enc_msg[..1][0];
      ghost var rest := enc_msg[1..17];
      enc_msg[0] := enc_msg[0] | ENC_FLAG;
      assert enc_msg[1..] == enc_msg[1..17] == rest;
    }
  }

  /** The part of handle_bano_msg that deciphers a message in place if its flag asks for it. */
  method Incoming(cipher: BanoCipher, msg: array<bv8>)
    requires msg.Length == MSG_SIZE
    modifies msg
    ensures msg[0] == old(msg[0])
    ensures msg[1..] ==
            if EncFlag(old(msg[0])) then Deciphered(cipher.alg, cipher.key, old(msg[1..])) else old(msg[1..])
  {
    hide EncFlag, Deciphered;
    if EncFlag(msg[0]) {
      assert msg[1..] == msg[1..17];
      var error := cipher.Dec(msg, ENC_OFF);
      assert msg[1..] == msg[1..17] && msg[0] == msg[..1][0] == old(msg[..1])[0];
    }
  }

  /** The payload that arrives when a message with this first byte and payload is sent. */
  function Arriving(alg: Alg, key: Key, first: bv8, payload: seq<bv8>, ciphered: bool): (r: seq<bv8>)
    requires |payload| == 16
  {
    var sent := if ciphered then Enciphered(alg, key, payload) else payload;
    if EncFlag(if ciphered then first | ENC_FLAG else first) then Deciphered(alg, key, sent) else sent
  }

  /**
   * A message sent and received under one key keeps its first byte but for the cipher flag. For its
   * payload, see KeptExactly.
   */
  method SendReceive(cipher: BanoCipher, msg: seq<bv8>, ciphered: bool) returns (received: array<bv8>)
    requires |msg| == MSG_SIZE
    ensures received.Length == MSG_SIZE
    ensures received[1..] == Arriving(cipher.alg, cipher.key, msg[0], msg[1..], ciphered)
    ensures ciphered || !EncFlag(msg[0]) || cipher.alg != ALG_XTEA ==> received[1..] == msg[1..]
    ensures received[0] == if ciphered then msg[0] | ENC_FLAG else msg[0]
  {
    hide Enciphered, Deciphered;
    received := Outgoing(cipher, msg, ciphered);
    Incoming(cipher, received);
    if ciphered || !EncFlag(msg[0]) || cipher.alg != ALG_XTEA {
      KeptIf(cipher.alg, cipher.key, msg[0], msg[1..], ciphered);
    }
  }

  /** The payload is kept if the message is ciphered, or does not carry the flag, or nothing is deciphered at all. */
  lemma KeptIf(alg: Alg, key: Key, first: bv8, payload: seq<bv8>, ciphered: bool)
    requires |payload| == 16 && (ciphered || !EncFlag(first) || alg != ALG_XTEA)
    ensures Arriving(alg, key, first, payload, ciphered) == payload
  {
    hide EncBlock, DecBlock;
    CipherInverse(alg, key, payload);
    assert EncFlag(first | ENC_FLAG);
  }

  const ZERO_KEY: Key := [0, 0, 0, 0]

  /** Four rounds of decryption. */
  function FourRounds(s: State, k: Key): State {
    DecRound(DecRound(DecRound(DecRound(s, k), k), k), k)
  }

  lemma FourOf(s: State, k: Key, n: nat, t: State)
    requires n >= 4 && t == FourRounds(s, k)
    ensures DecRounds(s, k, n) == DecRounds(t, k, n - 4)
  {
    hide DecRound;
    var a := DecRound(s, k);
    var b := DecRound(a, k);
    assert DecRounds(s, k, n) == DecRounds(a, k, n - 1) == DecRounds(b, k, n - 2);
    assert DecRounds(b, k, n - 2) == DecRounds(DecRound(b, k), k, n - 3) == DecRounds(t, k, n - 4);
  }

  /** Deciphering zeros under the key of zeros, four rounds at a time. */
  const ZERO_TRACE: seq<State> := [
    State(0x00000000, 0x00000000, 0xC6EF3720),
    State(0xA7025015, 0xFC23C0E4, 0x4E11503C),
    State(0xB254264B, 0x0C1D41F6, 0xD5336958),
    State(0x557E6201, 0xFB293319, 0x5C558274),
    State(0xB040216F, 0xC39D4AC3, 0xE3779B90),
    State(0xF2E28702, 0xDAB6E922, 0x6A99B4AC),
    State(0x317015D9, 0x38407B31, 0xF1BBCDC8),
    State(0x22A44B60, 0x83F5F72E, 0x78DDE6E4),
    State(0x2B6E57D5, 0x667C2111, 0x00000000)]

  lemma ZeroTrace(i: nat)
    requires i < 8
    ensures FourRounds(ZERO_TRACE[i], ZERO_KEY) == ZERO_TRACE[i + 1]
  {
    hide FourRounds;
    if i < 4 { ZeroTraceStart(i); } else { ZeroTraceEnd(i); }
  }

  lemma ZeroTraceStart(i: nat)
    requires 0 <= i < 4
    ensures FourRounds(ZERO_TRACE[i], ZERO_KEY) == ZERO_TRACE[i + 1]
  {
    match i
    case 0 =>
      assert FourRounds(State(0x00000000, 0x00000000, 0xC6EF3720), ZERO_KEY)
             == State(0xA7025015, 0xFC23C0E4, 0x4E11503C);
    case 1 =>
      assert FourRounds(State(0xA7025015, 0xFC23C0E4, 0x4E11503C), ZERO_KEY)
             == State(0xB254264B, 0x0C1D41F6, 0xD5336958);
    case 2 =>
      assert FourRounds(State(0xB254264B, 0x0C1D41F6, 0xD5336958), ZERO_KEY)
             == State(0x557E6201, 0xFB293319, 0x5C558274);
    case 3 =>
      assert FourRounds(State(0x557E6201, 0xFB293319, 0x5C558274), ZERO_KEY)
             == State(0xB040216F, 0xC39D4AC3, 0xE3779B90);
    case _ =>
  }

  lemma ZeroTraceEnd(i: nat)
    requires 4 <= i < 8
    ensures FourRounds(ZERO_TRACE[i], ZERO_KEY) == ZERO_TRACE[i + 1]
  {
    match i
    case 4 =>
      assert FourRounds(State(0xB040216F, 0xC39D4AC3, 0xE3779B90), ZERO_KEY)
             == State(0xF2E28702, 0xDAB6E922, 0x6A99B4AC);
    case 5 =>
      assert FourRounds(State(0xF2E28702, 0xDAB6E922, 0x6A99B4AC), ZERO_KEY)
             == State(0x317015D9, 0x38407B31, 0xF1BBCDC8);
    case 6 =>
      assert FourRounds(State(0x317015D9, 0x38407B31, 0xF1BBCDC8), ZERO_KEY)
             == State(0x22A44B60, 0x83F5F72E, 0x78DDE6E4);
    case 7 =>
      assert FourRounds(State(0x22A44B60, 0x83F5F72E, 0x78DDE6E4), ZERO_KEY)
             == State(0x2B6E57D5, 0x667C2111, 0x00000000);
    case _ =>
  }

  lemma ZeroRounds()
    ensures DecRounds(State(0, 0, SUM), ZERO_KEY, ROUNDS) == ZERO_TRACE[8]
  {
    hide DecRounds, FourRounds;
    for i := 0 to 8
      invariant DecRounds(ZERO_TRACE[0], ZERO_KEY, 32) == DecRounds(ZERO_TRACE[i], ZERO_KEY, 32 - 4 * i)
    {
      ZeroTrace(i);
      FourOf(ZERO_TRACE[i], ZERO_KEY, 32 - 4 * i, ZERO_TRACE[i + 1]);
    }
    NoRounds(ZERO_TRACE[8], ZERO_KEY);
  }

  lemma NoRounds(s: State, k: Key)
    ensures DecRounds(s, k, 0) == s
  {
  }

  /** Sixteen zeros, which XTEA deciphers to something else under the key of zeros. */
  const ZEROS: seq<bv8> := [0, 0, 0, 0, 0, 0, 0, 0, 0, 0, 0, 0, 0, 0, 0, 0]

  lemma ZerosChange()
    ensures Deciphered(ALG_XTEA, ZERO_KEY, ZEROS) != ZEROS
  {
    hide DecRounds;
    ZeroRounds();
    var b := ZEROS[..8];
    assert WordOf(b, 0) == 0 && WordOf(b, 4) == 0;
    assert DecBlock(b, ZERO_KEY)[0] == 0xD5;
  }

  /**
   * Exactly when every payload arrives as it was sent, whatever the key: unless XTEA deciphers a message
   * that carries the flag without having been ciphered.
   */
  lemma KeptExactly(alg: Alg, first: bv8, ciphered: bool)
    ensures (forall key: Key, payload: seq<bv8> | |payload| == 16 ::
               Arriving(alg, key, first, payload, ciphered) == payload)
            <==> ciphered || !EncFlag(first) || alg != ALG_XTEA
  {
    hide Arriving, Deciphered, EncFlag;
    if ciphered || !EncFlag(first) || alg != ALG_XTEA {
      forall key: Key, payload: seq<bv8> | |payload| == 16
        ensures Arriving(alg, key, first, payload, ciphered) == payload
      {
        KeptIf(alg, key, first, payload, ciphered);
      }
    } else {
      ZerosArrive(first);
    }
  }

  lemma ZerosArrive(first: bv8)
    requires EncFlag(first)
    ensures Arriving(ALG_XTEA, ZERO_KEY, first, ZEROS, false) != ZEROS
  {
    hide Deciphered;
    ZerosChange();
  }

  // ---------------------------------------------------------------- the key schedule, and a known answer

  /** The word of the key that changes v1 in each round; v0 is changed by the four words in turn. */
  const HIGH_WORDS: seq<nat> := [
    3, 2, 1, 0, 0, 3, 2, 1, 0, 0, 3, 2, 1, 1, 0, 3,
    2, 1, 1, 0, 3, 2, 1, 1, 0, 3, 2, 2, 1, 0, 3, 2]

  /** The sum before each of the 32 rounds, and at the end. */
  const SUMS: seq<Word> := [
    0x00000000, 0x9E3779B9, 0x3C6EF372, 0xDAA66D2B, 0x78DDE6E4, 0x1715609D, 0xB54CDA56, 0x5384540F,
    0xF1BBCDC8, 0x8FF34781, 0x2E2AC13A, 0xCC623AF3, 0x6A99B4AC, 0x08D12E65, 0xA708A81E, 0x454021D7,
    0xE3779B90, 0x81AF1549, 0x1FE68F02, 0xBE1E08BB, 0x5C558274, 0xFA8CFC2D, 0x98C475E6, 0x36FBEF9F,
    0xD5336958, 0x736AE311, 0x11A25CCA, 0xAFD9D683, 0x4E11503C, 0xEC48C9F5, 0x8A8043AE, 0x28B7BD67,
    0xC6EF3720]

  /** Row n of the two tables. */
  predicate Fits(n: nat) {
    n < ROUNDS && |SUMS| == ROUNDS + 1 && |HIGH_WORDS| == ROUNDS
    && SUMS[n] + DELTA == SUMS[n + 1]
    && (SUMS[n] & 3) as nat == n % 4 && ((SUMS[n + 1] >> 11) & 3) as nat == HIGH_WORDS[n]
  }

  lemma FitsTo8(n: nat)
    requires 0 <= n < 8
    ensures Fits(n)
  {
    assert Fits(0) && Fits(1) && Fits(2) && Fits(3) && Fits(4) && Fits(5) && Fits(6) && Fits(7);
  }

  lemma FitsTo16(n: nat)
    requires 8 <= n < 16
    ensures Fits(n)
  {
    assert Fits(8) && Fits(9) && Fits(10) && Fits(11) && Fits(12) && Fits(13) && Fits(14) && Fits(15);
  }

  lemma FitsTo24(n: nat)
    requires 16 <= n < 24
    ensures Fits(n)
  {
    assert Fits(16) && Fits(17) && Fits(18) && Fits(19) && Fits(20) && Fits(21) && Fits(22) && Fits(23);
  }

  lemma FitsTo32(n: nat)
    requires 24 <= n < 32
    ensures Fits(n)
  {
    assert Fits(24) && Fits(25) && Fits(26) && Fits(27) && Fits(28) && Fits(29) && Fits(30) && Fits(31);
  }

  lemma {:induction false} SumsAre(n: nat)
    requires n <= ROUNDS
    ensures |SUMS| == ROUNDS + 1 && SumAt(n) == SUMS[n]
    ensures n < ROUNDS ==> Fits(n)
  {
    hide Fits;
    if n < ROUNDS {
      if n < 8 { FitsTo8(n); } else if n < 16 { FitsTo16(n); } else if n < 24 { FitsTo24(n); } else { FitsTo32(n); }
    }
    if n > 0 {
      SumsAre(n - 1);
      FitsStep(n - 1);
    }
  }

  lemma FitsStep(n: nat)
    requires Fits(n)
    ensures SUMS[n] + DELTA == SUMS[n + 1]
  {
  }

  /** What selects the words of the key in round n. */
  lemma Selected(n: nat)
    requires n < ROUNDS
    ensures |HIGH_WORDS| == ROUNDS && HIGH_WORDS[n] < 4
    ensures (SumAt(n) & 3) as nat == n % 4 && ((Plus(SumAt(n), DELTA) >> 11) & 3) as nat == HIGH_WORDS[n]
  {
    hide SumAt;
    SumsAre(n);
  }

  /**
   * Round n of the 32: which word of the key each half of it takes, and that the second half uses the new v0
   * and the new sum.
   */
  lemma RoundWords(s: State, k: Key, n: nat)
    requires n < ROUNDS && s.sum == SumAt(n)
    ensures |HIGH_WORDS| == ROUNDS && HIGH_WORDS[n] < 4
    ensures var v0 := Plus(s.v0, Mix(s.v1, s.sum, k[n % 4]));
            var sum := Plus(s.sum, DELTA);
            EncRound(s, k) == State(v0, Plus(s.v1, Mix(v0, sum, k[HIGH_WORDS[n]])), sum)
  {
    hide SumAt, Plus, Mix;
    Selected(n);
  }

  /** Four rounds of encryption. */
  function FourEnc(s: State, k: Key): State {
    EncRound(EncRound(EncRound(EncRound(s, k), k), k), k)
  }

  lemma FourEncOf(s: State, k: Key, n: nat)
    ensures EncRounds(s, k, n + 4) == FourEnc(EncRounds(s, k, n), k)
  {
    hide EncRound;
    var a := EncRounds(s, k, n);
    assert EncRounds(s, k, n + 1) == EncRound(a, k);
    assert EncRounds(s, k, n + 2) == EncRound(EncRound(a, k), k);
    assert EncRounds(s, k, n + 3) == EncRound(EncRound(EncRound(a, k), k), k);
  }

  const FOUR_KEY: Key := [0x00010203, 0x04050607, 0x08090A0B, 0x0C0D0E0F]

  /** Enciphering one block under a key of four different words, four rounds at a time. */
  const KNOWN_TRACE: seq<State> := [
    State(0x41424344, 0x45464748, 0x00000000),
    State(0xA3DE6C88, 0xF1E7792D, 0x78DDE6E4),
    State(0x8F65016F, 0xCE368FE5, 0xF1BBCDC8),
    State(0xEB8E9954, 0x24E5DFEF, 0x6A99B4AC),
    State(0xDEA0B0B4, 0x0966B066, 0xE3779B90),
    State(0x97856208, 0x1099631C, 0x5C558274),
    State(0xC1CDCCFE, 0x6F593666, 0xD5336958),
    State(0xC471004F, 0x5097C822, 0x4E11503C),
    State(0x497DF3D0, 0x72612CB5, 0xC6EF3720)]

  lemma KnownTo3(i: nat)
    requires 0 <= i < 3
    ensures FourEnc(KNOWN_TRACE[i], FOUR_KEY) == KNOWN_TRACE[i + 1]
  {
    match i
    case 0 =>
      assert FourEnc(State(0x41424344, 0x45464748, 0x00000000), FOUR_KEY)
             == State(0xA3DE6C88, 0xF1E7792D, 0x78DDE6E4);
    case 1 =>
      assert FourEnc(State(0xA3DE6C88, 0xF1E7792D, 0x78DDE6E4), FOUR_KEY)
             == State(0x8F65016F, 0xCE368FE5, 0xF1BBCDC8);
    case 2 =>
      assert FourEnc(State(0x8F65016F, 0xCE368FE5, 0xF1BBCDC8), FOUR_KEY)
             == State(0xEB8E9954, 0x24E5DFEF, 0x6A99B4AC);
    case _ =>
  }

  lemma KnownTo6(i: nat)
    requires 3 <= i < 6
    ensures FourEnc(KNOWN_TRACE[i], FOUR_KEY) == KNOWN_TRACE[i + 1]
  {
    match i
    case 3 =>
      assert FourEnc(State(0xEB8E9954, 0x24E5DFEF, 0x6A99B4AC), FOUR_KEY)
             == State(0xDEA0B0B4, 0x0966B066, 0xE3779B90);
    case 4 =>
      assert FourEnc(State(0xDEA0B0B4, 0x0966B066, 0xE3779B90), FOUR_KEY)
             == State(0x97856208, 0x1099631C, 0x5C558274);
    case 5 =>
      assert FourEnc(State(0x97856208, 0x1099631C, 0x5C558274), FOUR_KEY)
             == State(0xC1CDCCFE, 0x6F593666, 0xD5336958);
    case _ =>
  }

  lemma KnownTo8(i: nat)
    requires 6 <= i < 8
    ensures FourEnc(KNOWN_TRACE[i], FOUR_KEY) == KNOWN_TRACE[i + 1]
  {
    match i
    case 6 =>
      assert FourEnc(State(0xC1CDCCFE, 0x6F593666, 0xD5336958), FOUR_KEY)
             == State(0xC471004F, 0x5097C822, 0x4E11503C);
    case 7 =>
      assert FourEnc(State(0xC471004F, 0x5097C822, 0x4E11503C), FOUR_KEY)
             == State(0x497DF3D0, 0x72612CB5, 0xC6EF3720);
    case _ =>
  }

  lemma KnownRounds()
    ensures EncRounds(KNOWN_TRACE[0], FOUR_KEY, ROUNDS) == KNOWN_TRACE[8]
  {
    hide EncRounds, FourEnc;
    NoEncRounds(KNOWN_TRACE[0], FOUR_KEY);
    for i := 0 to 8
      invariant EncRounds(KNOWN_TRACE[0], FOUR_KEY, 4 * i) == KNOWN_TRACE[i]
    {
      if i < 3 { KnownTo3(i); } else if i < 6 { KnownTo6(i); } else { KnownTo8(i); }
      FourEncOf(KNOWN_TRACE[0], FOUR_KEY, 4 * i);
    }
  }

  lemma NoEncRounds(s: State, k: Key)
    ensures EncRounds(s, k, 0) == s
  {
  }

  /** A block of which the cipher is known, in bytes. */
  lemma KnownAnswer()
    ensures EncBlock([0x44, 0x43, 0x42, 0x41, 0x48, 0x47, 0x46, 0x45], FOUR_KEY)
            == [0xD0, 0xF3, 0x7D, 0x49, 0xB5, 0x2C, 0x61, 0x72]
    ensures DecBlock([0xD0, 0xF3, 0x7D, 0x49, 0xB5, 0x2C, 0x61, 0x72], FOUR_KEY)
            == [0x44, 0x43, 0x42, 0x41, 0x48, 0x47, 0x46, 0x45]
  {
    hide EncRounds, DecBlock;
    var b: seq<bv8> := [0x44, 0x43, 0x42, 0x41, 0x48, 0x47, 0x46, 0x45];
    KnownRounds();
    assert WordOf(b, 0) == 0x41424344 && WordOf(b, 4) == 0x45464748;
    assert WordBytes(0x497DF3D0) == [0xD0, 0xF3, 0x7D, 0x49] && WordBytes(0x72612CB5) == [0xB5, 0x2C, 0x61, 0x72];
    BlockInverse(b, FOUR_KEY);
  }
}
