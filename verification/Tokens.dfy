/** The length and distance tables of DEFLATE and the meaning of its symbols (RFC 1951, 3.2.5). */
module Tokens {
  import opened Bits

  const FIRST_LENGTH_CODE_INDEX: nat := 257
  const LAST_LENGTH_CODE_INDEX: nat := 285
  const MAX_SUPPORTED_DEFLATE_LENGTH: nat := 258

  const LENGTHBASE: seq<nat> :=
    [3, 4, 5, 6, 7, 8, 9, 10, 11, 13, 15, 17, 19, 23, 27, 31, 35, 43, 51, 59,
     67, 83, 99, 115, 131, 163, 195, 227, 258]

  const LENGTHEXTRA: seq<nat> :=
    [0, 0, 0, 0, 0, 0, 0, 0, 1, 1, 1, 1, 2, 2, 2, 2, 3, 3, 3, 3,
     4, 4, 4, 4, 5, 5, 5, 5, 0]

  const DISTANCEBASE: seq<nat> :=
    [1, 2, 3, 4, 5, 7, 9, 13, 17, 25, 33, 49, 65, 97, 129, 193, 257, 385, 513,
     769, 1025, 1537, 2049, 3073, 4097, 6145, 8193, 12289, 16385, 24577]

  const DISTANCEEXTRA: seq<nat> :=
    [0, 0, 0, 0, 1, 1, 2, 2, 3, 3, 4, 4, 5, 5, 6, 6, 7, 7, 8,
     8, 9, 9, 10, 10, 11, 11, 12, 12, 13, 13]

  /** A literal byte, or a copy of earlier output given by its four numbers in the stream. */
  datatype Token = Literal(b: byte) | Match(lcode: nat, lextra: nat, dcode: nat, dextra: nat)

  predicate TokenOk(t: Token) {
    t.Match? ==>
      && t.lcode < 29 && t.lextra < Pow2(LENGTHEXTRA[t.lcode])
      && t.dcode < 30 && t.dextra < Pow2(DISTANCEEXTRA[t.dcode])
  }

  function Length(t: Token): (n: nat)
    requires TokenOk(t) && t.Match?
  {
    LENGTHBASE[t.lcode] + t.lextra
  }

  function Distance(t: Token): (d: nat)
    requires TokenOk(t) && t.Match?
  {
    DISTANCEBASE[t.dcode] + t.dextra
  }

  // ---------------------------------------------------------------- the encoder's list of numbers

  function Numbers(t: Token): seq<nat> {
    match t
    case Literal(b) => [b]
    case Match(lc, le, dc, de) => [lc + FIRST_LENGTH_CODE_INDEX, le, dc, de]
  }

  /** The tokens as the flat list of numbers that the encoder keeps them in. */
  function Flatten(tokens: seq<Token>): (values: seq<nat>) {
    if tokens == [] then [] else Flatten(tokens[..|tokens| - 1]) + Numbers(tokens[|tokens| - 1])
  }

  lemma FlattenSnoc(tokens: seq<Token>, t: Token)
    ensures Flatten(tokens + [t]) == Flatten(tokens) + Numbers(t)
  {
    assert (tokens + [t])[..|tokens|] == tokens;
  }

  // ---------------------------------------------------------------- meaning

  /** A copy proceeds byte by byte, so that it may read what it has just written. */
  function CopyBytes(out: seq<byte>, distance: nat, length: nat): (r: seq<byte>)
    requires 0 < distance <= |out|
    ensures |r| == |out| + length
    decreases length
  {
    if length == 0 then out
    else CopyBytes(out, distance, length - 1) + [CopyBytes(out, distance, length - 1)[|out| + length - 1 - distance]]
  }

  /** A copy must not reach before the start of the output. */
  predicate Fits(out: seq<byte>, t: Token) {
    TokenOk(t) && (t.Match? ==> 0 < Distance(t) <= |out|)
  }

  function Apply(out: seq<byte>, t: Token): (r: seq<byte>)
    requires Fits(out, t)
  {
    match t
    case Literal(b) => out + [b]
    case Match(_, _, _, _) => CopyBytes(out, Distance(t), Length(t))
  }

  /** All tokens make sense one after the other. */
  predicate Sensible(out: seq<byte>, tokens: seq<Token>)
    decreases |tokens|, 0
  {
    tokens == [] ||
    (Sensible(out, tokens[..|tokens| - 1])
     && Fits(Expand(out, tokens[..|tokens| - 1]), tokens[|tokens| - 1]))
  }

  /** The output after all tokens. */
  function Expand(out: seq<byte>, tokens: seq<Token>): (r: seq<byte>)
    requires Sensible(out, tokens)
    decreases |tokens|, 1
  {
    if tokens == [] then out
    else Apply(Expand(out, tokens[..|tokens| - 1]), tokens[|tokens| - 1])
  }

  lemma ExpandSnoc(out: seq<byte>, tokens: seq<Token>, t: Token)
    requires Sensible(out, tokens) && Fits(Expand(out, tokens), t)
    ensures Sensible(out, tokens + [t])
    ensures Expand(out, tokens + [t]) == Apply(Expand(out, tokens), t)
  {
    assert (tokens + [t])[..|tokens|] == tokens;
  }

  /** A prefix of sensible tokens is sensible. */
  lemma {:induction false} SensiblePrefix(out: seq<byte>, tokens: seq<Token>, n: nat)
    requires Sensible(out, tokens) && n <= |tokens|
    ensures Sensible(out, tokens[..n])
    decreases |tokens|
  {
    if n == |tokens| {
      assert tokens[..n] == tokens;
    } else {
      assert tokens[..|tokens| - 1][..n] == tokens[..n];
      SensiblePrefix(out, tokens[..|tokens| - 1], n);
    }
  }

  /** If every byte of data from p on equals the byte `distance` earlier, the copy yields data. */
  lemma {:induction false} CopyIsSlice(data: seq<byte>, p: nat, distance: nat, length: nat)
    requires 0 < distance <= p && p + length <= |data|
    requires forall k | p <= k < p + length :: data[k] == data[k - distance]
    ensures CopyBytes(data[..p], distance, length) == data[..p + length]
  {
    if length > 0 {
      CopyIsSlice(data, p, distance, length - 1);
      assert data[p + length - 1] == data[p + length - 1 - distance];
    }
  }

  // ---------------------------------------------------------------- finding codes

  /** searchCodeIndex: binary search for the last entry that is not above the value. */
  method SearchCodeIndex(table: seq<nat>, value: nat) returns (index: nat)
    requires table != [] && Increasing(table)
    ensures index < |table|
    ensures table[0] <= value ==> table[index] <= value && (index + 1 < |table| ==> value < table[index + 1])
    ensures value < table[0] ==> index == |table| - 1
  {
    var left, right := 1, |table| - 1;
    while left <= right
      invariant 1 <= left <= |table| && 0 <= right < |table| && left <= right + 1
      invariant value >= table[0] ==> table[left - 1] <= value
      invariant value < table[0] ==> left == 1
      invariant right + 1 < |table| ==> value < table[right]
      decreases right - left
    {
      var mid := (left + right) / 2;
      if table[mid] <= value {
        left := mid + 1;
      } else if table[mid - 1] > value {
        right := mid - 1;
      } else {
        return mid - 1;
      }
    }
    return |table| - 1;
  }

  lemma SmallPowers()
    ensures Pow2(0) == 1 && Pow2(1) == 2 && Pow2(2) == 4 && Pow2(3) == 8 && Pow2(4) == 16 && Pow2(5) == 32
    ensures Pow2(6) == 64 && Pow2(7) == 128 && Pow2(8) == 256 && Pow2(9) == 512 && Pow2(10) == 1024
    ensures Pow2(11) == 2048 && Pow2(12) == 4096 && Pow2(13) == 8192 && Pow2(14) == 16384 && Pow2(15) == 32768
  {
    assert Pow2(5) == 32 && Pow2(10) == 1024;
  }

  /** The extra bits of a code cover all values up to the next base. */
  lemma LengthTable(i: nat)
    requires i < 29
    ensures (if i < 28 then LENGTHBASE[i + 1] else 259) <= LENGTHBASE[i] + Pow2(LENGTHEXTRA[i])
    ensures LENGTHBASE[i] + Pow2(LENGTHEXTRA[i]) <= 260
  {
    SmallPowers();
  }

  lemma DistanceTable(i: nat)
    requires i < 30
    ensures (if i < 29 then DISTANCEBASE[i + 1] else 32769) <= DISTANCEBASE[i] + Pow2(DISTANCEEXTRA[i])
    ensures 0 < DISTANCEBASE[i]
  {
    SmallPowers();
  }

  /** The tables of RFC 1951, 3.2.5, by their construction: four codes for every width of lengths, ... */
  lemma LengthTableIs(i: nat)
    requires i < 29
    ensures LENGTHEXTRA[i] == if i < 8 || i == 28 then 0 else (i - 4) / 4
    ensures LENGTHBASE[i] == if i < 8 then 3 + i else if i == 28 then 258 else 3 + (4 + i % 4) * Pow2((i - 4) / 4)
  {
    hide Pow2;
    SmallPowers();
  }

  /** ... and two for every width of distances. */
  lemma DistanceTableIs(i: nat)
    requires i < 30
    ensures DISTANCEEXTRA[i] == if i < 4 then 0 else (i - 2) / 2
    ensures DISTANCEBASE[i] == if i < 2 then 1 + i else 1 + (2 + i % 2) * Pow2((i - 2) / 2)
  {
    hide Pow2;
    SmallPowers();
  }

  lemma TableSizes()
    ensures |LENGTHBASE| == |LENGTHEXTRA| == 29 && |DISTANCEBASE| == |DISTANCEEXTRA| == 30
  {
  }

  ghost predicate Increasing(table: seq<nat>) {
    forall i, j | 0 <= i < j < |table| :: table[i] < table[j]
  }

  lemma TablesSorted()
    ensures Increasing(LENGTHBASE) && Increasing(DISTANCEBASE)
  {
    StepByStep(LENGTHBASE);
    StepByStep(DISTANCEBASE);
  }

  lemma StepByStep(table: seq<nat>)
    requires forall i | 0 < i < |table| :: table[i - 1] < table[i]
    ensures Increasing(table)
  {
    forall i, j | 0 <= i < j < |table| ensures table[i] < table[j] { Further(table, i, j); }
  }

  lemma {:induction false} Further(table: seq<nat>, i: nat, j: nat)
    requires i < j < |table| && forall k | 0 < k < |table| :: table[k - 1] < table[k]
    ensures table[i] < table[j]
  {
    if i + 1 < j { Further(table, i, j - 1); }
  }

  /** addLengthDistance: append the four numbers of a copy. */
  method AddLengthDistance(values: seq<nat>, length: nat, distance: nat) returns (r: seq<nat>, ghost t: Token)
    requires 3 <= length <= MAX_SUPPORTED_DEFLATE_LENGTH && 1 <= distance <= 32768
    ensures r == values + Numbers(t)
    ensures t.Match? && TokenOk(t) && Length(t) == length && Distance(t) == distance
  {
    TablesSorted();
    hide Pow2;
    var length_code := SearchCodeIndex(LENGTHBASE, length);
    var extra_length := length - LENGTHBASE[length_code];
    var dist_code := SearchCodeIndex(DISTANCEBASE, distance);
    var extra_distance := distance - DISTANCEBASE[dist_code];
    LengthTable(length_code);
    DistanceTable(dist_code);
    t := Match(length_code, extra_length, dist_code, extra_distance);
    r := values + [length_code + FIRST_LENGTH_CODE_INDEX] + [extra_length] + [dist_code] + [extra_distance];
  }
}
