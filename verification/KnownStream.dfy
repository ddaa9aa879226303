/**
 * A dynamic DEFLATE block, byte by byte: what the tables, the order of the code lengths, the repeat codes, the
 * canonical codes and the two bit orders of the format amount to on twenty bytes.
 */
module KnownStream {
  import opened Bits
  import opened Canonical
  import opened Tokens
  import opened Format
  import CL = CodeLengths
  import Inflate

  /** The stream, ... */
  const STREAM: seq<byte> := [77, 196, 39, 1, 0, 0, 0, 195, 48, 173, 59, 254, 53, 148, 22, 36, 233, 158, 122, 0]

  /** ... and the text that it stands for: "abcdab" three times. */
  const TEXT: seq<byte> := [97, 98, 99, 100, 97, 98, 97, 98, 99, 100, 97, 98, 97, 98, 99, 100, 97, 98]

  function Stream(): Bitstring {
    BitsOf(STREAM)
  }

  /** Byte i of the stream */
  function Value(i: nat): byte {
    match i
    case 0 => 77
    case 1 => 196
    case 2 => 39
    case 3 => 1
    case 4 => 0
    case 5 => 0
    case 6 => 0
    case 7 => 195
    case 8 => 48
    case 9 => 173
    case 10 => 59
    case 11 => 254
    case 12 => 53
    case 13 => 148
    case 14 => 22
    case 15 => 36
    case 16 => 233
    case 17 => 158
    case 18 => 122
    case _ => 0
  }

  lemma ValueIs(i: nat)
    requires i < 20
    ensures |STREAM| == 20 && STREAM[i] == Value(i)
  {
  }

  predicate Taken(p: nat) {
    Odd(Value(p / 8), p % 8)
  }

  /** Bit k of v, by division. */
  predicate Odd(v: nat, k: nat) {
    Quotient(v, k) % 2 == 1
  }

  lemma TakenIs(p: nat)
    requires p < 8 * |STREAM|
    ensures Taken(p) == Bit(STREAM, p)
  {
    hide Shr, Value, Quotient;
    ValueIs(p / 8);
    QuotientIs(STREAM[p / 8], p % 8);
  }

  /** Up to five bits that are read off the stream one by one. */
  lemma Stands(p: nat, bits: Bitstring)
    requires |bits| <= 5 && p + |bits| <= 160
    requires |bits| > 0 ==> Taken(p) == bits[0]
    requires |bits| > 1 ==> Taken(p + 1) == bits[1]
    requires |bits| > 2 ==> Taken(p + 2) == bits[2]
    requires |bits| > 3 ==> Taken(p + 3) == bits[3]
    requires |bits| > 4 ==> Taken(p + 4) == bits[4]
    ensures At(Stream(), p, bits)
  {
    hide Bit, Taken;
    var t := Stream()[p..p + |bits|];
    forall k | 0 <= k < |bits| ensures t[k] == bits[k] {
      TakenIs(p + k);
    }
  }

  /** A number of up to seven bits. */
  lemma NumberStands(p: nat, v: nat, n: nat)
    requires n <= 7 && p + n <= 160
    requires n > 0 ==> Taken(p) == Odd(v, 0)
    requires n > 1 ==> Taken(p + 1) == Odd(v, 1)
    requires n > 2 ==> Taken(p + 2) == Odd(v, 2)
    requires n > 3 ==> Taken(p + 3) == Odd(v, 3)
    requires n > 4 ==> Taken(p + 4) == Odd(v, 4)
    requires n > 5 ==> Taken(p + 5) == Odd(v, 5)
    requires n > 6 ==> Taken(p + 6) == Odd(v, 6)
    ensures At(Stream(), p, Lsb(v, n))
  {
    hide Bit, Taken, Quotient, Shr, Lsb;
    var t := Stream()[p..p + n];
    forall k | 0 <= k < n ensures t[k] == Lsb(v, n)[k] {
      TakenIs(p + k);
      QuotientIs(v, k);
      LsbAt(v, n, k);
    }
  }

  // ---------------------------------------------------------------- the trees

  /** Four letters of three bits; the end of the block and the lengths 11 and 12 of two. */
  function LlLens(): (s: seq<nat>)
    ensures |s| == 266
  {
    seq(266, i => if 97 <= i <= 100 then 3 else if i == 256 || i == 265 then 2 else 0)
  }

  /** Two distance codes of one bit. */
  function DLens(): (s: seq<nat>)
    ensures |s| == 5
  {
    seq(5, i => if i >= 3 then 1 else 0)
  }

  /** The lengths 1, 2 and 3 and the repeat code 16 have three bits, the other repeat codes two. */
  function ClLens(): (s: seq<nat>)
    ensures |s| == 19
  {
    seq(19, i => if i == 17 || i == 18 then 2 else if i == 16 || 1 <= i <= 3 then 3 else 0)
  }

  const OPS: seq<CL.Op> := [
    CL.ManyZeros(97), CL.Single(3), CL.Repeat(3), CL.ManyZeros(138), CL.ManyZeros(17), CL.Single(2), CL.Zeros(8),
    CL.Single(2), CL.Zeros(3), CL.Single(1), CL.Single(1)]

  function KnownTrees(): Trees {
    Trees(LlLens(), DLens(), ClLens(), 18, OPS)
  }

  lemma {:induction false} LlCount(m: nat, l: nat)
    requires m <= 266 && 0 < l
    ensures Count(LlLens()[..m], l) ==
            if l == 3 then (if m <= 97 then 0 else if m <= 101 then m - 97 else 4)
            else if l == 2 then (if m <= 256 then 0 else if m <= 265 then 1 else 2)
            else 0
    ensures Bounded(LlLens()[..m], 15)
    ensures Kraft(LlLens()[..m], 15) ==
            if m <= 97 then 0 else if m <= 101 then 4096 * (m - 97) else if m <= 256 then 16384
            else if m <= 265 then 24576 else 32768
  {
    if m > 0 {
      LlCount(m - 1, l);
      assert LlLens()[..m][..m - 1] == LlLens()[..m - 1];
      SmallPowers();
    }
  }

  lemma {:induction false} DCount(m: nat, l: nat)
    requires m <= 5 && 0 < l
    ensures Count(DLens()[..m], l) == if l == 1 && m > 3 then m - 3 else 0
    ensures Bounded(DLens()[..m], 15) && Kraft(DLens()[..m], 15) == if m <= 3 then 0 else 16384 * (m - 3)
  {
    if m > 0 {
      DCount(m - 1, l);
      assert DLens()[..m][..m - 1] == DLens()[..m - 1];
      SmallPowers();
    }
  }

  lemma {:induction false} ClCount(m: nat, l: nat)
    requires m <= 19 && 0 < l
    ensures Count(ClLens()[..m], l) ==
            if l == 3 then (if m <= 1 then 0 else if m <= 4 then m - 1 else if m <= 16 then 3 else 4)
            else if l == 2 then (if m <= 17 then 0 else m - 17)
            else 0
    ensures Bounded(ClLens()[..m], 7)
    ensures Kraft(ClLens()[..m], 7) ==
            if m <= 1 then 0 else if m <= 4 then 16 * (m - 1) else if m <= 16 then 48
            else if m == 17 then 64 else 64 + 32 * (m - 17)
  {
    if m > 0 {
      ClCount(m - 1, l);
      assert ClLens()[..m][..m - 1] == ClLens()[..m - 1];
      SmallPowers();
    }
  }

  lemma Whole()
    ensures LlLens()[..266] == LlLens() && DLens()[..5] == DLens() && ClLens()[..19] == ClLens()
  {
  }

  lemma LensComplete()
    ensures Complete(LlLens(), 15) && Complete(DLens(), 15) && Complete(ClLens(), 7)
  {
    hide LlLens, DLens, ClLens, Kraft;
    Whole();
    LlCount(266, 1);
    DCount(5, 1);
    ClCount(19, 1);
    SmallPowers();
  }

  lemma LlLength(n: nat)
    requires 97 <= n <= 100 || n == 256 || n == 265
    ensures LlLens()[n] == if n <= 100 then 3 else 2
  {
  }

  lemma LlFirst()
    ensures First(LlLens(), 2) == 0 && First(LlLens(), 3) == 4
  {
    hide LlLens, Count, Kraft, Bounded;
    Whole();
    LlCount(266, 1);
    LlCount(266, 2);
  }

  /** The codes of the symbols that occur. */
  lemma LlCodes(n: nat)
    requires 97 <= n <= 100 || n == 256 || n == 265
    ensures Present(LlLens(), n)
    ensures Code(LlLens(), n) == if n == 256 then [false, false] else if n == 265 then [false, true]
                                 else if n == 97 then [true, false, false] else if n == 98 then [true, false, true]
                                 else if n == 99 then [true, true, false] else [true, true, true]
  {
    hide LlLens, Count, Kraft, Bounded, First;
    var s := LlLens();
    LlLength(n);
    LlFirst();
    LlCount(n, s[n]);
    CodeBits(s, n, if n == 256 then 0 else if n == 265 then 1 else n - 93);
  }

  lemma CodeBits(lens: seq<nat>, n: nat, v: nat)
    requires n < |lens| && 1 <= lens[n] <= 3 && v < 8 && CodeValue(lens, n) == v
    ensures Code(lens, n) == if lens[n] == 1 then [v % 2 == 1]
                             else if lens[n] == 2 then [v / 2 % 2 == 1, v % 2 == 1]
                             else [v / 4 % 2 == 1, v / 2 % 2 == 1, v % 2 == 1]
  {
    hide CodeValue;
    assert Msb(v, 1) == [v % 2 == 1];
    assert Msb(v, 2) == Msb(v / 2, 1) + [v % 2 == 1] == [v / 2 % 2 == 1, v % 2 == 1];
    assert Msb(v, 3) == Msb(v / 2, 2) + [v % 2 == 1];
  }

  lemma DCodes()
    ensures Present(DLens(), 4) && Code(DLens(), 4) == [true]
  {
    var s := DLens();
    assert s[4] == 1;
    hide DLens, Count, Kraft, Bounded;
    DCount(4, 1);
    CodeBits(s, 4, 1);
  }

  lemma ClCodes(n: nat)
    requires 1 <= n <= 3 || 16 <= n <= 18
    ensures Present(ClLens(), n)
    ensures Code(ClLens(), n) == if n == 17 then [false, false] else if n == 18 then [false, true]
                                 else if n == 1 then [true, false, false] else if n == 2 then [true, false, true]
                                 else if n == 3 then [true, true, false] else [true, true, true]
  {
    var s := ClLens();
    assert s[n] == if n >= 17 then 2 else 3;
    hide ClLens, Count, Kraft, Bounded;
    Whole();
    ClCount(19, 1);
    ClCount(19, 2);
    ClCount(n, s[n]);
    assert First(s, 2) == 0 && First(s, 3) == 4;
    CodeBits(s, n, if n == 17 then 0 else if n == 18 then 1 else if n == 16 then 7 else n + 3);
  }

  // ---------------------------------------------------------------- the code lengths

  /** The first k operations stand for the first n lengths of both alphabets, and one more for m more. */
  lemma OpStep(k: nat, n: nat, m: nat)
    requires k < |OPS| && n + m <= 271
    requires CL.OpsOk(OPS[..k]) && CL.ExpandOps(OPS[..k]) == (LlLens() + DLens())[..n]
    requires CL.OpOk((LlLens() + DLens())[..n], OPS[k])
    requires CL.Meaning((LlLens() + DLens())[..n], OPS[k]) == (LlLens() + DLens())[n..n + m]
    ensures CL.OpsOk(OPS[..k + 1]) && CL.ExpandOps(OPS[..k + 1]) == (LlLens() + DLens())[..n + m]
  {
    hide CL.OpsOk, CL.ExpandOps, CL.OpOk, CL.Meaning, LlLens, DLens;
    var all := LlLens() + DLens();
    CL.ExpandSnoc(OPS[..k], OPS[k]);
    assert OPS[..k + 1] == OPS[..k] + [OPS[k]];
    assert all[..n] + all[n..n + m] == all[..n + m];
  }

  lemma OpMeans(k: nat, n: nat)
    requires k < 11 && n == [0, 97, 98, 101, 239, 256, 257, 265, 266, 269, 270][k]
    ensures var all, m := LlLens() + DLens(), [97, 1, 3, 138, 17, 1, 8, 1, 3, 1, 1][k];
            && |OPS| == 11 && n + m <= 271 && CL.OpOk(all[..n], OPS[k])
            && CL.Meaning(all[..n], OPS[k]) == all[n..n + m]
  {
  }

  lemma OpsExpand()
    ensures CL.OpsOk(OPS) && CL.ExpandOps(OPS) == LlLens() + DLens()
  {
    hide CL.OpOk, CL.Meaning, CL.OpsOk, CL.ExpandOps, LlLens, DLens;
    NoOps();
    OpMeans(0, 0);
    OpStep(0, 0, 97);
    OpMeans(1, 97);
    OpStep(1, 97, 1);
    OpMeans(2, 98);
    OpStep(2, 98, 3);
    OpMeans(3, 101);
    OpStep(3, 101, 138);
    OpMeans(4, 239);
    OpStep(4, 239, 17);
    OpMeans(5, 256);
    OpStep(5, 256, 1);
    OpMeans(6, 257);
    OpStep(6, 257, 8);
    OpMeans(7, 265);
    OpStep(7, 265, 1);
    OpMeans(8, 266);
    OpStep(8, 266, 3);
    OpMeans(9, 269);
    OpStep(9, 269, 1);
    OpMeans(10, 270);
    OpStep(10, 270, 1);
    assert OPS[..11] == OPS;
    assert (LlLens() + DLens())[..271] == LlLens() + DLens();
  }

  lemma NoOps()
    ensures CL.OpsOk(OPS[..0]) && CL.ExpandOps(OPS[..0]) == (LlLens() + DLens())[..0]
  {
  }

  lemma OpsPresent()
    ensures OpsCoded(ClLens(), OPS)
  {
    hide ClLens, Present;
    forall i | 0 <= i < |OPS| ensures Present(ClLens(), CL.Symbol(OPS[i])) {
      ClCodes(CL.Symbol(OPS[i]));
    }
  }

  lemma TreesFit()
    ensures TreesOk(KnownTrees())
  {
    hide Roomy, PadLl, PadD, CL.OpsOk, CL.ExpandOps, OpsCoded, Complete;
    LensComplete();
    CompleteTrees(KnownTrees());
    OpsExpand();
    OpsPresent();
    LlCodes(256);
    TailZero();
  }

  lemma TailZero()
    ensures ClTail(ClLens(), 18)
  {
  }

  // ---------------------------------------------------------------- the bits of the trees

  lemma CountsStand()
    ensures At(Stream(), 3, Lsb(266 - 257, 5)) && At(Stream(), 8, Lsb(5 - 1, 5)) && At(Stream(), 13, Lsb(18 - 4, 4))
  {
    hide Stream, At, Lsb;
    NumberStands(3, 9, 5);
    NumberStands(8, 4, 5);
    NumberStands(13, 14, 4);
  }

  /** Field i of the code length code, which is the length of symbol 16, 17, 18, 0, 8, 7, ... */
  function Field(i: nat): nat {
    if i == 0 || i == 13 || i == 15 || i == 17 then 3 else if i == 1 || i == 2 then 2 else 0
  }

  lemma FieldIs(i: nat)
    requires i < 18
    ensures |CLCL_ORDER| == 19 && CLCL_ORDER[i] < 19 && ClLens()[CLCL_ORDER[i]] == Field(i)
  {
  }

  lemma FieldStandsTo3(i: nat)
    requires i < 3
    ensures At(Stream(), 17 + 3 * i, Lsb(Field(i), 3))
  {
    hide Stream, At, Lsb;
    match i
    case 0 => NumberStands(17, 3, 3);
    case 1 => NumberStands(20, 2, 3);
    case 2 => NumberStands(23, 2, 3);
    case _ =>
  }

  lemma FieldStandsTo6(i: nat)
    requires 3 <= i < 6
    ensures At(Stream(), 17 + 3 * i, Lsb(Field(i), 3))
  {
    hide Stream, At, Lsb;
    match i
    case 3 => NumberStands(26, 0, 3);
    case 4 => NumberStands(29, 0, 3);
    case 5 => NumberStands(32, 0, 3);
    case _ =>
  }

  lemma FieldStandsTo12(i: nat)
    requires 6 <= i < 12
    ensures At(Stream(), 17 + 3 * i, Lsb(Field(i), 3))
  {
    hide Stream, At, Lsb;
    match i
    case 6 => NumberStands(35, 0, 3);
    case 7 => NumberStands(38, 0, 3);
    case 8 => NumberStands(41, 0, 3);
    case 9 => NumberStands(44, 0, 3);
    case 10 => NumberStands(47, 0, 3);
    case 11 => NumberStands(50, 0, 3);
    case _ =>
  }

  lemma FieldStandsTo18(i: nat)
    requires 12 <= i < 18
    ensures At(Stream(), 17 + 3 * i, Lsb(Field(i), 3))
  {
    hide Stream, At, Lsb;
    match i
    case 12 => NumberStands(53, 0, 3);
    case 13 => NumberStands(56, 3, 3);
    case 14 => NumberStands(59, 0, 3);
    case 15 => NumberStands(62, 3, 3);
    case 16 => NumberStands(65, 0, 3);
    case 17 => NumberStands(68, 3, 3);
    case _ =>
  }

  lemma FieldStands(i: nat)
    requires i < 18
    ensures |CLCL_ORDER| == 19 && CLCL_ORDER[i] < 19
    ensures At(Stream(), 17 + 3 * i, Lsb(ClLens()[CLCL_ORDER[i]], 3))
  {
    hide Stream, At, Lsb, ClLens, Field;
    FieldIs(i);
    if i < 3 { FieldStandsTo3(i); } else if i < 6 { FieldStandsTo6(i); } else if i < 12 { FieldStandsTo12(i); }
    else { FieldStandsTo18(i); }
  }

  lemma {:induction false} FieldsStand(n: nat)
    requires n <= 18
    ensures At(Stream(), 17, ClBits(ClLens(), n))
  {
    hide Stream, At, ClLens, Lsb;
    if n == 0 {
      Nothing(17);
    } else {
      FieldsStand(n - 1);
      FieldStands(n - 1);
      AtConcat(Stream(), 17, ClBits(ClLens(), n - 1), Lsb(ClLens()[CLCL_ORDER[n - 1]], 3));
    }
  }

  lemma Nothing(p: nat)
    requires p <= 160
    ensures At(Stream(), p, [])
  {
  }

  /** Where operation k starts. */
  function Start(k: nat): nat {
    match k
    case 0 => 71
    case 1 => 80
    case 2 => 83
    case 3 => 88
    case 4 => 97
    case 5 => 106
    case 6 => 109
    case 7 => 114
    case 8 => 117
    case 9 => 122
    case 10 => 125
    case _ => 128
  }

  /** The code of an operation, without the number that follows it. */
  function Prefix(op: CL.Op): Bitstring {
    match CL.Symbol(op)
    case 17 => [false, false]
    case 18 => [false, true]
    case 1 => [true, false, false]
    case 2 => [true, false, true]
    case 3 => [true, true, false]
    case _ => [true, true, true]
  }

  lemma OpStandsTo2(k: nat)
    requires k < 2 && |OPS| == 11
    ensures At(Stream(), Start(k), Prefix(OPS[k]))
    ensures At(Stream(), Start(k) + |Prefix(OPS[k])|, Lsb(CL.Extra(OPS[k]), CL.ExtraBits(OPS[k])))
  {
    hide Stream, At, Lsb;
    match k
    case 0 =>
      Stands(71, [false, true]);
      NumberStands(73, 86, 7);
    case 1 =>
      Stands(80, [true, true, false]);
      NumberStands(83, 0, 0);
    case _ =>
  }

  lemma OpStandsTo4(k: nat)
    requires 2 <= k < 4 && |OPS| == 11
    ensures At(Stream(), Start(k), Prefix(OPS[k]))
    ensures At(Stream(), Start(k) + |Prefix(OPS[k])|, Lsb(CL.Extra(OPS[k]), CL.ExtraBits(OPS[k])))
  {
    hide Stream, At, Lsb;
    match k
    case 2 =>
      Stands(83, [true, true, true]);
      NumberStands(86, 0, 2);
    case 3 =>
      Stands(88, [false, true]);
      NumberStands(90, 127, 7);
    case _ =>
  }

  lemma OpStandsTo6(k: nat)
    requires 4 <= k < 6 && |OPS| == 11
    ensures At(Stream(), Start(k), Prefix(OPS[k]))
    ensures At(Stream(), Start(k) + |Prefix(OPS[k])|, Lsb(CL.Extra(OPS[k]), CL.ExtraBits(OPS[k])))
  {
    hide Stream, At, Lsb;
    match k
    case 4 =>
      Stands(97, [false, true]);
      NumberStands(99, 6, 7);
    case 5 =>
      Stands(106, [true, false, true]);
      NumberStands(109, 0, 0);
    case _ =>
  }

  lemma OpStandsTo8(k: nat)
    requires 6 <= k < 8 && |OPS| == 11
    ensures At(Stream(), Start(k), Prefix(OPS[k]))
    ensures At(Stream(), Start(k) + |Prefix(OPS[k])|, Lsb(CL.Extra(OPS[k]), CL.ExtraBits(OPS[k])))
  {
    hide Stream, At, Lsb;
    match k
    case 6 =>
      Stands(109, [false, false]);
      NumberStands(111, 5, 3);
    case 7 =>
      Stands(114, [true, false, true]);
      NumberStands(117, 0, 0);
    case _ =>
  }

  lemma OpStandsTo11(k: nat)
    requires 8 <= k < 11 && |OPS| == 11
    ensures At(Stream(), Start(k), Prefix(OPS[k]))
    ensures At(Stream(), Start(k) + |Prefix(OPS[k])|, Lsb(CL.Extra(OPS[k]), CL.ExtraBits(OPS[k])))
  {
    hide Stream, At, Lsb;
    match k
    case 8 =>
      Stands(117, [false, false]);
      NumberStands(119, 0, 3);
    case 9 =>
      Stands(122, [true, false, false]);
      NumberStands(125, 0, 0);
    case 10 =>
      Stands(125, [true, false, false]);
      NumberStands(128, 0, 0);
    case _ =>
  }

  /** Operation k stands there: its code and what follows it. */
  lemma OpStands(k: nat)
    requires k < 11
    ensures |OPS| == 11 && Present(ClLens(), CL.Symbol(OPS[k]))
    ensures At(Stream(), Start(k), OpBits(ClLens(), OPS[k]))
    ensures |OpBits(ClLens(), OPS[k])| == Start(k + 1) - Start(k)
  {
    hide Stream, ClLens, Code, At, Lsb;
    PrefixIs(k);
    if k < 2 { OpStandsTo2(k); } else if k < 4 { OpStandsTo4(k); } else if k < 6 { OpStandsTo6(k); }
    else if k < 8 { OpStandsTo8(k); } else { OpStandsTo11(k); }
    AtConcat(Stream(), Start(k), Prefix(OPS[k]), Lsb(CL.Extra(OPS[k]), CL.ExtraBits(OPS[k])));
  }

  lemma PrefixIs(k: nat)
    requires k < 11
    ensures |OPS| == 11 && Present(ClLens(), CL.Symbol(OPS[k])) && Code(ClLens(), CL.Symbol(OPS[k])) == Prefix(OPS[k])
    ensures |Prefix(OPS[k])| + CL.ExtraBits(OPS[k]) == Start(k + 1) - Start(k)
  {
    hide ClLens, Code;
    ClCodes(CL.Symbol(OPS[k]));
  }

  lemma {:induction false} OpsStand(n: nat)
    requires n <= 11 && OpsCoded(ClLens(), OPS)
    ensures |OPS| == 11 && OpsCoded(ClLens(), OPS[..n])
    ensures At(Stream(), 71, OpsBits(ClLens(), OPS[..n]))
    ensures 71 + |OpsBits(ClLens(), OPS[..n])| == Start(n)
  {
    hide Stream, At, ClLens, OpBits;
    if n == 0 {
      Nothing(71);
    } else {
      OpsStand(n - 1);
      OpStands(n - 1);
      OpsBitsStep(ClLens(), OPS, n - 1);
      AtConcat(Stream(), 71, OpsBits(ClLens(), OPS[..n - 1]), OpBits(ClLens(), OPS[n - 1]));
    }
  }

  /** The description of the trees, from bit 3 up to bit 128. */
  lemma TreesStand()
    ensures TreesOk(KnownTrees()) && At(Stream(), 3, TreesBits(KnownTrees())) && |TreesBits(KnownTrees())| == 125
  {
    hide Stream, At, LlLens, DLens, ClLens, TreesOk, TreesBits, Lsb, OpsBits, ClBits, CL.OpsOk, CL.ExpandOps;
    var t := KnownTrees();
    TreesFit();
    OpsPresent();
    TreesForm(t);
    CountsStand();
    FieldsStand(18);
    OpsStand(11);
    assert OPS[..11] == OPS;
    var a, b, c, d, e := Lsb(266 - 257, 5), Lsb(5 - 1, 5), Lsb(18 - 4, 4), ClBits(t.cl, 18), OpsBits(t.cl, t.ops);
    AtConcat(Stream(), 17, d, e);
    AtConcat(Stream(), 13, c, d + e);
    AtConcat(Stream(), 8, b, c + (d + e));
    AtConcat(Stream(), 3, a, b + (c + (d + e)));
  }

  // ---------------------------------------------------------------- the bits of the text

  const TOKENS: seq<Token> := [
    Literal(97), Literal(98), Literal(99), Literal(100), Literal(97), Literal(98), Match(8, 1, 4, 1)]

  lemma TokensOk()
    ensures |TOKENS| == 7 && AllCoded(LlLens(), DLens(), TOKENS)
  {
    hide LlLens, DLens, Code;
    LlCodes(97);
    LlCodes(98);
    LlCodes(99);
    LlCodes(100);
    LlCodes(265);
    DCodes();
    SmallPowers();
  }

  /** The code of a letter. */
  function Letter(b: byte): Bitstring {
    match b
    case 97 => [true, false, false]
    case 98 => [true, false, true]
    case 99 => [true, true, false]
    case _ => [true, true, true]
  }

  lemma LetterStandsTo3(k: nat)
    requires k < 3 && |TOKENS| == 7
    ensures At(Stream(), 128 + 3 * k, Letter(TOKENS[k].b))
  {
    hide Stream, At;
    match k
    case 0 => Stands(128, [true, false, false]);
    case 1 => Stands(131, [true, false, true]);
    case 2 => Stands(134, [true, true, false]);
    case _ =>
  }

  lemma LetterStandsTo6(k: nat)
    requires 3 <= k < 6 && |TOKENS| == 7
    ensures At(Stream(), 128 + 3 * k, Letter(TOKENS[k].b))
  {
    hide Stream, At;
    match k
    case 3 => Stands(137, [true, true, true]);
    case 4 => Stands(140, [true, false, false]);
    case 5 => Stands(143, [true, false, true]);
    case _ =>
  }

  lemma LettersStand(k: nat)
    requires k < 6 && |TOKENS| == 7 && Coded(LlLens(), DLens(), TOKENS[k])
    ensures At(Stream(), 128 + 3 * k, TokenBits(LlLens(), DLens(), TOKENS[k]))
    ensures |TokenBits(LlLens(), DLens(), TOKENS[k])| == 3
  {
    hide Stream, LlLens, DLens, Code, At;
    if k < 3 { LetterStandsTo3(k); } else { LetterStandsTo6(k); }
    LlCodes(TOKENS[k].b);
  }

  /** The copy of 12 bytes from 6 back: length code 265 with one more, distance code 4 with one more. */
  lemma CopyStands()
    requires |TOKENS| == 7 && Coded(LlLens(), DLens(), TOKENS[6])
    ensures At(Stream(), 146, TokenBits(LlLens(), DLens(), TOKENS[6]))
    ensures |TokenBits(LlLens(), DLens(), TOKENS[6])| == 5
  {
    hide Stream, LlLens, DLens, Code, At;
    LlCodes(265);
    DCodes();
    assert Lsb(1, 1) == [true];
    assert TokenBits(LlLens(), DLens(), TOKENS[6]) == [false, true] + [true] + ([true] + [true]);
    assert [false, true] + [true] + ([true] + [true]) == [false, true, true, true, true];
    Stands(146, [false, true, true, true, true]);
  }

  lemma {:induction false} TokensStand(n: nat)
    requires n <= 7 && |TOKENS| == 7 && AllCoded(LlLens(), DLens(), TOKENS)
    ensures AllCoded(LlLens(), DLens(), TOKENS[..n])
    ensures At(Stream(), 128, TokensBits(LlLens(), DLens(), TOKENS[..n]))
    ensures |TokensBits(LlLens(), DLens(), TOKENS[..n])| == if n == 7 then 23 else 3 * n
  {
    hide Stream, At, LlLens, DLens, TokenBits, Coded;
    if n == 0 {
      Nothing(128);
    } else {
      TokensStand(n - 1);
      TokensBitsStep(LlLens(), DLens(), TOKENS, n - 1);
      if n == 7 { CopyStands(); } else { LettersStand(n - 1); }
      AtConcat(Stream(), 128, TokensBits(LlLens(), DLens(), TOKENS[..n - 1]),
               TokenBits(LlLens(), DLens(), TOKENS[n - 1]));
    }
  }

  /** All of the block from bit 128 on. */
  lemma DataStands()
    ensures AllCoded(LlLens(), DLens(), TOKENS) && Present(LlLens(), END_CODE)
    ensures At(Stream(), 128, DataBits(LlLens(), DLens(), TOKENS))
    ensures |DataBits(LlLens(), DLens(), TOKENS)| == 25
  {
    hide Stream, At, LlLens, DLens, TokensBits, Code;
    TokensOk();
    TokensStand(7);
    assert TOKENS[..7] == TOKENS;
    LlCodes(256);
    Stands(151, [false, false]);
    AtConcat(Stream(), 128, TokensBits(LlLens(), DLens(), TOKENS), Code(LlLens(), END_CODE));
  }

  // ---------------------------------------------------------------- what the tokens stand for

  lemma {:induction false} LettersExpand(n: nat)
    requires n <= 6 && |TOKENS| == 7
    ensures |TEXT| == 18 && Sensible([], TOKENS[..n]) && Expand([], TOKENS[..n]) == TEXT[..n]
  {
    hide Sensible, Expand;
    if n == 0 {
      NoTokens();
    } else {
      LettersExpand(n - 1);
      assert TOKENS[..n] == TOKENS[..n - 1] + [TOKENS[n - 1]];
      ExpandSnoc([], TOKENS[..n - 1], TOKENS[n - 1]);
      assert TOKENS[n - 1] == Literal(TEXT[n - 1]);
    }
  }

  lemma NoTokens()
    ensures Sensible([], TOKENS[..0]) && Expand([], TOKENS[..0]) == []
  {
  }

  lemma TextExpands()
    ensures Sensible([], TOKENS) && Expand([], TOKENS) == TEXT
  {
    hide Sensible, Expand, CopyBytes;
    SmallPowers();
    LettersExpand(6);
    assert TOKENS == TOKENS[..6] + [TOKENS[6]];
    CopyIsSlice(TEXT, 6, 6, 12);
    assert TEXT[..18] == TEXT;
    ExpandSnoc([], TOKENS[..6], TOKENS[6]);
  }

  // ---------------------------------------------------------------- the stream

  function KnownBlock(): Block {
    Dynamic(KnownTrees(), TOKENS)
  }

  /** A stream of a single compressed block */
  lemma OneBlock(data: seq<byte>, b: Block)
    requires !b.Stored? && BlockCoded(b) && Sensible([], b.tokens) && At(BitsOf(data), 0, BlockBits(0, b, true))
    ensures Decodable(data, [b]) && StreamData([b], 1) == Expand([], b.tokens)
  {
    hide At, BlockCoded, BlockBits, Sensible, Expand, BitsOf;
    assert StreamFits([b], 0) && StreamData([b], 0) == [];
    assert BlockFits([], b);
    assert StreamBits([b], 0) == [];
    assert StreamBits([b], 1) == BlockBits(0, b, true);
  }

  /** The twenty bytes are a stream of one dynamic block that stands for the text. */
  lemma KnownIsStream()
    ensures Decodable(STREAM, [KnownBlock()])
    ensures StreamData([KnownBlock()], 1) ==
            [97, 98, 99, 100, 97, 98, 97, 98, 99, 100, 97, 98, 97, 98, 99, 100, 97, 98]
  {
    hide At, LlLens, DLens, ClLens, TreesOk, TreesBits, DataBits, AllCoded, Sensible, Expand, BitsOf, StreamData,
         Decodable;
    TreesStand();
    DataStands();
    TextExpands();
    Stands(0, [true, false, true]);
    AtConcat(Stream(), 3, TreesBits(KnownTrees()), DataBits(LlLens(), DLens(), TOKENS));
    AtConcat(Stream(), 0, [true, false, true], TreesBits(KnownTrees()) + DataBits(LlLens(), DLens(), TOKENS));
    OneBlock(STREAM, KnownBlock());
  }

  /** The decoder turns the twenty bytes into the text. */
  method InflateKnown() returns (text: seq<byte>, error: nat)
    ensures error == 0
    ensures text == [97, 98, 99, 100, 97, 98, 97, 98, 99, 100, 97, 98, 97, 98, 99, 100, 97, 98]
  {
    hide *;
    KnownIsStream();
    Parts(STREAM, [KnownBlock()]);
    var out := new Inflate.ByteVector();
    error := Inflate.InflateV(out, STREAM, [KnownBlock()]);
    text := out.data;
  }

  lemma Parts(data: seq<byte>, blocks: seq<Block>)
    requires Decodable(data, blocks)
    ensures IsStream(data, blocks)
  {
    hide IsStream;
  }
}
