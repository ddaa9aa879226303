/** The run-length coding of code lengths with the codes 16, 17 and 18 (RFC 1951, 3.2.7). */
module CodeLengths {
  import opened Bits

  /** One code length, or a repetition; n is the number of lengths it stands for. */
  datatype Op = Single(length: nat) | Repeat(n: nat) | Zeros(n: nat) | ManyZeros(n: nat)

  function Last(lens: seq<nat>): nat {
    if lens == [] then 0 else lens[|lens| - 1]
  }

  function Copies(v: nat, n: nat): (s: seq<nat>)
    ensures |s| == n
    ensures forall i | 0 <= i < n :: s[i] == v
  {
    seq(n, _ => v)
  }

  function Meaning(lens: seq<nat>, op: Op): (s: seq<nat>) {
    match op
    case Single(l) => [l]
    case Repeat(n) => Copies(Last(lens), n)
    case Zeros(n) => Copies(0, n)
    case ManyZeros(n) => Copies(0, n)
  }

  predicate OpOk(lens: seq<nat>, op: Op) {
    match op
    case Single(l) => l <= 15
    case Repeat(n) => lens != [] && 3 <= n <= 6
    case Zeros(n) => 3 <= n <= 10
    case ManyZeros(n) => 11 <= n <= 138
  }

  /** The code lengths that a list of operations stands for. */
  function ExpandOps(ops: seq<Op>): (lens: seq<nat>) {
    if ops == [] then []
    else
      var front := ExpandOps(ops[..|ops| - 1]);
      front + Meaning(front, ops[|ops| - 1])
  }

  predicate OpsOk(ops: seq<Op>) {
    ops == [] || (OpsOk(ops[..|ops| - 1]) && OpOk(ExpandOps(ops[..|ops| - 1]), ops[|ops| - 1]))
  }

  function Symbol(op: Op): (s: nat) {
    match op
    case Single(l) => l
    case Repeat(_) => 16
    case Zeros(_) => 17
    case ManyZeros(_) => 18
  }

  /** The number that follows the symbol, and its width in bits. */
  function Extra(op: Op): nat {
    match op
    case Single(_) => 0
    case Repeat(n) => if n < 3 then 0 else n - 3
    case Zeros(n) => if n < 3 then 0 else n - 3
    case ManyZeros(n) => if n < 11 then 0 else n - 11
  }

  function ExtraBits(op: Op): nat {
    match op
    case Single(_) => 0
    case Repeat(_) => 2
    case Zeros(_) => 3
    case ManyZeros(_) => 7
  }

  function OpNumbers(op: Op): seq<nat> {
    if op.Single? then [Symbol(op)] else [Symbol(op), Extra(op)]
  }

  /** The flat list of numbers in which the encoder keeps the operations. */
  function FlattenOps(ops: seq<Op>): seq<nat> {
    if ops == [] then [] else FlattenOps(ops[..|ops| - 1]) + OpNumbers(ops[|ops| - 1])
  }

  /** The operations so far stand for the first i lengths. */
  ghost predicate Encoded(lens: seq<nat>, i: nat, ops: seq<Op>, numbers: seq<nat>) {
    i <= |lens| && OpsOk(ops) && ExpandOps(ops) == lens[..i] && numbers == FlattenOps(ops)
  }

  lemma EncodedStep(lens: seq<nat>, i: nat, ops: seq<Op>, numbers: seq<nat>, op: Op)
    requires Encoded(lens, i, ops, numbers) && OpOk(lens[..i], op)
    requires i + |Meaning(lens[..i], op)| <= |lens|
    requires lens[i..i + |Meaning(lens[..i], op)|] == Meaning(lens[..i], op)
    ensures Encoded(lens, i + |Meaning(lens[..i], op)|, ops + [op], numbers + OpNumbers(op))
  {
    var more := ops + [op];
    assert more[..|more| - 1] == ops;
    var n := |Meaning(lens[..i], op)|;
    assert lens[..i] + lens[i..i + n] == lens[..i + n];
  }

  lemma SingleStep(lens: seq<nat>, i: nat, ops: seq<Op>, numbers: seq<nat>)
    requires Encoded(lens, i, ops, numbers) && i < |lens| && lens[i] <= 15
    ensures Encoded(lens, i + 1, ops + [Single(lens[i])], numbers + [lens[i]])
  {
    assert Meaning(lens[..i], Single(lens[i])) == lens[i..i + 1];
    EncodedStep(lens, i, ops, numbers, Single(lens[i]));
  }

  lemma RepeatStep(lens: seq<nat>, i: nat, ops: seq<Op>, numbers: seq<nat>, n: nat)
    requires Encoded(lens, i, ops, numbers) && 0 < i && 3 <= n <= 6 && i + n <= |lens|
    requires forall k | i <= k < i + n :: lens[k] == lens[i - 1]
    ensures Encoded(lens, i + n, ops + [Repeat(n)], numbers + [16, n - 3])
  {
    assert Meaning(lens[..i], Repeat(n)) == lens[i..i + n];
    EncodedStep(lens, i, ops, numbers, Repeat(n));
  }

  /** The encoder's run-length compression of the concatenated code lengths. */
  method CompressLengths(lens: seq<nat>) returns (numbers: seq<nat>, ghost ops: seq<Op>)
    requires forall i | 0 <= i < |lens| :: lens[i] <= 15
    ensures Encoded(lens, |lens|, ops, numbers)
  {
    numbers, ops := [], [];
    assert Encoded(lens, 0, [], []);
    hide Encoded;
    var i: nat := 0;
    while i < |lens|
      invariant Encoded(lens, i, ops, numbers)
    {
      var j: nat := 0;
      while i + j + 1 < |lens| && lens[i + j + 1] == lens[i]
        invariant i + j < |lens| && forall k | i <= k <= i + j :: lens[k] == lens[i]
      {
        j := j + 1;
      }
      if lens[i] == 0 && j >= 2 {
        j := j + 1;
        if j > 138 { j := 138; }
        numbers, ops := ZeroRun(lens, i, j, numbers, ops);
        i := i + j;
      } else if j >= 3 {
        i, numbers, ops := ValueRun(lens, i, j, numbers, ops);
      } else {
        SingleStep(lens, i, ops, numbers);
        numbers, ops := numbers + [lens[i]], ops + [Single(lens[i])];
        i := i + 1;
      }
    }
  }

  /** The code for j zeros: 17 up to ten of them, 18 otherwise. */
  method ZeroRun(lens: seq<nat>, i: nat, j: nat, numbers0: seq<nat>, ghost ops0: seq<Op>)
    returns (numbers: seq<nat>, ghost ops: seq<Op>)
    requires Encoded(lens, i, ops0, numbers0) && 3 <= j <= 138 && i + j <= |lens|
    requires forall k | i <= k < i + j :: lens[k] == 0
    ensures Encoded(lens, i + j, ops, numbers)
  {
    ghost var op := if j <= 10 then Zeros(j) else ManyZeros(j);
    assert Meaning(lens[..i], op) == lens[i..i + j];
    EncodedStep(lens, i, ops0, numbers0, op);
    ops := ops0 + [op];
    if j <= 10 {
      numbers := numbers0 + [17, j - 3];
    } else {
      numbers := numbers0 + [18, j - 11];
    }
  }

  /** A value and j more of it: the value once, then repetitions of six and a rest of at least three. */
  method ValueRun(lens: seq<nat>, i: nat, j0: nat, numbers0: seq<nat>, ghost ops0: seq<Op>)
    returns (next: nat, numbers: seq<nat>, ghost ops: seq<Op>)
    requires Encoded(lens, i, ops0, numbers0) && 3 <= j0 && i + j0 < |lens| && lens[i] <= 15
    requires forall k | i <= k <= i + j0 :: lens[k] == lens[i]
    ensures i < next <= |lens| && Encoded(lens, next, ops, numbers)
  {
    hide Encoded;
    var j := j0;
    var num, rest := j / 6, j % 6;
    SingleStep(lens, i, ops0, numbers0);
    numbers, ops := numbers0 + [lens[i]], ops0 + [Single(lens[i])];
    for k := 0 to num
      invariant Encoded(lens, i + 1 + 6 * k, ops, numbers)
    {
      RepeatStep(lens, i + 1 + 6 * k, ops, numbers, 6);
      numbers, ops := numbers + [16, 6 - 3], ops + [Repeat(6)];
    }
    if rest >= 3 {
      RepeatStep(lens, i + 1 + 6 * num, ops, numbers, rest);
      numbers, ops := numbers + [16, rest - 3], ops + [Repeat(rest)];
    } else {
      j := j - rest;
    }
    next := i + j + 1;
  }

  lemma ExpandSnoc(ops: seq<Op>, op: Op)
    ensures ExpandOps(ops + [op]) == ExpandOps(ops) + Meaning(ExpandOps(ops), op)
    ensures OpsOk(ops + [op]) <==> OpsOk(ops) && OpOk(ExpandOps(ops), op)
  {
    assert (ops + [op])[..|ops|] == ops;
  }
}
