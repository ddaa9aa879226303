/** The configuration parser and its printer. */
module Parser {
  import opened Options

  datatype Pair = Pair(key: string, val: string)
  datatype Struct = Struct(name: string, pairs: seq<Pair>)

  const INCLUDE := ".include"

  // ---------------------------------------------------------------- tokens

  predicate IsSpace(c: char) {
    c == ' ' || c == '\t'
  }

  predicate IsNl(c: char) {
    c == '\r' || c == '\n'
  }

  predicate IsWhite(c: char) {
    IsNl(c) || IsSpace(c)
  }

  /** The position behind the line that i is on. */
  function LineEnd(s: string, i: nat): (r: nat)
    requires i <= |s|
    ensures i <= r <= |s| && (i < |s| ==> i < r)
    decreases |s| - i
  {
    if i == |s| then i else if IsNl(s[i]) then i + 1 else LineEnd(s, i + 1)
  }

  /** The first position from i on that is neither white nor inside a comment. */
  function Skip(s: string, i: nat): (r: nat)
    requires i <= |s|
    ensures i <= r <= |s| && (r < |s| ==> !IsWhite(s[r]) && s[r] != '#')
    decreases |s| - i
  {
    if i == |s| then i
    else if IsWhite(s[i]) then Skip(s, i + 1)
    else if s[i] == '#' then Skip(s, LineEnd(s, i))
    else i
  }

  /** Read from i on, position k is inside a comment, which ends with its line. */
  predicate InComment(s: string, i: nat, k: nat)
    requires k < |s|
  {
    exists c | i <= c <= k :: s[c] == '#' && forall j | c <= j < k :: !IsNl(s[j])
  }

  lemma {:induction false} LineEndMeans(s: string, i: nat)
    requires i < |s|
    ensures forall j | i <= j < LineEnd(s, i) - 1 :: !IsNl(s[j])
    ensures LineEnd(s, i) < |s| ==> IsNl(s[LineEnd(s, i) - 1])
    decreases |s| - i
  {
    if !IsNl(s[i]) && i + 1 < |s| { LineEndMeans(s, i + 1); }
  }

  /** Skip ends at the first position that is neither white nor inside a comment, and not before. */
  lemma {:induction false} SkipsToText(s: string, i: nat)
    requires i <= |s|
    ensures forall k | i <= k < Skip(s, i) :: IsWhite(s[k]) || InComment(s, i, k)
    ensures var r := Skip(s, i); r < |s| ==> !IsWhite(s[r]) && !InComment(s, i, r)
    decreases |s| - i
  {
    if i < |s| && (IsWhite(s[i]) || s[i] == '#') {
      var n := if IsWhite(s[i]) then i + 1 else LineEnd(s, i);
      SkipsToText(s, n);
      LineEndMeans(s, i);
      forall k | i <= k < Skip(s, i) ensures IsWhite(s[k]) || InComment(s, i, k) {
        if k >= n && InComment(s, n, k) {
          var c :| n <= c <= k && s[c] == '#' && forall j | c <= j < k :: !IsNl(s[j]);
          assert i <= c <= k;
        }
      }
    }
  }

  /** The first white position from i on. */
  function TokenEnd(s: string, i: nat): (r: nat)
    requires i <= |s|
    ensures i <= r <= |s| && (i < |s| && !IsWhite(s[i]) ==> i < r)
    decreases |s| - i
  {
    if i == |s| || IsWhite(s[i]) then i else TokenEnd(s, i + 1)
  }

  /** skip_whites, in absolute positions */
  method SkipWhites(s: string, start: nat) returns (i: nat)
    requires start <= |s|
    ensures start <= i <= |s| && (i < |s| ==> !IsWhite(s[i]))
    ensures Skip(s, start) == Skip(s, i)
    ensures start < |s| && IsWhite(s[start]) ==> start < i
  {
    i := start;
    while i != |s| && IsWhite(s[i])
      invariant start <= i <= |s| && Skip(s, start) == Skip(s, i)
      decreases |s| - i
    {
      i := i + 1;
    }
  }

  /** skip_comment: one line */
  method SkipComment(s: string, start: nat) returns (i: nat)
    requires start <= |s|
    ensures i == LineEnd(s, start)
  {
    i := start;
    while i != |s|
      invariant start <= i <= |s| && LineEnd(s, start) == LineEnd(s, i)
      decreases |s| - i
    {
      if IsNl(s[i]) { break; }
      i := i + 1;
    }
    if i != |s| { i := i + 1; }
  }

  /** skip_comments_and_whites */
  method SkipCommentsAndWhites(s: string, start: nat) returns (i: nat)
    requires start <= |s|
    ensures i == Skip(s, start)
  {
    i := start;
    while i != |s|
      invariant start <= i <= |s| && Skip(s, start) == Skip(s, i)
      decreases |s| - i
    {
      if IsWhite(s[i]) {
        i := SkipWhites(s, i);
        if i == |s| { break; }
      }
      if s[i] != '#' { break; }
      i := SkipComment(s, i);
    }
  }

  /** next_token: where the next token starts and how long it is; it is empty only at the end of the buffer. */
  method NextToken(s: string, start: nat) returns (offset: nat, size: nat)
    requires start <= |s|
    ensures offset == Skip(s, start) && offset + size == TokenEnd(s, offset) <= |s|
    ensures size == 0 <==> offset == |s|
  {
    offset := SkipCommentsAndWhites(s, start);
    var i := offset;
    while i != |s|
      invariant offset <= i <= |s| && TokenEnd(s, offset) == TokenEnd(s, i)
      decreases |s| - i
    {
      if IsSpace(s[i]) || IsNl(s[i]) { break; }
      i := i + 1;
    }
    size := i - offset;
  }

  // ---------------------------------------------------------------- the grammar

  /** The token at position i or behind it, and the position behind the token; none at the end of the buffer. */
  function Token(s: string, i: nat): (r: Option<(string, nat)>)
    requires i <= |s|
    ensures r.Some? ==> i < r.value.1 <= |s| && r.value.0 != []
  {
    var a := Skip(s, i);
    var b := TokenEnd(s, a);
    if a == b then None else Some((s[a..b], b))
  }

  /** Key, any token in the place of the equals sign, value. */
  function ParsePairAt(s: string, i: nat): (r: Option<(Pair, nat)>)
    requires i <= |s|
    ensures r.Some? ==> i < r.value.1 <= |s|
  {
    var k := Token(s, i);
    if k == None then None else
    var e := Token(s, k.value.1);
    if e == None then None else
    var v := Token(s, e.value.1);
    if v == None then None else Some((Pair(k.value.0, v.value.0), v.value.1))
  }

  /** Pairs up to the closing brace. */
  function ParsePairsAt(s: string, i: nat): (r: Option<(seq<Pair>, nat)>)
    requires i <= |s|
    ensures r.Some? ==> i < r.value.1 <= |s|
    decreases |s| - i
  {
    var t := Token(s, i);
    if t == None then None
    else if t.value.0 == "}" then Some(([], t.value.1))
    else
      var p := ParsePairAt(s, i);
      if p == None then None else
      var rest := ParsePairsAt(s, p.value.1);
      if rest == None then None else Some(([p.value.0] + rest.value.0, rest.value.1))
  }

  function ParseStructAt(s: string, i: nat): (r: Option<(Struct, nat)>)
    requires i <= |s|
    ensures r.Some? ==> i < r.value.1 <= |s|
  {
    var name := Token(s, i);
    if name == None then None else
    var brace := Token(s, name.value.1);
    if brace == None || brace.value.0 != "{" then None else
    var pairs := ParsePairsAt(s, brace.value.1);
    if pairs == None then None else Some((Struct(name.value.0, pairs.value.0), pairs.value.1))
  }

  /** A token that starts with a dot, but is not `.include`, stands at position i or behind it. */
  predicate Unknown(s: string, i: nat)
    requires i <= |s|
  {
    Token(s, i).Some? && s[Skip(s, i)] == '.' && Token(s, i).value.0 != INCLUDE
  }

  /** What one round of the loop of parse_buf does: it moves on, perhaps by nothing, or it ends the loop. */
  datatype Round = Moved(size: nat, added: seq<Struct>) | Error | Included(path: string)

  /** parse_directive; the file that it includes is left to the caller. */
  function DirectiveAt(s: string, i: nat): (r: Round)
    requires i <= |s| && Token(s, i).Some?
  {
    if Token(s, i).value.0 == INCLUDE then
      var path := Token(s, Token(s, i).value.1);
      if path == None then Error else Included(path.value.0)
    else Moved(0, [])
  }

  /** parse_directive_or_struct */
  function RoundAt(s: string, i: nat): (r: Round)
    requires i <= |s|
    ensures r.Moved? ==> i + r.size <= |s|
  {
    if Token(s, i) == None then Moved(Skip(s, i) - i, [])
    else if s[Skip(s, i)] == '.' then DirectiveAt(s, i)
    else
      var st := ParseStructAt(s, i);
      if st == None then Error else Moved(st.value.1 - i, [st.value.0])
  }

  /** The text as a whole; `Directive` at an unknown directive, `Include` at an included file. */
  datatype Outcome = Structs(structs: seq<Struct>) | Failed | Include(path: string) | Directive(at: nat)

  /** What the grammar makes of the text from position i on. */
  function ParseBufAt(s: string, i: nat): Outcome
    requires i <= |s|
    decreases |s| - i
  {
    if i == |s| then Structs([])
    else
      match RoundAt(s, i)
      case Error => Failed
      case Included(path) => Include(path)
      case Moved(size, added) =>
        if size == 0 then Directive(Skip(s, i)) else PrependAll(added, ParseBufAt(s, i + size))
  }

  function PrependAll(front: seq<Struct>, o: Outcome): Outcome {
    if o.Structs? then Structs(front + o.structs) else o
  }

  /** A struct behind one comment, with another one in it, which holds a brace. */
  const COMMENTED := "#a\nm { k = v #}\n}"

  lemma CommentedTokens()
    ensures |COMMENTED| == 17
    ensures Token(COMMENTED, 0) == Some(("m", 4)) && Token(COMMENTED, 4) == Some(("{", 6))
    ensures Token(COMMENTED, 6) == Some(("k", 8)) && Token(COMMENTED, 8) == Some(("=", 10))
    ensures Token(COMMENTED, 10) == Some(("v", 12)) && Token(COMMENTED, 12) == Some(("}", 17))
    ensures Skip(COMMENTED, 0) == 3
  {
    hide Skip, LineEnd, TokenEnd;
    var s := COMMENTED;
    CommentSkipped(s, 0, 2);
    CommentSkipped(s, 13, 15);
    WhiteSkipped(s, 4);
    WhiteSkipped(s, 6);
    WhiteSkipped(s, 8);
    WhiteSkipped(s, 10);
    WhiteSkipped(s, 12);
    OneCharToken(s, 3);
    OneCharToken(s, 5);
    OneCharToken(s, 7);
    OneCharToken(s, 9);
    OneCharToken(s, 11);
    OneCharToken(s, 16);
    assert s[3..4] == "m" && s[5..6] == "{" && s[7..8] == "k" && s[9..10] == "=" && s[11..12] == "v";
    assert s[16..17] == "}";
  }

  lemma WhiteSkipped(s: string, i: nat)
    requires i < |s| && IsWhite(s[i])
    ensures Skip(s, i) == Skip(s, i + 1)
    ensures i + 1 < |s| && !IsWhite(s[i + 1]) && s[i + 1] != '#' ==> Skip(s, i) == i + 1
  {
  }

  lemma CommentSkipped(s: string, i: nat, n: nat)
    requires i < n < |s| - 1 && s[i] == '#' && IsNl(s[n]) && (forall k | i < k < n :: !IsNl(s[k]))
    requires !IsWhite(s[n + 1]) && s[n + 1] != '#'
    ensures Skip(s, i) == n + 1
  {
    EndOfLine(s, i, n);
  }

  lemma {:induction false} EndOfLine(s: string, i: nat, n: nat)
    requires i <= n < |s| && IsNl(s[n]) && (forall k | i <= k < n :: !IsNl(s[k]))
    ensures LineEnd(s, i) == n + 1
    decreases n - i
  {
    if i < n { EndOfLine(s, i + 1, n); }
  }

  lemma OneCharToken(s: string, i: nat)
    requires i < |s| && !IsWhite(s[i]) && s[i] != '#' && (i + 1 < |s| ==> IsWhite(s[i + 1]))
    ensures TokenEnd(s, i) == i + 1 && Skip(s, i) == i
  {
    assert TokenEnd(s, i + 1) == i + 1;
  }

  lemma CommentedText()
    ensures ParseBufAt(COMMENTED, 0) == Structs([Struct("m", [Pair("k", "v")])])
  {
    hide Token, Skip, ParseStructAt, ParsePairsAt;
    var s := COMMENTED;
    CommentedTokens();
    CommentedStruct();
    assert RoundAt(s, 0) == Moved(17, [Struct("m", [Pair("k", "v")])]);
    assert ParseBufAt(s, 17) == Structs([]);
  }

  lemma CommentedStruct()
    ensures ParseStructAt(COMMENTED, 0) == Some((Struct("m", [Pair("k", "v")]), 17))
  {
    hide Token, Skip;
    var s := COMMENTED;
    CommentedTokens();
    assert ParsePairAt(s, 6) == Some((Pair("k", "v"), 12));
    assert ParsePairsAt(s, 12) == Some(([], 17));
    assert "k"[0] != "}"[0];
    assert [Pair("k", "v")] + [] == [Pair("k", "v")];
    assert ParsePairsAt(s, 6) == Some(([Pair("k", "v")], 17));
  }

  // ---------------------------------------------------------------- the parser

  /** parse_pair; the size of (size_t)-1 becomes None */
  method ParsePair(s: string, start: nat) returns (r: Option<(Pair, nat)>)
    requires start <= |s|
    ensures r == ParsePairAt(s, start)
  {
    hide Skip, TokenEnd;
    var i := start;
    var offset, size := NextToken(s, i);
    if size == 0 { return None; }
    var key := s[offset..offset + size];
    i := offset + size;
    offset, size := NextToken(s, i);
    if size == 0 { return None; }
    i := offset + size;
    offset, size := NextToken(s, i);
    if size == 0 { return None; }
    return Some((Pair(key, s[offset..offset + size]), offset + size));
  }

  /** parse_struct */
  method ParseStruct(s: string, start: nat) returns (r: Option<(Struct, nat)>)
    requires start <= |s|
    ensures r == ParseStructAt(s, start)
  {
    hide Skip, TokenEnd, ParsePairAt;
    var offset, size := NextToken(s, start);
    if size == 0 { return None; }
    var name := s[offset..offset + size];
    var i: nat := offset + size;
    offset, size := NextToken(s, i);
    if size != 1 || s[offset] != '{' { return None; }
    var pairs := ParsePairs(s, offset + 1);
    if pairs == None { return None; }
    return Some((Struct(name, pairs.value.0), pairs.value.1));
  }

  /** The loop of parse_struct over the pairs. */
  method ParsePairs(s: string, start: nat) returns (r: Option<(seq<Pair>, nat)>)
    requires start <= |s|
    ensures r == ParsePairsAt(s, start)
  {
    hide Skip, TokenEnd, ParsePairAt, Prepend;
    var i := start;
    var pairs: seq<Pair> := [];
    PrependNone(ParsePairsAt(s, i));
    while true
      invariant start <= i <= |s|
      invariant ParsePairsAt(s, start) == Prepend(pairs, ParsePairsAt(s, i))
      decreases |s| - i
    {
      PrependCases(pairs, ParsePairsAt(s, i));
      var offset, size := NextToken(s, i);
      if size == 0 { return None; }
      if size == 1 && s[offset] == '}' {
        OneChar(s[offset..offset + size], '}');
        assert pairs + [] == pairs;
        return Some((pairs, offset + 1));
      }
      OneChar(s[offset..offset + size], '}');
      var p := ParsePair(s, i);
      if p == None { return None; }
      PrependStep(pairs, p.value.0, ParsePairsAt(s, p.value.1));
      PrependCases([p.value.0], ParsePairsAt(s, p.value.1));
      pairs := pairs + [p.value.0];
      i := p.value.1;
    }
  }

  lemma OneChar(t: string, c: char)
    ensures t == [c] <==> |t| == 1 && t[0] == c
  {
  }

  lemma PrependCases(front: seq<Pair>, r: Option<(seq<Pair>, nat)>)
    ensures r == None ==> Prepend(front, r) == None
    ensures r.Some? ==> Prepend(front, r) == Some((front + r.value.0, r.value.1))
  {
  }

  ghost function Prepend(front: seq<Pair>, r: Option<(seq<Pair>, nat)>): Option<(seq<Pair>, nat)> {
    if r == None then None else Some((front + r.value.0, r.value.1))
  }

  lemma PrependStep(front: seq<Pair>, p: Pair, r: Option<(seq<Pair>, nat)>)
    ensures Prepend(front, Prepend([p], r)) == Prepend(front + [p], r)
  {
    if r.Some? {
      assert front + ([p] + r.value.0) == front + [p] + r.value.0;
    }
  }

  lemma PrependNone(r: Option<(seq<Pair>, nat)>)
    ensures Prepend([], r) == r
  {
    if r.Some? {
      assert [] + r.value.0 == r.value.0;
    }
  }

  lemma PrependAllStep(front: seq<Struct>, added: seq<Struct>, o: Outcome)
    ensures PrependAll(front, PrependAll(added, o)) == PrependAll(front + added, o)
    ensures PrependAll([], o) == o
  {
    if o.Structs? { assert front + (added + o.structs) == front + added + o.structs && [] + o.structs == o.structs; }
  }

  /** parse_directive_or_struct */
  method ParseDirectiveOrStruct(s: string, i: nat) returns (r: Round)
    requires i <= |s|
    ensures r == RoundAt(s, i)
  {
    hide Skip, TokenEnd, ParseStructAt;
    var offset, size := NextToken(s, i);
    if size == 0 { return Moved(offset - i, []); }
    if s[offset] == '.' {
      r := ParseDirective(s, i);
      return;
    }
    var st := ParseStruct(s, i);
    r := if st == None then Error else Moved(st.value.1 - i, [st.value.0]);
  }

  /** parse_directive up to the opening of the file; of an unknown directive nothing is consumed. */
  method ParseDirective(s: string, i: nat) returns (r: Round)
    requires i <= |s| && Token(s, i).Some?
    ensures r == DirectiveAt(s, i)
  {
    hide Skip, TokenEnd;
    var offset, size := NextToken(s, i);
    if s[offset..offset + size] == INCLUDE {
      offset, size := NextToken(s, offset + size);
      if size == 0 { return Error; }
      return Included(s[offset..offset + size]);
    }
    return Moved(0, []);
  }

  // ---------------------------------------------------------------- the loop

  /** Where the loop of parse_buf stands, or how it has ended. */
  datatype Progress = At(pos: nat, structs: seq<Struct>) | Broken | Opens(path: string)

  /** The loop after n rounds, or after as many as it makes. */
  function After(s: string, n: nat): (p: Progress)
    ensures p.At? ==> p.pos <= |s|
  {
    if n == 0 then At(0, [])
    else
      var p := After(s, n - 1);
      if Over(s, p) then p
      else
        match RoundAt(s, p.pos)
        case Moved(size, added) => At(p.pos + size, p.structs + added)
        case Error => Broken
        case Included(path) => Opens(path)
  }

  /** The loop is over: at the end of the text, by an error, or (for the model) with the opening of a file. */
  predicate Over(s: string, p: Progress) {
    p.At? ==> p.pos == |s|
  }

  /** The result when the loop is over. */
  function Result(p: Progress): Outcome {
    match p
    case At(_, structs) => Structs(structs)
    case Broken => Failed
    case Opens(path) => Include(path)
  }

  /** parse_buf, for a number of rounds that does not matter to the source. */
  method ParseRounds(s: string, rounds: nat) returns (p: Progress)
    ensures p == After(s, rounds)
  {
    hide RoundAt;
    var i: nat := 0;
    var structs: seq<Struct> := [];
    for n := 0 to rounds
      invariant i <= |s| && After(s, n) == At(i, structs)
    {
      if i == |s| {
        Stays(s, n, rounds - n);
        return At(i, structs);
      }
      var j := ParseDirectiveOrStruct(s, i);
      match j
      case Error =>
        Stays(s, n + 1, rounds - n - 1);
        return Broken;
      case Included(path) =>
        Stays(s, n + 1, rounds - n - 1);
        return Opens(path);
      case Moved(size, added) =>
        i, structs := i + size, structs + added;
    }
    return At(i, structs);
  }

  /** Once the loop is over, or a round has changed nothing, it stays as it is. */
  lemma {:induction false} Stays(s: string, n: nat, k: nat)
    requires Over(s, After(s, n)) || After(s, n + 1) == After(s, n)
    ensures After(s, n + k) == After(s, n)
  {
    hide RoundAt;
    if k > 0 { Stays(s, n, k - 1); }
  }

  /** A round consumes nothing of an unknown directive, and something of everything else. */
  lemma RoundMoves(s: string, i: nat)
    requires i < |s|
    ensures RoundAt(s, i).Moved? && RoundAt(s, i).size == 0 <==> Unknown(s, i)
    ensures Unknown(s, i) ==> RoundAt(s, i) == Moved(0, [])
  {
    hide Skip, TokenEnd, ParseStructAt;
    TokenAtEnd(s, i);
  }

  /** Without a token only white and comments are left. */
  lemma TokenAtEnd(s: string, i: nat)
    requires i <= |s|
    ensures Token(s, i) == None <==> Skip(s, i) == |s|
  {
  }

  /** What the loop has done so far, and the rest of the text, make up the text. */
  lemma {:induction false} LoopRefines(s: string, n: nat)
    ensures var p := After(s, n);
            ParseBufAt(s, 0) == if p.At? then PrependAll(p.structs, ParseBufAt(s, p.pos)) else Result(p)
  {
    hide RoundAt, PrependAll;
    PrependAllStep([], [], ParseBufAt(s, 0));
    if n > 0 {
      LoopRefines(s, n - 1);
      var p := After(s, n - 1);
      if !Over(s, p) {
        var r := RoundAt(s, p.pos);
        PrependIs(p.structs, ParseBufAt(s, p.pos));
        if r.Moved? && r.size == 0 {
          RoundMoves(s, p.pos);
          assert p.structs + r.added == p.structs;
        } else if r.Moved? {
          PrependAllStep(p.structs, r.added, ParseBufAt(s, p.pos + r.size));
        }
      }
    }
  }

  lemma PrependIs(front: seq<Struct>, o: Outcome)
    ensures !o.Structs? ==> PrependAll(front, o) == o
    ensures o.Structs? ==> PrependAll(front, o) == Structs(front + o.structs)
  {
  }

  /** Before the loop is over, every round that does not stand before an unknown directive moves on. */
  lemma {:induction false} MovesOn(s: string, n: nat)
    ensures var p := After(s, n); Over(s, p) || p.pos >= n || Unknown(s, p.pos)
  {
    hide RoundAt, Unknown;
    if n > 0 {
      MovesOn(s, n - 1);
      var p := After(s, n - 1);
      if !Over(s, p) {
        RoundMoves(s, p.pos);
        assert p.structs + [] == p.structs;
      }
    }
  }

  /** The loop stands before an unknown directive after n rounds. */
  predicate Stuck(s: string, n: nat) {
    After(s, n).At? && Unknown(s, After(s, n).pos)
  }

  /** Standing there, it stands there for ever. */
  lemma StuckStays(s: string, n: nat)
    requires Stuck(s, n)
    ensures !Over(s, After(s, n)) && forall m: nat | m >= n :: After(s, m) == After(s, n)
    ensures ParseBufAt(s, 0) == Directive(Skip(s, After(s, n).pos))
  {
    hide RoundAt, Skip, PrependAll;
    var p := After(s, n);
    UnknownInside(s, p.pos);
    RoundMoves(s, p.pos);
    assert p.structs + [] == p.structs;
    forall m: nat | m >= n ensures After(s, m) == p { Stays(s, n, m - n); }
    LoopRefines(s, n);
    PrependIs(p.structs, ParseBufAt(s, p.pos));
  }

  lemma UnknownInside(s: string, i: nat)
    requires i <= |s| && Unknown(s, i)
    ensures i < |s|
  {
  }

  /** When the loop is over, its result is what the grammar says. */
  lemma OverIs(s: string, n: nat)
    requires Over(s, After(s, n))
    ensures ParseBufAt(s, 0) == Result(After(s, n)) && !ParseBufAt(s, 0).Directive?
  {
    LoopRefines(s, n);
    var p := After(s, n);
    if p.At? { assert p.structs + [] == p.structs; }
  }

  /**
   * Exactly when parse_buf ends. It ends, and then within as many rounds as the text has characters, if and
   * only if it never stands before an unknown directive; which the grammar tells without running the loop.
   */
  lemma Ending(s: string)
    ensures (exists n: nat :: Over(s, After(s, n))) <==> !ParseBufAt(s, 0).Directive?
    ensures (exists n: nat :: Stuck(s, n)) <==> ParseBufAt(s, 0).Directive?
    ensures !ParseBufAt(s, 0).Directive? ==> Over(s, After(s, |s|)) && Result(After(s, |s|)) == ParseBufAt(s, 0)
    ensures ParseBufAt(s, 0).Directive? ==>
              && Stuck(s, |s|) && Skip(s, After(s, |s|).pos) == ParseBufAt(s, 0).at
              && forall m: nat | m >= |s| :: After(s, m) == After(s, |s|)
  {
    hide After, ParseBufAt, Skip, Unknown, Over, Result;
    MovesOn(s, |s|);
    OverDef(s, After(s, |s|));
    if Over(s, After(s, |s|)) {
      OverIs(s, |s|);
    } else {
      StuckStays(s, |s|);
    }
    forall n: nat | Over(s, After(s, n)) ensures !ParseBufAt(s, 0).Directive? { OverIs(s, n); }
    forall n: nat | Stuck(s, n) ensures ParseBufAt(s, 0).Directive? { StuckStays(s, n); }
  }

  lemma OverDef(s: string, p: Progress)
    requires p.At? ==> p.pos <= |s|
    ensures !Over(s, p) <==> p.At? && p.pos < |s|
  {
  }

  /** The shortest text on which parse_buf never ends: after any number of rounds it is where it began. */
  lemma NeverEnds(n: nat)
    ensures After(".x", n) == At(0, []) && !Over(".x", After(".x", n))
    ensures ParseBufAt(".x", 0) == Directive(0)
  {
    var s := ".x";
    SkipIs(s, 0, 0);
    TokenEndIs(s, 0, 2);
    assert s[0..2] == s;
    assert Stuck(s, 0);
    StuckStays(s, 0);
    assert After(s, n) == After(s, 0);
  }

  /** An included file is another matter. */
  lemma IncludeOpens()
    ensures After(".include a", 1) == Opens("a") && ParseBufAt(".include a", 0) == Include("a")
  {
    var s := ".include a";
    SkipIs(s, 0, 0);
    TokenEndIs(s, 0, 8);
    assert s[0..8] == INCLUDE;
    SkipIs(s, 8, 9);
    TokenEndIs(s, 9, 10);
    assert s[9..10] == "a";
    assert After(s, 0) == At(0, []);
    LoopRefines(s, 1);
  }

  /** parse_buf, stopped before an unknown directive, where the source would go on with the same state for ever. */
  method ParseBuf(s: string) returns (r: Outcome)
    ensures r == ParseBufAt(s, 0)
    ensures r.Directive? <==> forall n: nat :: !Over(s, After(s, n))
    ensures !r.Directive? ==> r == Result(After(s, |s|))
  {
    hide ParseBufAt, After, Skip, Over, Result, Stuck;
    Ending(s);
    var p := ParseRounds(s, |s|);
    OverDef(s, p);
    ResultDef(p);
    match p
    case At(pos, structs) =>
      if pos == |s| { return Structs(structs); }
      var offset, size := NextToken(s, pos);
      r := Directive(offset);
    case Broken =>
      r := Failed;
    case Opens(path) =>
      r := Include(path);
  }

  lemma ResultDef(p: Progress)
    ensures p.At? ==> Result(p) == Structs(p.structs)
    ensures p.Broken? ==> Result(p) == Failed
    ensures p.Opens? ==> Result(p) == Include(p.path)
  {
  }

  // ---------------------------------------------------------------- the printer

  /** print_pair_item */
  function PairText(p: Pair): string {
    p.key + " = " + p.val + "\n"
  }

  function PairsText(pairs: seq<Pair>): string {
    if pairs == [] then "" else PairText(pairs[0]) + PairsText(pairs[1..])
  }

  /** print_struct_item */
  function StructText(st: Struct): string {
    st.name + "\n{\n" + PairsText(st.pairs) + "}\n"
  }

  function Text(structs: seq<Struct>): string {
    if structs == [] then "" else StructText(structs[0]) + Text(structs[1..])
  }

  /** Printing all structs, pair by pair. */
  method Print(structs: seq<Struct>) returns (out: string)
    ensures out == Text(structs)
  {
    hide StructText;
    out := "";
    for i := 0 to |structs|
      invariant out + Text(structs[i..]) == Text(structs)
    {
      assert structs[i..][1..] == structs[i + 1..];
      var text := PrintStruct(structs[i]);
      ghost var rest := Text(structs[i + 1..]);
      assert out + (text + rest) == out + text + rest;
      out := out + text;
    }
    assert structs[|structs|..] == [];
  }

  method PrintStruct(st: Struct) returns (out: string)
    ensures out == StructText(st)
  {
    hide PairText;
    out := st.name + "\n{\n";
    ghost var head := out;
    for i := 0 to |st.pairs|
      invariant out + PairsText(st.pairs[i..]) == head + PairsText(st.pairs)
    {
      assert st.pairs[i..][1..] == st.pairs[i + 1..];
      ghost var text, rest := PairText(st.pairs[i]), PairsText(st.pairs[i + 1..]);
      assert out + (text + rest) == out + text + rest;
      out := out + PairText(st.pairs[i]);
    }
    assert st.pairs[|st.pairs|..] == [];
    out := out + "}\n";
  }

  // ---------------------------------------------------------------- round trip

  /** A token that can be written down: not empty, no white, and no comment sign in front. */
  predicate Word(t: string) {
    t != [] && t[0] != '#' && AllBlack(t)
  }

  predicate AllBlack(t: string) {
    forall i | 0 <= i < |t| :: !IsWhite(t[i])
  }

  predicate AllWhite(t: string) {
    forall i | 0 <= i < |t| :: IsWhite(t[i])
  }

  predicate PairOk(p: Pair) {
    Word(p.key) && Word(p.val) && p.key != "}"
  }

  predicate StructOk(st: Struct) {
    Word(st.name) && st.name[0] != '.' && forall i | 0 <= i < |st.pairs| :: PairOk(st.pairs[i])
  }

  lemma {:induction false} SkipIs(s: string, i: nat, p: nat)
    requires i <= p <= |s| && forall j | i <= j < p :: IsWhite(s[j])
    requires p < |s| ==> !IsWhite(s[p]) && s[p] != '#'
    ensures Skip(s, i) == p
    decreases p - i
  {
    if i < p { SkipIs(s, i + 1, p); }
  }

  lemma {:induction false} TokenEndIs(s: string, i: nat, p: nat)
    requires i <= p <= |s| && forall j | i <= j < p :: !IsWhite(s[j])
    requires p < |s| ==> IsWhite(s[p])
    ensures TokenEnd(s, i) == p
    decreases p - i
  {
    if i < p { TokenEndIs(s, i + 1, p); }
  }

  /** Reading a token that stands behind white space. */
  lemma TokenIs(s: string, pre: string, white: string, t: string, rest: string)
    requires s == pre + white + t + rest && AllWhite(white) && Word(t)
    requires rest != "" ==> IsWhite(rest[0])
    ensures Token(s, |pre|) == Some((t, |pre| + |white| + |t|))
    ensures Skip(s, |pre|) == |pre| + |white| && s[|pre| + |white|] == t[0]
  {
    var p := |pre| + |white|;
    assert s[p] == t[0];
    SkipIs(s, |pre|, p);
    assert forall j | 0 <= j < |t| :: s[p + j] == t[j];
    TokenEndIs(s, p, p + |t|);
    assert s[p..p + |t|] == t;
  }

  lemma NoToken(s: string, pre: string, white: string)
    requires s == pre + white && AllWhite(white)
    ensures Token(s, |pre|) == None
  {
    SkipIs(s, |pre|, |s|);
  }

  /** A pair as it is printed, with the white space in front of it. */
  lemma PairBack(s: string, pre: string, white: string, p: Pair, rest: string)
    requires s == pre + white + (p.key + " = " + p.val) + rest && AllWhite(white) && PairOk(p)
    requires rest != "" ==> IsWhite(rest[0])
    ensures Token(s, |pre|).Some? && Token(s, |pre|).value.0 == p.key
    ensures ParsePairAt(s, |pre|) == Some((p, |pre + white + (p.key + " = " + p.val)|))
  {
    hide Token, AllWhite, AllBlack;
    White1();
    assert s == pre + white + p.key + (" = " + p.val + rest);
    TokenIs(s, pre, white, p.key, " = " + p.val + rest);
    ValueBack(s, pre + white + p.key, p.val, rest);
  }

  /** The equals sign and the value. */
  lemma ValueBack(s: string, pre: string, val: string, rest: string)
    requires s == pre + (" = " + val + rest) && Word(val)
    requires rest != "" ==> IsWhite(rest[0])
    ensures Token(s, |pre|) == Some(("=", |pre| + 2)) && Token(s, |pre| + 2) == Some((val, |pre| + 3 + |val|))
  {
    hide Token, AllWhite, AllBlack;
    White1();
    assert s == pre + " " + "=" + (" " + val + rest);
    TokenIs(s, pre, " ", "=", " " + val + rest);
    assert s == (pre + " " + "=") + " " + val + rest;
    TokenIs(s, pre + " " + "=", " ", val, rest);
  }

  lemma White1()
    ensures AllWhite(" ") && AllWhite("\n") && AllWhite("") && Word("=") && Word("{") && Word("}")
  {
  }

  /** The pairs, each with the end of the line before it. */
  function Lines(pairs: seq<Pair>): string {
    if pairs == [] then "" else "\n" + (pairs[0].key + " = " + pairs[0].val) + Lines(pairs[1..])
  }

  lemma {:induction false} LinesAre(pairs: seq<Pair>)
    ensures "\n" + PairsText(pairs) == Lines(pairs) + "\n"
  {
    if pairs != [] {
      LinesAre(pairs[1..]);
      var kv := pairs[0].key + " = " + pairs[0].val;
      var t := PairsText(pairs[1..]);
      assert "\n" + (kv + "\n" + t) == "\n" + kv + ("\n" + t);
    }
  }

  lemma {:induction false} PairsBack(s: string, pre: string, pairs: seq<Pair>, rest: string)
    requires s == pre + Lines(pairs) + "\n}" + rest
    requires forall i | 0 <= i < |pairs| :: PairOk(pairs[i])
    requires rest != "" ==> IsWhite(rest[0])
    ensures ParsePairsAt(s, |pre|) == Some((pairs, |pre + Lines(pairs) + "\n}"|))
    decreases |pairs|
  {
    hide Token, AllWhite, AllBlack, ParsePairAt, ParsePairsAt, Lines, PairOk;
    White1();
    if pairs == [] {
      NoPairs(s, pre, rest);
    } else {
      var p, t := pairs[0], pairs[1..];
      var kv := p.key + " = " + p.val;
      FirstLine(pre, pairs, rest);
      TailStart(t, rest);
      PairsBack(s, pre + "\n" + kv, t, rest);
      OnePair(s, pre, p, Lines(t) + "\n}" + rest, t, |pre + Lines(pairs) + "\n}"|);
      assert pairs == [p] + t;
    }
  }

  lemma NoPairs(s: string, pre: string, rest: string)
    requires s == pre + Lines([]) + "\n}" + rest && (rest != "" ==> IsWhite(rest[0]))
    ensures var r := ParsePairsAt(s, |pre|); r.Some? && r.value.0 == [] && r.value.1 == |pre + Lines([]) + "\n}"|
  {
    hide Token, AllWhite, AllBlack, ParsePairAt;
    White1();
    assert s == pre + "\n" + "}" + rest;
    TokenIs(s, pre, "\n", "}", rest);
  }

  lemma FirstLine(pre: string, pairs: seq<Pair>, rest: string)
    requires pairs != []
    ensures var pre1, t := pre + "\n" + (pairs[0].key + " = " + pairs[0].val), pairs[1..];
            && pre + Lines(pairs) + "\n}" + rest == pre1 + Lines(t) + "\n}" + rest == pre1 + (Lines(t) + "\n}" + rest)
            && |pre + Lines(pairs) + "\n}"| == |pre1 + Lines(t) + "\n}"|
  {
    Chain(pre, "\n", pairs[0].key + " = " + pairs[0].val, Lines(pairs[1..]), "\n}", rest);
  }

  lemma Chain(a: string, b: string, c: string, d: string, e: string, f: string)
    ensures a + (b + c + d) + e + f == a + b + c + d + e + f == a + b + c + (d + e + f)
    ensures |a + (b + c + d) + e| == |a + b + c + d + e|
  {
  }

  /** One round of the parser over the pairs of a struct. */
  lemma OnePair(s: string, pre: string, p: Pair, tail: string, t: seq<Pair>, end: nat)
    requires s == pre + "\n" + (p.key + " = " + p.val) + tail && PairOk(p)
    requires tail != "" && IsWhite(tail[0])
    requires var k := |pre + "\n" + (p.key + " = " + p.val)|; ParsePairsAt(s, k) == Some((t, end))
    ensures ParsePairsAt(s, |pre|) == Some(([p] + t, end))
  {
    hide Token, AllWhite, AllBlack, ParsePairAt;
    White1();
    PairBack(s, pre, "\n", p, tail);
  }

  lemma TailStart(pairs: seq<Pair>, rest: string)
    ensures (Lines(pairs) + "\n}" + rest)[0] == '\n'
  {
  }

  lemma StructForm(st: Struct)
    ensures StructText(st) == st.name + "\n" + "{" + (Lines(st.pairs) + "\n}") + "\n"
  {
    hide Lines, PairsText;
    LinesAre(st.pairs);
    assert StructText(st) == st.name + "\n{" + ("\n" + PairsText(st.pairs)) + "}\n";
    assert st.name + "\n{" + (Lines(st.pairs) + "\n") + "}\n"
           == st.name + "\n" + "{" + (Lines(st.pairs) + "\n}") + "\n";
  }

  lemma StructBack(s: string, pre: string, white: string, st: Struct, rest: string)
    requires s == pre + white + StructText(st) + rest && AllWhite(white) && StructOk(st)
    ensures ParseStructAt(s, |pre|) == Some((st, |pre + white + StructText(st)| - 1))
    ensures Token(s, |pre|).Some? && s[Skip(s, |pre|)] == st.name[0]
  {
    hide Token, AllWhite, AllBlack, ParsePairsAt, Skip, StructText, Lines;
    White1();
    var body := Lines(st.pairs);
    StructForm(st);
    var r1 := "\n" + "{" + (body + "\n}") + "\n" + rest;
    assert s == pre + white + st.name + r1;
    TokenIs(s, pre, white, st.name, r1);
    var pre1 := pre + white + st.name;
    var r2 := body + "\n}" + ("\n" + rest);
    assert s == pre1 + "\n" + "{" + r2;
    TailStart(st.pairs, "\n" + rest);
    TokenIs(s, pre1, "\n", "{", r2);
    var pre2 := pre1 + "\n" + "{";
    assert s == pre2 + body + "\n}" + ("\n" + rest);
    PairsBack(s, pre2, st.pairs, "\n" + rest);
  }

  lemma {:induction false} TextBack(s: string, pre: string, white: string, structs: seq<Struct>)
    requires s == pre + white + Text(structs) && AllWhite(white)
    requires forall i | 0 <= i < |structs| :: StructOk(structs[i])
    ensures ParseBufAt(s, |pre|) == Structs(structs)
    decreases |structs|
  {
    hide Token, AllWhite, ParseStructAt, ParseBufAt, Skip, StructText, StructOk;
    if structs == [] {
      assert s == pre + white;
      OnlyWhite(s, pre, white);
    } else {
      var st, rest := structs[0], structs[1..];
      var t := StructText(st);
      assert s == pre + white + t + Text(rest);
      EndsLine(st);
      var pre1 := pre + white + t[..|t| - 1];
      LastApart(pre + white, t, Text(rest));
      White1();
      TextBack(s, pre1, "\n", rest);
      OneStruct(s, pre, white, st, Text(rest));
      assert structs == [st] + rest;
    }
  }

  lemma OnlyWhite(s: string, pre: string, white: string)
    requires s == pre + white && AllWhite(white)
    ensures ParseBufAt(s, |pre|) == Structs([])
  {
    hide Token, AllWhite, Skip;
    NoToken(s, pre, white);
    TokenAtEnd(s, |pre|);
  }

  /** One round of the parser over a printed struct; the end of its last line is left for the next round. */
  lemma OneStruct(s: string, pre: string, white: string, st: Struct, rest: string)
    requires s == pre + white + StructText(st) + rest && AllWhite(white) && StructOk(st)
    ensures |StructText(st)| > 0
    ensures ParseBufAt(s, |pre|) == PrependAll([st], ParseBufAt(s, |pre + white| + |StructText(st)| - 1))
  {
    hide Token, AllWhite, ParseStructAt, Skip, StructText;
    StructBack(s, pre, white, st, rest);
    EndsLine(st);
  }

  lemma LastApart(a: string, t: string, b: string)
    requires |t| > 0 && t[|t| - 1] == '\n'
    ensures a + t + b == a + t[..|t| - 1] + "\n" + b
  {
    assert t == t[..|t| - 1] + "\n";
  }

  lemma EndsLine(st: Struct)
    ensures |StructText(st)| > 0 && StructText(st)[|StructText(st)| - 1] == '\n'
  {
  }

  /** Parsing the printed form of any list of structs gives back the list. */
  lemma RoundTrip(structs: seq<Struct>)
    requires forall i | 0 <= i < |structs| :: StructOk(structs[i])
    ensures ParseBufAt(Text(structs), 0) == Structs(structs)
  {
    White1();
    assert "" + "" + Text(structs) == Text(structs);
    TextBack(Text(structs), "", "", structs);
  }

  /** The same for the two programs. */
  method PrintAndParse(structs: seq<Struct>) returns (r: Outcome)
    ensures (forall i | 0 <= i < |structs| :: StructOk(structs[i])) ==> r == Structs(structs)
  {
    hide StructOk, ParseBufAt, Text;
    var text := Print(structs);
    r := ParseBuf(text);
    if forall i | 0 <= i < |structs| :: StructOk(structs[i]) { RoundTrip(structs); }
  }
}
