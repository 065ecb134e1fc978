/**
 * The token-stack parser for prefix conditions.
 *
 * The parser reads the condition's tokens from last to first, keeping a stack
 * whose top is the end of the sequence: a variable token pushes a leaf,
 * `#not` pops one entry and pushes its negation, and `#and`/`#or` pop two
 * entries and push the binary node whose first operand is the entry that was
 * on top.  It fails when an operator finds too few operands, or when the
 * stack does not end with exactly one entry.
 *
 * `Step`, `RunFrom` and `Parse` state what the stack machine computes; the
 * method `ParseCond` is the loop itself, proved to compute `Parse`.  The
 * lemmas show that `Parse` is the exact inverse of the serializer on binary
 * trees, count its tokens, and characterise its failures by a height counter.
 */
module Parser {
  import opened Results
  import opened Syntax

  datatype ParseError =
    | StackUnderflow      // an operator popped an empty stack
    | StackSize(n: nat)   // the scan ended with n != 1 entries on the stack

  /** How many entries a token pops. */
  function Need(t: Token): nat {
    if t == AndToken || t == OrToken then 2 else if t == NotToken then 1 else 0
  }

  /** By how much a token changes the stack height. */
  function Delta(t: Token): int {
    if t == AndToken || t == OrToken then -1 else if t == NotToken then 0 else 1
  }

  /** One token of the backward scan applied to the stack; `None` when a pop finds the stack empty. */
  function Step(stack: seq<Expr>, t: Token): (r: Option<seq<Expr>>)
    ensures r.Some? <==> |stack| >= Need(t)
    ensures r.Some? ==> |r.value| == |stack| + Delta(t)
    ensures r.Some? ==> r.value[..|stack| - Need(t)] == stack[..|stack| - Need(t)]
  {
    var n := |stack|;
    if t == AndToken || t == OrToken then
      if n < 2 then None
      else
        var op1, op2 := stack[n - 1], stack[n - 2];
        Some(stack[..n - 2] + [if t == AndToken then And([op1, op2]) else Or([op1, op2])])
    else if t == NotToken then
      if n < 1 then None else Some(stack[..n - 1] + [Not(stack[n - 1])])
    else
      Some(stack + [Var(t)])
  }

  /**
   * The stack after scanning `toks` from its last token to its first, starting
   * from `base`; when no pop fails, its height has changed by the counter.
   */
  function RunFrom(base: seq<Expr>, toks: seq<Token>): (r: Option<seq<Expr>>)
    ensures r.Some? ==> |r.value| == |base| + Height(toks)
    decreases |toks|
  {
    if toks == [] then Some(base)
    else
      match RunFrom(base, toks[1..])
      case None => None
      case Some(s) => Step(s, toks[0])
  }

  /**
   * The result of parsing a condition: the single entry left on the stack.  A
   * parsed tree is built (binary, plain leaves) and renders to the tokens read;
   * a size error reports the final height, which is not 1.
   */
  function Parse(toks: seq<Token>): (r: Result<Expr, ParseError>)
    ensures r.Ok? ==> Binary(r.value) && PlainLeaves(r.value) && Tokens(r.value) == toks
    ensures r.Err? && r.error.StackSize? ==> r.error.n == Height(toks) != 1
  {
    RunSound(toks);
    match RunFrom([], toks)
    case None => Err(StackUnderflow)
    case Some(s) => if |s| == 1 then Ok(s[0]) else Err(StackSize(|s|))
  }

  /** Once a later part of the line underflows, scanning further to the left cannot recover. */
  lemma {:induction false} UnderflowPersists(toks: seq<Token>, j: nat)
    requires j <= |toks|
    requires RunFrom([], toks[j..]) == None
    ensures RunFrom([], toks) == None
    decreases j
  {
    if j > 0 {
      assert toks[j - 1..][1..] == toks[j..];
      UnderflowPersists(toks, j - 1);
    }
  }

  /** The parser as the source writes it: a loop over the reversed tokens and a list used as a stack. */
  method ParseCond(tokens: seq<Token>) returns (r: Result<Expr, ParseError>)
    ensures r == Parse(tokens)
  {
    var stack: seq<Expr> := [];
    var j := |tokens|;
    while j > 0
      invariant 0 <= j <= |tokens|
      invariant RunFrom([], tokens[j..]) == Some(stack)
    {
      j := j - 1;
      var token := tokens[j];
      ghost var before := stack;
      ScanOne(tokens, j);
      if token == AndToken || token == OrToken {
        if |stack| == 0 {
          UnderflowPersists(tokens, j);
          return Err(StackUnderflow);
        }
        var op1 := stack[|stack| - 1];
        stack := stack[..|stack| - 1];
        if |stack| == 0 {
          UnderflowPersists(tokens, j);
          return Err(StackUnderflow);
        }
        var op2 := stack[|stack| - 1];
        stack := stack[..|stack| - 1];
        if token == AndToken {
          stack := stack + [And([op1, op2])];
        } else {
          stack := stack + [Or([op1, op2])];
        }
        StepPops2(before, token);
      } else if token == NotToken {
        if |stack| == 0 {
          UnderflowPersists(tokens, j);
          return Err(StackUnderflow);
        }
        var op := stack[|stack| - 1];
        stack := stack[..|stack| - 1];
        stack := stack + [Not(op)];
        StepPops1(before);
      } else {
        stack := stack + [Var(token)];
      }
    }
    if |stack| != 1 {
      return Err(StackSize(|stack|));
    }
    return Ok(stack[0]);
  }

  /** Scanning one more token to the left applies `Step` to the stack the rest left. */
  lemma ScanOne(toks: seq<Token>, j: nat)
    requires j < |toks|
    ensures RunFrom([], toks[j..]) == Continue(RunFrom([], toks[j + 1..]), [toks[j]])
  {
    assert toks[j..][1..] == toks[j + 1..];
    assert [toks[j]][1..] == [];
    match RunFrom([], toks[j + 1..])
    case None =>
    case Some(st) => assert RunFrom(st, [toks[j]]) == Step(st, toks[j]);
  }

  /** `#and`/`#or` on a stack of two or more: the two top entries, the top one first, become one node. */
  lemma StepPops2(s0: seq<Expr>, t: Token)
    requires t == AndToken || t == OrToken
    requires |s0| >= 2
    ensures var n := |s0|; var op1, op2 := s0[n - 1], s0[n - 2];
            Step(s0, t) == Some(s0[..n - 1][..n - 2] + [if t == AndToken then And([op1, op2]) else Or([op1, op2])])
  {
    var n := |s0|;
    assert s0[..n - 1][..n - 2] == s0[..n - 2];
  }

  lemma StepPops1(s0: seq<Expr>)
    requires |s0| >= 1
    ensures Step(s0, NotToken) == Some(s0[..|s0| - 1] + [Not(s0[|s0| - 1])])
  {
  }

  // ---------------------------------------------------------------------------
  // The height counter

  /** The stack height a scan of `toks` ends with, if nothing underflows: the sum of the tokens' changes. */
  function Height(toks: seq<Token>): int {
    if toks == [] then 0 else Delta(toks[0]) + Height(toks[1..])
  }

  /** Every token finds at least as many entries as it pops, the entries being those its right part leaves. */
  predicate NeverUnderflows(toks: seq<Token>) {
    forall i :: 0 <= i < |toks| ==> Need(toks[i]) <= Height(toks[i + 1..])
  }

  lemma NeverUnderflowsCons(toks: seq<Token>)
    requires toks != []
    ensures NeverUnderflows(toks) <==> Need(toks[0]) <= Height(toks[1..]) && NeverUnderflows(toks[1..])
  {
    var rest := toks[1..];
    assert forall i :: 1 <= i < |toks| ==> toks[i] == rest[i - 1] && toks[i + 1..] == rest[i..];
    if NeverUnderflows(toks) {
      forall i | 0 <= i < |rest|
        ensures Need(rest[i]) <= Height(rest[i + 1..])
      {
        assert rest[i] == toks[i + 1] && rest[i + 1..] == toks[i + 2..];
      }
    }
  }

  /** The scan succeeds exactly when the counter never underflows, and then the stack height is the counter. */
  lemma {:induction false} RunHeight(toks: seq<Token>)
    ensures RunFrom([], toks).Some? <==> NeverUnderflows(toks)
    ensures RunFrom([], toks).Some? ==> |RunFrom([], toks).value| == Height(toks)
    decreases |toks|
  {
    if toks != [] {
      RunHeight(toks[1..]);
      NeverUnderflowsCons(toks);
    }
  }

  /**
   * Parsing fails with an underflow exactly when the counter underflows,
   * succeeds exactly when it never does and ends at one, and otherwise
   * reports the final height.
   */
  lemma {:induction false} ParseOutcome(toks: seq<Token>)
    ensures Parse(toks) == Err(StackUnderflow) <==> !NeverUnderflows(toks)
    ensures Parse(toks).Ok? <==> NeverUnderflows(toks) && Height(toks) == 1
    ensures Parse(toks).Err? && Parse(toks).error.StackSize? ==>
              NeverUnderflows(toks) && Parse(toks).error.n == Height(toks) != 1
  {
    RunHeight(toks);
  }

  // ---------------------------------------------------------------------------
  // Parsing inverts serializing

  /** Scanning `p + s` scans `s` first and continues with `p` on the stack that leaves. */
  function Continue(o: Option<seq<Expr>>, p: seq<Token>): Option<seq<Expr>> {
    match o
    case None => None
    case Some(st) => RunFrom(st, p)
  }

  lemma {:induction false} RunAppend(base: seq<Expr>, p: seq<Token>, s: seq<Token>)
    ensures RunFrom(base, p + s) == Continue(RunFrom(base, s), p)
    decreases |p|
  {
    if p == [] {
      assert p + s == s;
    } else {
      assert (p + s)[1..] == p[1..] + s;
      assert (p + s)[0] == p[0];
      RunAppend(base, p[1..], s);
    }
  }

  /** Scanning the rendering of a binary tree with plain leaves pushes exactly that tree. */
  lemma {:induction false} RunPush(base: seq<Expr>, e: Expr)
    requires Binary(e) && PlainLeaves(e)
    ensures RunFrom(base, Tokens(e)) == Some(base + [e])
    decreases e, 1
  {
    match e
    case Var(n) =>
      assert [n][1..] == [];
    case Not(c) =>
      assert ([NotToken] + Tokens(c))[1..] == Tokens(c);
      RunPush(base, c);
      assert (base + [c])[..|base|] == base;
    case And(cs) =>
      RunPushPair(Conj, base, cs);
    case Or(cs) =>
      RunPushPair(Disj, base, cs);
  }

  lemma {:induction false} RunPushPair(k: Connective, base: seq<Expr>, cs: seq<Expr>)
    requires |cs| == 2 && Binary(cs[0]) && Binary(cs[1])
    requires PlainLeaves(cs[0]) && PlainLeaves(cs[1])
    ensures RunFrom(base, Tokens(Node(k, cs))) == Some(base + [Node(k, cs)])
    decreases cs, 0
  {
    var a, b := cs[0], cs[1];
    assert cs == [a, b];
    RunPush(base, b);
    RunPush(base + [b], a);
    RunOperands(base, a, b);
    RunOperator(k, base, a, b);
  }

  /** Scanning the two operands' renderings leaves the second below the first. */
  lemma RunOperands(base: seq<Expr>, a: Expr, b: Expr)
    requires RunFrom(base, Tokens(b)) == Some(base + [b])
    requires RunFrom(base + [b], Tokens(a)) == Some(base + [b] + [a])
    ensures RunFrom(base, Tokens(a) + Tokens(b)) == Some(base + [b] + [a])
  {
    RunAppend(base, Tokens(a), Tokens(b));
  }

  lemma RunOperator(k: Connective, base: seq<Expr>, a: Expr, b: Expr)
    requires RunFrom(base, Tokens(a) + Tokens(b)) == Some(base + [b] + [a])
    ensures RunFrom(base, Tokens(Node(k, [a, b]))) == Some(base + [Node(k, [a, b])])
  {
    TokensOfPair(k, a, b);
    Assoc([OpToken(k)], Tokens(a), Tokens(b));
    var st := base + [b] + [a];
    RunOnto(base, OpToken(k), Tokens(a) + Tokens(b), st);
    assert st[..|st| - 2] == base && st[|st| - 1] == a && st[|st| - 2] == b;
    StepNode(k, st);
  }

  /** Scanning one more token on the left applies its step to the stack the rest leaves. */
  lemma RunOnto(base: seq<Expr>, t: Token, toks: seq<Token>, st: seq<Expr>)
    requires RunFrom(base, toks) == Some(st)
    ensures RunFrom(base, [t] + toks) == Step(st, t)
  {
    assert ([t] + toks)[1..] == toks;
  }

  /** `#and`/`#or` replace the two top entries by their node, the top one first. */
  lemma StepNode(k: Connective, st: seq<Expr>)
    requires |st| >= 2
    ensures Step(st, OpToken(k)) == Some(st[..|st| - 2] + [Node(k, [st[|st| - 1], st[|st| - 2]])])
  {
    match k
    case Conj =>
    case Disj =>
  }

  /** What the parser builds: a binary tree with plain leaves. */
  predicate Built(e: Expr) {
    Binary(e) && PlainLeaves(e)
  }

  /** Every entry of a stack is built, checked from the top down. */
  predicate AllBuilt(s: seq<Expr>)
    decreases |s|
  {
    s == [] || (Built(s[|s| - 1]) && AllBuilt(s[..|s| - 1]))
  }

  /** The renderings of a stack's entries from its top down: the tokens that scanning pushes them from. */
  function Emit(s: seq<Expr>): seq<Token>
    decreases |s|
  {
    if s == [] then [] else Tokens(s[|s| - 1]) + Emit(s[..|s| - 1])
  }

  lemma SplitLast(p: seq<Expr>, e: Expr)
    ensures (p + [e])[..|p|] == p && (p + [e])[|p|] == e
    ensures Emit(p + [e]) == Tokens(e) + Emit(p)
    ensures AllBuilt(p + [e]) <==> Built(e) && AllBuilt(p)
  {
    assert (p + [e])[..|p|] == p;
  }

  lemma LastOf(s: seq<Expr>)
    requires s != []
    ensures s == s[..|s| - 1] + [s[|s| - 1]]
  {
  }

  /** Scanning the rendering of a stack of built trees rebuilds that stack. */
  lemma {:induction false} RunEmit(s: seq<Expr>)
    requires AllBuilt(s)
    ensures RunFrom([], Emit(s)) == Some(s)
    decreases |s|
  {
    if s != [] {
      var p, e := s[..|s| - 1], s[|s| - 1];
      LastOf(s);
      RunEmit(p);
      RunAppend([], Tokens(e), Emit(p));
      RunPush(p, e);
    }
  }

  /** How `#and`/`#or` rewrite a stack of at least two entries `p + [b, a]`: into `p + [Node(k, [a, b])]`. */
  lemma StepPair(s0: seq<Expr>, t: Token) returns (k: Connective, a: Expr, b: Expr, p: seq<Expr>)
    requires t == AndToken || t == OrToken
    requires |s0| >= 2
    ensures OpToken(k) == t
    ensures s0 == p + [b] + [a] && (p + [b]) + [a] == s0
    ensures Step(s0, t) == Some(p + [Node(k, [a, b])])
  {
    var n := |s0|;
    k := if t == AndToken then Conj else Disj;
    a, b, p := s0[n - 1], s0[n - 2], s0[..n - 2];
    assert s0 == p + [b] + [a];
  }

  lemma StepNot(s0: seq<Expr>) returns (a: Expr, p: seq<Expr>)
    requires |s0| >= 1
    ensures s0 == p + [a]
    ensures Step(s0, NotToken) == Some(p + [Not(a)])
  {
    a, p := s0[|s0| - 1], s0[..|s0| - 1];
    assert s0 == p + [a];
  }

  /** A step keeps the stack built: the parser only ever makes binary nodes over plain leaves. */
  lemma StepBuilt(s0: seq<Expr>, t: Token)
    requires AllBuilt(s0) && |s0| >= Need(t)
    ensures AllBuilt(Step(s0, t).value)
  {
    if t == AndToken || t == OrToken {
      var k, a, b, p := StepPair(s0, t);
      StepBuiltPair(k, a, b, p);
    } else if t == NotToken {
      var a, p := StepNot(s0);
      StepBuiltNot(a, p);
    } else {
      assert Step(s0, t) == Some(s0 + [Var(t)]);
      SplitLast(s0, Var(t));
    }
  }

  lemma StepBuiltNot(a: Expr, p: seq<Expr>)
    requires AllBuilt(p + [a])
    ensures AllBuilt(p + [Not(a)])
  {
    SplitLast(p, a);
    SplitLast(p, Not(a));
  }

  lemma StepBuiltPair(k: Connective, a: Expr, b: Expr, p: seq<Expr>)
    requires AllBuilt(p + [b] + [a])
    ensures AllBuilt(p + [Node(k, [a, b])])
  {
    SplitLast(p + [b], a);
    SplitLast(p, b);
    PairShape(k, a, b);
    SplitLast(p, Node(k, [a, b]));
  }

  /** A step puts the scanned token in front of the stack's rendering. */
  lemma StepEmit(s0: seq<Expr>, t: Token)
    requires |s0| >= Need(t)
    ensures Emit(Step(s0, t).value) == [t] + Emit(s0)
  {
    if t == AndToken || t == OrToken {
      var k, a, b, p := StepPair(s0, t);
      StepEmitPair(k, a, b, p);
    } else if t == NotToken {
      var a, p := StepNot(s0);
      StepEmitNot(a, p);
    } else {
      assert Step(s0, t) == Some(s0 + [Var(t)]);
      SplitLast(s0, Var(t));
    }
  }

  lemma StepEmitNot(a: Expr, p: seq<Expr>)
    ensures Emit(p + [Not(a)]) == [NotToken] + Emit(p + [a])
  {
    SplitLast(p, a);
    SplitLast(p, Not(a));
  }

  lemma StepEmitPair(k: Connective, a: Expr, b: Expr, p: seq<Expr>)
    ensures Emit(p + [Node(k, [a, b])]) == [OpToken(k)] + Emit(p + [b] + [a])
  {
    var node := Node(k, [a, b]);
    SplitLast(p + [b], a);
    SplitLast(p, b);
    SplitLast(p, node);
    TokensOfPair(k, a, b);
    Assoc([OpToken(k)] + Tokens(a), Tokens(b), Emit(p));
    Assoc([OpToken(k)], Tokens(a), Tokens(b) + Emit(p));
  }

  /** Whatever stack a successful scan leaves holds built trees whose renderings are the scanned tokens. */
  lemma {:induction false} RunSound(toks: seq<Token>)
    ensures RunFrom([], toks).Some? ==>
              AllBuilt(RunFrom([], toks).value) && Emit(RunFrom([], toks).value) == toks
    decreases |toks|
  {
    if toks != [] && RunFrom([], toks).Some? {
      var t, rest := toks[0], toks[1..];
      RunSound(rest);
      var s0 := RunFrom([], rest).value;
      assert RunFrom([], toks) == Step(s0, t);
      StepBuilt(s0, t);
      StepEmit(s0, t);
      assert toks == [t] + rest;
    }
  }

  /** Parsing succeeds with `e` exactly when `e` is a built tree whose rendering is the token sequence. */
  lemma ParseCharacterization(toks: seq<Token>, e: Expr)
    ensures Parse(toks) == Ok(e) <==> Binary(e) && PlainLeaves(e) && Tokens(e) == toks
  {
    SplitLast([], e);
    assert [] + [e] == [e];
    if Parse(toks) == Ok(e) {
      RunSound(toks);
      assert RunFrom([], toks) == Some([e]);
    }
    if Binary(e) && PlainLeaves(e) && Tokens(e) == toks {
      assert AllBuilt([e]);
      assert Emit([e]) == toks;
      RunEmit([e]);
      assert RunFrom([], toks) == Some([e]);
    }
  }

  /** Round trip from trees: parsing the rendering of a binary tree with plain leaves gives the tree back. */
  lemma RoundTrip(e: Expr)
    requires Binary(e) && PlainLeaves(e)
    ensures Parse(Tokens(e)) == Ok(e)
  {
    ParseCharacterization(Tokens(e), e);
  }

  /** Every token makes one node: a parsed tree is binary and its size is the number of tokens read. */
  lemma ParsedSize(toks: seq<Token>)
    requires Parse(toks).Ok?
    ensures Binary(Parse(toks).value) && PlainLeaves(Parse(toks).value)
    ensures Size(Parse(toks).value) == |toks|
  {
    var e := Parse(toks).value;
    ParseCharacterization(toks, e);
    TokenCount(e);
  }

  /** `#and`/`#or` take the topmost entry, which is read last, as first operand: prefix order is kept. */
  lemma OperandOrder(a: Expr, b: Expr)
    requires Binary(a) && PlainLeaves(a) && Binary(b) && PlainLeaves(b)
    ensures Parse([AndToken] + Tokens(a) + Tokens(b)) == Ok(And([a, b]))
    ensures Parse([OrToken] + Tokens(a) + Tokens(b)) == Ok(Or([a, b]))
  {
    assert forall i :: 0 <= i < 2 ==> [a, b][i] == a || [a, b][i] == b;
    TokensOfPair(Conj, a, b);
    TokensOfPair(Disj, a, b);
    RoundTrip(And([a, b]));
    RoundTrip(Or([a, b]));
  }

  /** Parsing the rendering of an n-ary tree gives its left-nested binary form. */
  lemma NaryRoundTrip(e: Expr)
    requires Serializable(e) && PlainLeaves(e)
    ensures Parse(Tokens(e)) == Ok(Binarize(e))
  {
    BinarizeShape(e);
    BinarizeTokens(e);
    RoundTrip(Binarize(e));
  }

  /** An `And`/`Or` over k >= 1 built children re-parses as the chain `Node(Node(c1, c2), c3)...`. */
  lemma ChainRoundTrip(k: Connective, cs: seq<Expr>)
    requires |cs| >= 1 && forall i :: 0 <= i < |cs| ==> Binary(cs[i]) && PlainLeaves(cs[i])
    ensures Parse(Tokens(Node(k, cs))) == Ok(Chain(k, cs))
  {
    ChainShape(k, cs);
    ChainTokens(k, cs);
    RoundTrip(Chain(k, cs));
  }
}
