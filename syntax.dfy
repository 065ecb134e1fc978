/**
 * Boolean conditions of the trace corpus and their prefix-token rendering.
 *
 * A condition is a tree over variables with n-ary `And`/`Or` and unary `Not`
 * (the solver's terms, here a datatype).  `Size` is the node-count metric
 * printed before and after simplification; `Tokens` is the prefix serializer
 * that writes a tree back into a line.  `Binarize` is the left-nested binary
 * form that re-parsing an n-ary serialization yields, and `Eval` gives the
 * trees their meaning so that this change of shape can be shown harmless.
 */
module Syntax {

  type Token = string

  const AndToken: Token := "#and"
  const OrToken: Token := "#or"
  const NotToken: Token := "#not"

  /** The three tokens the parser treats as operators; every other token is a variable. */
  predicate IsOperator(t: Token) {
    t == AndToken || t == OrToken || t == NotToken
  }

  datatype Expr =
    | Var(name: string)
    | And(args: seq<Expr>)
    | Or(args: seq<Expr>)
    | Not(arg: Expr)

  /** The two n-ary connectives, so that `And` and `Or` can share a definition. */
  datatype Connective = Conj | Disj

  function Node(k: Connective, cs: seq<Expr>): Expr {
    match k
    case Conj => And(cs)
    case Disj => Or(cs)
  }

  function OpToken(k: Connective): Token {
    match k
    case Conj => AndToken
    case Disj => OrToken
  }

  // ---------------------------------------------------------------------------
  // Size metric

  /** Every node counts one; an operator node adds the sizes of its children. */
  function Size(e: Expr): (n: nat)
    ensures n >= 1
  {
    match e
    case Var(_) => 1
    case And(cs) => 1 + SizeSum(cs)
    case Or(cs) => 1 + SizeSum(cs)
    case Not(c) => 1 + Size(c)
  }

  /** The sum of the sizes of a list of children: at least one per child. */
  function SizeSum(cs: seq<Expr>): (n: nat)
    ensures n >= |cs|
  {
    if cs == [] then 0 else Size(cs[0]) + SizeSum(cs[1..])
  }

  lemma {:induction false} SizeSumAppend(a: seq<Expr>, b: seq<Expr>)
    ensures SizeSum(a + b) == SizeSum(a) + SizeSum(b)
    decreases |a|
  {
    if a == [] {
      assert a + b == b;
    } else {
      assert (a + b)[1..] == a[1..] + b;
      SizeSumAppend(a[1..], b);
    }
  }

  /** Taking out the child at position `j` takes out its size from the sum. */
  lemma SizeSumRemove(ds: seq<Expr>, j: nat)
    requires j < |ds|
    ensures SizeSum(ds) == Size(ds[j]) + SizeSum(ds[..j] + ds[j + 1..])
  {
    assert ds == ds[..j] + ([ds[j]] + ds[j + 1..]);
    SizeSumAppend(ds[..j], [ds[j]] + ds[j + 1..]);
    assert ([ds[j]] + ds[j + 1..])[1..] == ds[j + 1..];
    SizeSumAppend(ds[..j], ds[j + 1..]);
  }

  lemma MultisetRemove(ds: seq<Expr>, j: nat)
    requires j < |ds|
    ensures multiset(ds) == multiset(ds[..j] + ds[j + 1..]) + multiset{ds[j]}
  {
    assert ds == ds[..j] + [ds[j]] + ds[j + 1..];
  }

  /** The first tree of `cs` occurs in its permutation `ds`, and the rests are permutations too. */
  lemma MatchFirst(cs: seq<Expr>, ds: seq<Expr>) returns (j: nat)
    requires cs != [] && multiset(cs) == multiset(ds)
    ensures j < |ds| && ds[j] == cs[0]
    ensures multiset(cs[1..]) == multiset(ds[..j] + ds[j + 1..])
  {
    var c := cs[0];
    assert c in multiset(ds);
    j :| 0 <= j < |ds| && ds[j] == c;
    MultisetRemove(ds, j);
    assert cs == [c] + cs[1..];
    Cancel(multiset(cs[1..]), multiset(ds[..j] + ds[j + 1..]), c);
  }

  lemma Cancel(x: multiset<Expr>, y: multiset<Expr>, c: Expr)
    requires x + multiset{c} == y + multiset{c}
    ensures x == y
  {
    assert x == (x + multiset{c}) - multiset{c};
    assert y == (y + multiset{c}) - multiset{c};
  }

  lemma {:induction false} SizeSumPermutation(cs: seq<Expr>, ds: seq<Expr>)
    requires multiset(cs) == multiset(ds)
    ensures SizeSum(cs) == SizeSum(ds)
    decreases |cs|
  {
    if cs == [] {
      assert |ds| == |multiset(ds)| == 0;
    } else {
      var j := MatchFirst(cs, ds);
      SizeSumPermutation(cs[1..], ds[..j] + ds[j + 1..]);
      SizeSumRemove(ds, j);
    }
  }

  /** Reordering the children of an `And` or `Or` (commutativity) does not change its size. */
  lemma ReorderingPreservesSize(cs: seq<Expr>, ds: seq<Expr>)
    requires multiset(cs) == multiset(ds)
    ensures Size(And(cs)) == Size(And(ds))
    ensures Size(Or(cs)) == Size(Or(ds))
  {
    SizeSumPermutation(cs, ds);
  }

  // ---------------------------------------------------------------------------
  // Shapes

  /** Trees the serializer accepts: every `And`/`Or` has at least one child. */
  predicate Serializable(e: Expr) {
    match e
    case Var(_) => true
    case And(cs) => |cs| >= 1 && forall i :: 0 <= i < |cs| ==> Serializable(cs[i])
    case Or(cs) => |cs| >= 1 && forall i :: 0 <= i < |cs| ==> Serializable(cs[i])
    case Not(c) => Serializable(c)
  }

  /** Trees the parser builds: every `And`/`Or` has exactly two children. */
  predicate Binary(e: Expr)
    ensures Binary(e) ==> Serializable(e)
  {
    match e
    case Var(_) => true
    case And(cs) => |cs| == 2 && Binary(cs[0]) && Binary(cs[1])
    case Or(cs) => |cs| == 2 && Binary(cs[0]) && Binary(cs[1])
    case Not(c) => Binary(c)
  }

  /** A binary node is binary, or has plain leaves, exactly when both its operands are or have. */
  lemma PairShape(k: Connective, a: Expr, b: Expr)
    ensures Binary(Node(k, [a, b])) <==> Binary(a) && Binary(b)
    ensures PlainLeaves(Node(k, [a, b])) <==> PlainLeaves(a) && PlainLeaves(b)
  {
    var cs := [a, b];
    assert cs[0] == a && cs[1] == b;
    assert forall i :: 0 <= i < 2 ==> cs[i] == a || cs[i] == b;
    match k
    case Conj => assert Node(k, cs) == And(cs);
    case Disj => assert Node(k, cs) == Or(cs);
  }

  /** No variable is named like an operator token, so its rendering reads back as a variable. */
  predicate PlainLeaves(e: Expr) {
    match e
    case Var(n) => !IsOperator(n)
    case And(cs) => forall i :: 0 <= i < |cs| ==> PlainLeaves(cs[i])
    case Or(cs) => forall i :: 0 <= i < |cs| ==> PlainLeaves(cs[i])
    case Not(c) => PlainLeaves(c)
  }

  // ---------------------------------------------------------------------------
  // Serializer

  /** `n` copies of the token `t`. */
  function Repeat(t: Token, n: nat): (ts: seq<Token>)
    ensures |ts| == n
  {
    if n == 0 then [] else [t] + Repeat(t, n - 1)
  }

  /** How many times a node with `k` children writes its operator: k - 1, and none for no child. */
  function OperatorCount(k: nat): nat {
    if k == 0 then 0 else k - 1
  }

  /**
   * Prefix rendering: a node with k children writes its operator k - 1 times,
   * then its children in order; `Not` writes `#not` and its child; a variable
   * writes its name.  A node without children writes nothing at all, so only
   * trees whose `And`/`Or` nodes all have a child are sure to write a token.
   */
  function Tokens(e: Expr): (ts: seq<Token>)
    ensures Serializable(e) ==> |ts| >= 1
  {
    match e
    case Var(n) => [n]
    case And(cs) => Repeat(AndToken, OperatorCount(|cs|)) + TokensAll(cs)
    case Or(cs) => Repeat(OrToken, OperatorCount(|cs|)) + TokensAll(cs)
    case Not(c) => [NotToken] + Tokens(c)
  }

  /** The renderings of a list of trees, one after the other: at least one token per serializable tree. */
  function TokensAll(cs: seq<Expr>): (ts: seq<Token>)
    ensures (forall i :: 0 <= i < |cs| ==> Serializable(cs[i])) ==> |ts| >= |cs|
  {
    if cs == [] then []
    else
      assert forall i :: 1 <= i < |cs| ==> cs[1..][i - 1] == cs[i];
      Tokens(cs[0]) + TokensAll(cs[1..])
  }

  lemma {:induction false} TokensAllAppend(cs: seq<Expr>, c: Expr)
    ensures TokensAll(cs + [c]) == TokensAll(cs) + Tokens(c)
    decreases |cs|
  {
    if cs == [] {
      assert [] + [c] == [c];
    } else {
      assert (cs + [c])[1..] == cs[1..] + [c];
      TokensAllAppend(cs[1..], c);
    }
  }

  /** The rendering of an n-ary node, for either connective. */
  lemma TokensOfNode(k: Connective, cs: seq<Expr>)
    ensures Tokens(Node(k, cs)) == Repeat(OpToken(k), OperatorCount(|cs|)) + TokensAll(cs)
  {
    match k
    case Conj => assert Node(k, cs) == And(cs);
    case Disj => assert Node(k, cs) == Or(cs);
  }

  /** A binary node renders as its operator followed by its first and then its second operand. */
  lemma TokensOfPair(k: Connective, a: Expr, b: Expr)
    ensures Tokens(Node(k, [a, b])) == [OpToken(k)] + Tokens(a) + Tokens(b)
  {
    var cs := [a, b];
    TokensOfNode(k, cs);
    assert cs[1..] == [b];
    assert TokensAll([b]) == Tokens(b) + TokensAll([]);
    assert TokensAll(cs) == Tokens(a) + TokensAll([b]);
    assert Repeat(OpToken(k), 1) == [OpToken(k)] + Repeat(OpToken(k), 0);
  }

  /** A one-child `And`/`Or` writes no operator token: only its child. */
  lemma SingleChildTokens(k: Connective, c: Expr)
    ensures Tokens(Node(k, [c])) == Tokens(c)
  {
    TokensOfNode(k, [c]);
    assert TokensAll([c]) == Tokens(c) + TokensAll([]);
  }

  /** A node with k >= 1 children writes k - 1 operator tokens and then its children's renderings in order. */
  lemma {:induction false} TokensOfNary(k: Connective, cs: seq<Expr>)
    requires |cs| >= 1
    ensures |Tokens(Node(k, cs))| >= |cs| - 1
    ensures forall i :: 0 <= i < |cs| - 1 ==> Tokens(Node(k, cs))[i] == OpToken(k)
    ensures Tokens(Node(k, cs))[|cs| - 1..] == TokensAll(cs)
  {
    TokensOfNode(k, cs);
    RepeatAt(OpToken(k), |cs| - 1);
  }

  lemma {:induction false} RepeatAt(t: Token, n: nat)
    ensures forall i :: 0 <= i < n ==> Repeat(t, n)[i] == t
  {
    if n > 0 {
      RepeatAt(t, n - 1);
      assert forall i :: 1 <= i < n ==> Repeat(t, n)[i] == Repeat(t, n - 1)[i - 1];
    }
  }

  /** For a tree of binary nodes, the rendering has exactly one token per node. */
  lemma {:induction false} TokenCount(e: Expr)
    requires Binary(e)
    ensures |Tokens(e)| == Size(e)
  {
    match e
    case Var(_) =>
    case Not(c) => TokenCount(c);
    case And(cs) => TokenCountPair(Conj, cs);
    case Or(cs) => TokenCountPair(Disj, cs);
  }

  lemma {:induction false} TokenCountPair(k: Connective, cs: seq<Expr>)
    requires |cs| == 2 && Binary(cs[0]) && Binary(cs[1])
    ensures |Tokens(Node(k, cs))| == Size(Node(k, cs))
    decreases cs, 0
  {
    assert cs == [cs[0], cs[1]];
    TokensOfPair(k, cs[0], cs[1]);
    TokenCount(cs[0]);
    TokenCount(cs[1]);
    assert SizeSum(cs) == Size(cs[0]) + SizeSum(cs[1..]);
    assert SizeSum(cs[1..]) == Size(cs[1]) + SizeSum(cs[1..][1..]);
    assert cs[1..][1..] == [];
    match k
    case Conj => assert Size(Node(k, cs)) == 1 + SizeSum(cs);
    case Disj => assert Size(Node(k, cs)) == 1 + SizeSum(cs);
  }

  // ---------------------------------------------------------------------------
  // Left-nested binary form

  /** `Chain(k, [c1, c2, c3])` is `Node(k, [Node(k, [c1, c2]), c3])`; one child is itself. */
  function Chain(k: Connective, cs: seq<Expr>): Expr
    requires |cs| >= 1
    decreases |cs|
  {
    if |cs| == 1 then cs[0]
    else Node(k, [Chain(k, cs[..|cs| - 1]), cs[|cs| - 1]])
  }

  /** A chain over binary trees with plain leaves is itself binary with plain leaves. */
  lemma {:induction false} ChainShape(k: Connective, cs: seq<Expr>)
    requires |cs| >= 1
    ensures (forall i :: 0 <= i < |cs| ==> Binary(cs[i])) ==> Binary(Chain(k, cs))
    ensures (forall i :: 0 <= i < |cs| ==> PlainLeaves(cs[i])) ==> PlainLeaves(Chain(k, cs))
    decreases |cs|
  {
    var n := |cs|;
    if n > 1 {
      var init := cs[..n - 1];
      ChainShape(k, init);
      var pair := [Chain(k, init), cs[n - 1]];
      assert forall i :: 0 <= i < n - 1 ==> init[i] == cs[i];
      assert forall i :: 0 <= i < 2 ==> pair[i] == Chain(k, init) || pair[i] == cs[n - 1];
      match k
      case Conj => assert Chain(k, cs) == And(pair);
      case Disj => assert Chain(k, cs) == Or(pair);
    }
  }

  /**
   * Every n-ary node replaced by the left-nested chain of binary nodes over the
   * same children; a node without children is kept as it is.
   */
  function Binarize(e: Expr): Expr {
    match e
    case Var(_) => e
    case And(cs) => if cs == [] then e else Chain(Conj, BinarizeAll(cs))
    case Or(cs) => if cs == [] then e else Chain(Disj, BinarizeAll(cs))
    case Not(c) => Not(Binarize(c))
  }

  function BinarizeAll(cs: seq<Expr>): (ds: seq<Expr>)
    ensures |ds| == |cs|
  {
    if cs == [] then [] else [Binarize(cs[0])] + BinarizeAll(cs[1..])
  }

  lemma {:induction false} BinarizeAllAt(cs: seq<Expr>, i: nat)
    requires i < |cs|
    ensures BinarizeAll(cs)[i] == Binarize(cs[i])
    decreases |cs|
  {
    if i > 0 {
      BinarizeAllAt(cs[1..], i - 1);
    }
  }

  /** A tree whose nodes all have a child binarizes to a binary tree, keeping its leaves plain. */
  lemma {:induction false} BinarizeShape(e: Expr)
    requires Serializable(e)
    ensures Binary(Binarize(e))
    ensures PlainLeaves(e) ==> PlainLeaves(Binarize(e))
  {
    match e
    case Var(_) =>
    case Not(c) => BinarizeShape(c);
    case And(cs) => BinarizeAllShape(cs); ChainShape(Conj, BinarizeAll(cs));
    case Or(cs) => BinarizeAllShape(cs); ChainShape(Disj, BinarizeAll(cs));
  }

  lemma {:induction false} BinarizeAllShape(cs: seq<Expr>)
    requires forall i :: 0 <= i < |cs| ==> Serializable(cs[i])
    ensures forall i :: 0 <= i < |cs| ==> Binary(BinarizeAll(cs)[i])
    ensures (forall i :: 0 <= i < |cs| ==> PlainLeaves(cs[i])) ==>
              forall i :: 0 <= i < |cs| ==> PlainLeaves(BinarizeAll(cs)[i])
    decreases cs
  {
    forall i | 0 <= i < |cs|
      ensures Binary(BinarizeAll(cs)[i])
      ensures PlainLeaves(cs[i]) ==> PlainLeaves(BinarizeAll(cs)[i])
    {
      BinarizeAllAt(cs, i);
      BinarizeShape(cs[i]);
    }
  }

  /** One more child at the end: the chain's new top node adds one operator token in front. */
  lemma ChainTokensStep(k: Connective, init: seq<Expr>, last: Expr)
    requires |init| >= 1
    requires Tokens(Chain(k, init)) == Tokens(Node(k, init))
    ensures Tokens(Chain(k, init + [last])) == Tokens(Node(k, init + [last]))
  {
    var ds := init + [last];
    var n := |ds|;
    assert ds[..n - 1] == init && ds[n - 1] == last;
    var op := OpToken(k);
    var ops, args, tail := Repeat(op, n - 2), TokensAll(init), Tokens(last);
    TokensOfPair(k, Chain(k, init), last);
    TokensOfNode(k, init);
    TokensAllAppend(init, last);
    TokensOfNode(k, ds);
    assert Repeat(op, n - 1) == [op] + ops;
    Regroup([op], ops, args, tail);
  }

  /** Concatenation regrouped, stated once for the token sequences it is needed on. */
  lemma Assoc(x: seq<Token>, y: seq<Token>, z: seq<Token>)
    ensures x + y + z == x + (y + z)
  {
  }

  /** Concatenation regrouped, stated once for the token sequences it is needed on. */
  lemma Regroup(w: seq<Token>, x: seq<Token>, y: seq<Token>, z: seq<Token>)
    ensures w + (x + y) + z == (w + x) + (y + z)
  {
  }

  /** The left-nested chain renders exactly like the n-ary node over the same children. */
  lemma {:induction false} ChainTokens(k: Connective, ds: seq<Expr>)
    requires |ds| >= 1
    ensures Tokens(Chain(k, ds)) == Tokens(Node(k, ds))
    decreases |ds|
  {
    var n := |ds|;
    if n == 1 {
      assert ds == [ds[0]];
      SingleChildTokens(k, ds[0]);
    } else {
      var init := ds[..n - 1];
      assert ds == init + [ds[n - 1]];
      ChainTokens(k, init);
      ChainTokensStep(k, init, ds[n - 1]);
    }
  }

  /** Serializing the binarized tree gives the very same tokens as serializing the original. */
  lemma {:induction false} BinarizeTokens(e: Expr)
    ensures Tokens(Binarize(e)) == Tokens(e)
  {
    match e
    case Var(_) =>
    case Not(c) => BinarizeTokens(c);
    case And(cs) =>
      if cs != [] {
        BinarizeAllTokens(cs);
        ChainTokens(Conj, BinarizeAll(cs));
      }
    case Or(cs) =>
      if cs != [] {
        BinarizeAllTokens(cs);
        ChainTokens(Disj, BinarizeAll(cs));
      }
  }

  lemma {:induction false} BinarizeAllTokens(cs: seq<Expr>)
    ensures TokensAll(BinarizeAll(cs)) == TokensAll(cs)
    decreases cs
  {
    if cs != [] {
      BinarizeTokens(cs[0]);
      BinarizeAllTokens(cs[1..]);
    }
  }

  /** The number of tokens of any serializable tree is the size of its binarized form. */
  lemma TokenCountNary(e: Expr)
    requires Serializable(e)
    ensures |Tokens(e)| == Size(Binarize(e))
  {
    BinarizeTokens(e);
    BinarizeShape(e);
    TokenCount(Binarize(e));
  }

  /** Binarizing changes nothing in a tree whose nodes are already binary. */
  lemma {:induction false} BinarizeBinary(e: Expr)
    requires Binary(e)
    ensures Binarize(e) == e
  {
    match e
    case Var(_) =>
    case Not(c) => BinarizeBinary(c);
    case And(cs) => BinarizeBinaryPair(Conj, cs);
    case Or(cs) => BinarizeBinaryPair(Disj, cs);
  }

  lemma {:induction false} BinarizeBinaryPair(k: Connective, cs: seq<Expr>)
    requires |cs| == 2 && Binary(cs[0]) && Binary(cs[1])
    ensures Binarize(Node(k, cs)) == Node(k, cs)
    decreases cs, 0
  {
    BinarizeBinary(cs[0]);
    BinarizeBinary(cs[1]);
    assert cs[1..][1..] == [];
    assert BinarizeAll(cs[1..][1..]) == [];
    assert BinarizeAll(cs[1..]) == [cs[1]];
    assert BinarizeAll(cs) == cs;
    assert cs[..1] == [cs[0]];
    assert Chain(k, cs) == Node(k, [cs[0], cs[1]]);
    assert cs == [cs[0], cs[1]];
    match k
    case Conj => assert Binarize(And(cs)) == Chain(Conj, BinarizeAll(cs));
    case Disj => assert Binarize(Or(cs)) == Chain(Disj, BinarizeAll(cs));
  }

  // ---------------------------------------------------------------------------
  // Meaning

  /** Truth value under an assignment; an empty `And` is true and an empty `Or` false, as in the solver. */
  function Eval(e: Expr, env: string -> bool): bool {
    match e
    case Var(n) => env(n)
    case And(cs) => AllHold(cs, env)
    case Or(cs) => AnyHolds(cs, env)
    case Not(c) => !Eval(c, env)
  }

  function AllHold(cs: seq<Expr>, env: string -> bool): (b: bool)
    ensures b <==> forall i :: 0 <= i < |cs| ==> Eval(cs[i], env)
  {
    if cs == [] then true else Eval(cs[0], env) && AllHold(cs[1..], env)
  }

  function AnyHolds(cs: seq<Expr>, env: string -> bool): (b: bool)
    ensures b <==> exists i :: 0 <= i < |cs| && Eval(cs[i], env)
  {
    if cs == [] then false else Eval(cs[0], env) || AnyHolds(cs[1..], env)
  }

  lemma {:induction false} ChainEval(k: Connective, ds: seq<Expr>, env: string -> bool)
    requires |ds| >= 1
    ensures Eval(Chain(k, ds), env) == Eval(Node(k, ds), env)
    decreases |ds|
  {
    var n := |ds|;
    if n > 1 {
      var init := ds[..n - 1];
      ChainEval(k, init, env);
      assert forall i :: 0 <= i < n - 1 ==> init[i] == ds[i];
      var pair := [Chain(k, init), ds[n - 1]];
      assert pair[0] == Chain(k, init) && pair[1] == ds[n - 1];
      match k
      case Conj => assert Chain(k, ds) == And(pair);
      case Disj => assert Chain(k, ds) == Or(pair);
    }
  }

  /** Binarizing a tree does not change its truth value under any assignment. */
  lemma {:induction false} BinarizeEval(e: Expr, env: string -> bool)
    ensures Eval(Binarize(e), env) == Eval(e, env)
  {
    match e
    case Var(_) =>
    case Not(c) => BinarizeEval(c, env);
    case And(cs) =>
      if cs != [] {
        BinarizeAllEval(cs, env);
        ChainEval(Conj, BinarizeAll(cs), env);
      }
    case Or(cs) =>
      if cs != [] {
        BinarizeAllEval(cs, env);
        ChainEval(Disj, BinarizeAll(cs), env);
      }
  }

  lemma {:induction false} BinarizeAllEval(cs: seq<Expr>, env: string -> bool)
    ensures forall i :: 0 <= i < |cs| ==> Eval(BinarizeAll(cs)[i], env) == Eval(cs[i], env)
    decreases cs
  {
    forall i | 0 <= i < |cs|
      ensures Eval(BinarizeAll(cs)[i], env) == Eval(cs[i], env)
    {
      BinarizeAllAt(cs, i);
      BinarizeEval(cs[i], env);
    }
  }
}
