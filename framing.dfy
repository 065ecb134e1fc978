/**
 * The framing of one line of the trace file, already split at spaces:
 *
 *   #cond <condition tokens> ; <remainder tokens>
 *
 * A line is accepted only if its first token is `#cond` and some token is
 * `;`; the condition is everything between the two, up to the first `;`, and
 * everything after that `;` is written back unchanged after the rewritten
 * condition.  `ProcessLine` is the per-line pipeline with the solver's
 * simplification passed in as a function from the parsed condition to the list
 * of goal formulas the tactic leaves, which the program conjoins again.
 */
module Framing {
  import opened Results
  import opened Syntax
  import opened Parser

  const CondMarker: Token := "#cond"
  const Semicolon: Token := ";"

  datatype LineError =
    | MissingMarker      // the first token is not `#cond`
    | MissingSemicolon   // no token is `;`

  /** The two parts of an accepted line. */
  datatype Frame = Frame(cond: seq<Token>, rest: seq<Token>)

  /** The position of the first `t` in `s`, or `|s|` when `t` does not occur. */
  function IndexOf(s: seq<Token>, t: Token): (r: nat)
    ensures r <= |s|
    ensures r < |s| ==> s[r] == t
    ensures r == |s| <==> t !in s
    ensures forall j :: 0 <= j < r ==> s[j] != t
  {
    if s == [] then 0
    else if s[0] == t then 0
    else 1 + IndexOf(s[1..], t)
  }

  /**
   * Checks the marker, finds the first `;` and cuts the line there.  An
   * accepted line is exactly the marker, a condition without `;`, the
   * semicolon and the remainder.
   */
  function SplitLine(line: seq<Token>): (r: Result<Frame, LineError>)
    ensures r == Err(MissingMarker) <==> |line| == 0 || line[0] != CondMarker
    ensures r.Ok? <==> |line| > 0 && line[0] == CondMarker && Semicolon in line
    ensures r.Ok? ==> line == [CondMarker] + r.value.cond + [Semicolon] + r.value.rest
    ensures r.Ok? ==> Semicolon !in r.value.cond
  {
    if |line| == 0 || line[0] != CondMarker then Err(MissingMarker)
    else
      var semic := IndexOf(line, Semicolon);
      if semic == |line| then Err(MissingSemicolon)
      else
        assert line == [line[0]] + line[1..semic] + [line[semic]] + line[semic + 1..];
        Ok(Frame(line[1..semic], line[semic + 1..]))
  }

  /** A line built from a condition without `;` and any remainder splits back into those two parts. */
  lemma FrameRoundTrip(cond: seq<Token>, rest: seq<Token>)
    requires Semicolon !in cond
    ensures SplitLine([CondMarker] + cond + [Semicolon] + rest) == Ok(Frame(cond, rest))
  {
    var line := [CondMarker] + cond + [Semicolon] + rest;
    var f := SplitLine(line).value;
    assert Semicolon in line by { assert line[|cond| + 1] == Semicolon; }
    assert forall i :: 0 <= i < |cond| ==> line[i + 1] == cond[i];
    assert line[1..|cond| + 1] == cond;
    var semic := IndexOf(line, Semicolon);
    assert line[|cond| + 1] == Semicolon;
    assert semic == |cond| + 1;
    assert line[semic + 1..] == rest;
  }

  /**
   * The line written back: the marker, the rendered condition, the semicolon
   * and the old remainder.  When the condition writes no `;`, the line splits
   * back into that condition and that remainder.
   */
  function RenderLine(e: Expr, rest: seq<Token>): (r: seq<Token>)
    ensures Semicolon !in Tokens(e) ==> SplitLine(r) == Ok(Frame(Tokens(e), rest))
  {
    var line := [CondMarker] + Tokens(e) + [Semicolon] + rest;
    assert Semicolon !in Tokens(e) ==> SplitLine(line) == Ok(Frame(Tokens(e), rest)) by {
      if Semicolon !in Tokens(e) {
        FrameRoundTrip(Tokens(e), rest);
      }
    }
    line
  }

  /** Writing back the parsed condition itself reproduces the input line token for token. */
  lemma UnchangedConditionReproducesLine(line: seq<Token>)
    requires SplitLine(line).Ok?
    requires Parse(SplitLine(line).value.cond).Ok?
    ensures RenderLine(Parse(SplitLine(line).value.cond).value, SplitLine(line).value.rest) == line
  {
  }

  // ---------------------------------------------------------------------------
  // One line through the pipeline

  datatype LineFailure =
    | BadFrame(frame: LineError)
    | BadCondition(parse: ParseError)
    | EmptyGoal   // the tactic left no goal, so there is nothing to conjoin

  /**
   * One loop iteration: split the line, parse the condition, let `simplify`
   * produce the goal formulas, conjoin them into one `And` and write the line.
   * A tactic that leaves no goal at all gives no line.
   */
  function ProcessLine(line: seq<Token>, simplify: Expr -> seq<Expr>): (r: Result<seq<Token>, LineFailure>)
    ensures r.Err? && r.error.BadFrame? ==> SplitLine(line) == Err(r.error.frame)
    ensures r.Err? && r.error.BadCondition? ==>
              SplitLine(line).Ok? && Parse(SplitLine(line).value.cond) == Err(r.error.parse)
    ensures r.Err? && r.error.EmptyGoal? ==>
              SplitLine(line).Ok? && Parse(SplitLine(line).value.cond).Ok? &&
              simplify(Parse(SplitLine(line).value.cond).value) == []
    ensures r.Ok? ==> |line| > 0 && line[0] == CondMarker && Semicolon in line
    ensures r.Ok? ==> |r.value| >= 2 && r.value[0] == CondMarker
    ensures r.Ok? ==>
              var rest := SplitLine(line).value.rest;
              |r.value| >= |rest| + 1 &&
              r.value[|r.value| - |rest| - 1] == Semicolon &&
              r.value[|r.value| - |rest|..] == rest
  {
    match SplitLine(line)
    case Err(le) => Err(BadFrame(le))
    case Ok(f) =>
      match Parse(f.cond)
      case Err(pe) => Err(BadCondition(pe))
      case Ok(e) =>
        var goals := simplify(e);
        if goals == [] then Err(EmptyGoal)
        else
          var out := RenderLine(And(goals), f.rest);
          assert out == ([CondMarker] + Tokens(And(goals))) + ([Semicolon] + f.rest);
          Ok(out)
  }

  /** A tactic that leaves the condition as its one goal. */
  function KeepGoal(e: Expr): seq<Expr> {
    [e]
  }

  /**
   * With a tactic that changes nothing, the conjunction of the single goal
   * writes no extra operator token, so every line whose frame is accepted
   * and whose condition parses is written back exactly as it was read.
   */
  lemma UnchangedGoalReproducesLine(line: seq<Token>)
    requires SplitLine(line).Ok? && Parse(SplitLine(line).value.cond).Ok?
    ensures ProcessLine(line, KeepGoal) == Ok(line)
  {
    var f := SplitLine(line).value;
    var e := Parse(f.cond).value;
    SingleChildTokens(Conj, e);
    UnchangedConditionReproducesLine(line);
  }

  /**
   * A line is processed exactly when its frame is accepted, its condition
   * parses and the tactic leaves at least one goal; whatever the goals are, a
   * written line whose condition has no `;` is accepted again, with the new
   * condition and the old remainder.
   */
  lemma ProcessedLineSplits(line: seq<Token>, simplify: Expr -> seq<Expr>)
    ensures ProcessLine(line, simplify).Ok? <==>
              SplitLine(line).Ok? && Parse(SplitLine(line).value.cond).Ok? &&
              simplify(Parse(SplitLine(line).value.cond).value) != []
    ensures ProcessLine(line, simplify).Ok? ==>
              var f := SplitLine(line).value;
              var goal := And(simplify(Parse(f.cond).value));
              Semicolon !in Tokens(goal) ==>
                SplitLine(ProcessLine(line, simplify).value) == Ok(Frame(Tokens(goal), f.rest))
  {
  }
}
