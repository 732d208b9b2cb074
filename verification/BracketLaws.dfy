/** The two bracket matchers are inverse to each other on (), [] and {}, in any text. */
module BracketLaws {
  import opened Ranking
  import opened Brackets

  // ---------- the plain matchers, which see nothing but round, square and curly brackets ----------

  function PlainForward(c: char, stack: seq<char>): Step {
    if IsOpen(c) then Go(stack + [c])
    else if IsClose(c) then
      if stack == [] || !Pairs(Top(stack), c) then Fail
      else if |stack| == 1 then Found else Go(Pop(stack))
    else Go(stack)
  }

  function PlainForwardFrom(lines: Lines, l: nat, i: nat, stack: seq<char>): Option<(nat, nat)>
    requires l < |lines| && i <= |lines[l]|
    decreases |lines| - l, |lines[l]| - i
  {
    if i < |lines[l]| then
      match PlainForward(lines[l][i], stack)
      case Found => Some((l, i + 1))
      case Fail => None
      case Go(s) => PlainForwardFrom(lines, l, i + 1, s)
    else if l < |lines| - 1 then PlainForwardFrom(lines, l + 1, 0, stack)
    else None
  }

  function PlainBackward(c: char, stack: seq<char>): Step {
    if IsClose(c) then Go(stack + [c])
    else if IsOpen(c) then
      if stack == [] || !Pairs(c, Top(stack)) then Fail
      else if |stack| == 1 then Found else Go(Pop(stack))
    else Go(stack)
  }

  function PlainBackwardFrom(lines: Lines, l: nat, i: nat, stack: seq<char>): Option<(nat, nat)>
    requires l < |lines| && i <= |lines[l]|
    decreases l, i
  {
    if i > 0 then
      match PlainBackward(lines[l][i - 1], stack)
      case Found => Some((l, i - 1))
      case Fail => None
      case Go(s) => PlainBackwardFrom(lines, l, i - 1, s)
    else if l > 0 then PlainBackwardFrom(lines, l - 1, |lines[l - 1]|, stack)
    else None
  }

  // ---------- angle brackets never matter once a plain bracket is at the bottom of the stack ----------

  /** The stack without its angle brackets. */
  function Plain(stack: seq<char>): seq<char> {
    if stack == [] then []
    else if IsBracket(Top(stack)) then Plain(Pop(stack)) + [Top(stack)]
    else Plain(Pop(stack))
  }

  /** A plain bracket at the bottom, nothing but brackets and `angle` above it. */
  predicate Grounded(stack: seq<char>, angle: char) {
    stack != [] && IsBracket(stack[0]) && forall c :: c in stack ==> IsBracket(c) || c == angle
  }

  lemma PlainPush(stack: seq<char>, c: char)
    ensures Plain(stack + [c]) == if IsBracket(c) then Plain(stack) + [c] else Plain(stack)
  {
    assert Pop(stack + [c]) == stack;
  }

  lemma {:induction false} StripPlain(stack: seq<char>, angle: char)
    requires Grounded(stack, angle) && !IsBracket(angle)
    ensures var s := Strip(stack, angle);
            && Grounded(s, angle) && IsBracket(Top(s))
            && Plain(s) == Plain(stack) == Plain(Pop(s)) + [Top(s)]
            && (|Plain(stack)| == 1 <==> |s| == 1)
            && (|s| > 1 ==> Grounded(Pop(s), angle))
  {
    if Top(stack) == angle {
      assert |stack| > 1;
      assert Grounded(Pop(stack), angle);
      StripPlain(Pop(stack), angle);
    } else {
      assert Top(stack) in stack;
      if |stack| > 1 {
        GroundedPlain(Pop(stack), angle);
      }
    }
  }

  lemma {:induction false} GroundedPlain(stack: seq<char>, angle: char)
    requires Grounded(stack, angle)
    ensures stack != [] && Plain(stack) != []
  {
    if |stack| > 1 {
      assert Grounded(Pop(stack), angle);
      GroundedPlain(Pop(stack), angle);
    }
  }

  lemma PopAngle(stack: seq<char>, angle: char)
    requires Grounded(stack, angle) && !IsBracket(angle)
    ensures Top(stack) == angle ==>
              |stack| > 1 && Grounded(Pop(stack), angle) && Plain(Pop(stack)) == Plain(stack)
  {
  }

  lemma PushGrounded(stack: seq<char>, angle: char, c: char)
    requires Grounded(stack, angle) && (IsBracket(c) || c == angle)
    ensures Grounded(stack + [c], angle)
  {
  }

  /** One character has the same effect on the plain brackets in the real and the plain matcher. */
  lemma ForwardIsPlain(line: string, i: nat, stack: seq<char>)
    requires i < |line| && Grounded(stack, '<')
    ensures match Forward(line, i, stack)
            case Go(s) => Grounded(s, '<') && PlainForward(line[i], Plain(stack)) == Go(Plain(s))
            case Found => PlainForward(line[i], Plain(stack)) == Found
            case Fail => PlainForward(line[i], Plain(stack)) == Fail
  {
    hide Strip, Plain, EndsWithOperator, Grounded;
    var c := line[i];
    StripPlain(stack, '<');
    GroundedPlain(stack, '<');
    PlainPush(stack, c);
    PopAngle(stack, '<');
    if IsBracket(c) || c == '<' {
      PushGrounded(stack, '<', c);
    }
  }

  lemma BackwardIsPlain(line: string, i: nat, stack: seq<char>)
    requires i < |line| && Grounded(stack, '>')
    ensures match Backward(line, i, stack)
            case Go(s) => Grounded(s, '>') && PlainBackward(line[i], Plain(stack)) == Go(Plain(s))
            case Found => PlainBackward(line[i], Plain(stack)) == Found
            case Fail => PlainBackward(line[i], Plain(stack)) == Fail
  {
    hide Strip, Plain, Ignored, Grounded;
    var c := line[i];
    StripPlain(stack, '>');
    GroundedPlain(stack, '>');
    PlainPush(stack, c);
    PopAngle(stack, '>');
    if IsBracket(c) || c == '>' {
      PushGrounded(stack, '>', c);
    }
  }

  lemma {:induction false} ForwardLineIsPlain(lines: Lines, l: nat, i: nat, stack: seq<char>)
    requires l < |lines| && i <= |lines[l]| && Grounded(stack, '<')
    ensures match ForwardLine(lines[l], i, stack)
            case At(e) => PlainForwardFrom(lines, l, i, Plain(stack)) == Some((l, e))
            case Unclosed => PlainForwardFrom(lines, l, i, Plain(stack)) == None
            case Open(s) =>
              && Grounded(s, '<')
              && PlainForwardFrom(lines, l, i, Plain(stack)) == PlainForwardFrom(lines, l, |lines[l]|, Plain(s))
    decreases |lines[l]| - i
  {
    hide Strip, Plain, Grounded, Forward;
    if i < |lines[l]| {
      ForwardIsPlain(lines[l], i, stack);
      match Forward(lines[l], i, stack)
      case Go(s) => ForwardLineIsPlain(lines, l, i + 1, s);
      case _ =>
    }
  }

  lemma {:induction false} ForwardFromIsPlain(lines: Lines, l: nat, i: nat, stack: seq<char>)
    requires l < |lines| && i <= |lines[l]| && Grounded(stack, '<')
    ensures ForwardFrom(lines, l, i, stack) == PlainForwardFrom(lines, l, i, Plain(stack))
    decreases |lines| - l
  {
    ForwardLineIsPlain(lines, l, i, stack);
    match ForwardLine(lines[l], i, stack)
    case Open(s) => if l < |lines| - 1 { ForwardFromIsPlain(lines, l + 1, 0, s); }
    case _ =>
  }

  lemma LastOf(s: string, w: string)
    requires 0 < |w| <= |s| && s[|s| - |w|..] == w
    ensures s[|s| - 1] == w[|w| - 1]
  {
    assert s[|s| - |w|..][|w| - 1] == s[|s| - 1];
  }

  lemma TrimRightEnd(s: string)
    ensures s == [] || IsSpace(s[|s| - 1]) || TrimRight(s) == s
    ensures s == [] ==> TrimRight(s) == []
  {
  }

  lemma OperatorEnd(s: string)
    requires EndsWithOperator(s)
    ensures s != [] && (IsSpace(s[|s| - 1]) || s[|s| - 1] == 'r')
  {
    hide TrimRight;
    TrimRightEnd(s);
    if TrimRight(s) == s {
      LastOf(s, "operator");
    }
  }

  /** The character that the backward matcher skips unseen is never a bracket. */
  lemma SkippedIsPlain(line: string, i: nat)
    requires i < |line| && Stride(line, i) == 2
    ensures i > 0 && !IsBracket(line[i - 1]) && !IsBracket(line[i])
  {
    hide EndsWithOperator;
    if line[i] == '>' && line[i - 1] != '-' && !SpacedAtLeast(line, i) {
      OperatorEnd(line[..i]);
    }
  }

  lemma {:induction false} BackwardLineIsPlain(lines: Lines, l: nat, i: nat, stack: seq<char>)
    requires l < |lines| && i <= |lines[l]| && Grounded(stack, '>')
    ensures match BackwardLine(lines[l], i, stack)
            case At(p) => PlainBackwardFrom(lines, l, i, Plain(stack)) == Some((l, p))
            case Unclosed => PlainBackwardFrom(lines, l, i, Plain(stack)) == None
            case Open(s) =>
              && Grounded(s, '>')
              && PlainBackwardFrom(lines, l, i, Plain(stack)) == PlainBackwardFrom(lines, l, 0, Plain(s))
    decreases i
  {
    hide Ignored, Strip, Plain, Grounded, Backward;
    if i > 0 {
      BackwardIsPlain(lines[l], i - 1, stack);
      match Backward(lines[l], i - 1, stack)
      case Go(s) =>
        var n := Stride(lines[l], i - 1);
        if n == 2 {
          SkippedIsPlain(lines[l], i - 1);
          assert PlainBackward(lines[l][i - 2], Plain(s)) == Go(Plain(s));
        }
        assert PlainBackwardFrom(lines, l, i, Plain(stack)) == PlainBackwardFrom(lines, l, i - n, Plain(s));
        BackwardLineIsPlain(lines, l, i - n, s);
      case _ =>
    }
  }

  lemma {:induction false} BackwardFromIsPlain(lines: Lines, l: nat, i: nat, stack: seq<char>)
    requires l < |lines| && i <= |lines[l]| && Grounded(stack, '>')
    ensures BackwardFrom(lines, l, i, stack) == PlainBackwardFrom(lines, l, i, Plain(stack))
    decreases l
  {
    BackwardLineIsPlain(lines, l, i, stack);
    match BackwardLine(lines[l], i, stack)
    case Open(s) => if l > 0 { BackwardFromIsPlain(lines, l - 1, |lines[l - 1]|, s); }
    case _ =>
  }

  // ---------- the plain matchers mirror each other ----------

  function Partner(c: char): char {
    match c
    case '(' => ')' case '[' => ']' case '{' => '}'
    case ')' => '(' case ']' => '[' case '}' => '{'
    case _ => c
  }

  function Mirror(stack: seq<char>): (m: seq<char>)
    ensures |m| == |stack|
    ensures forall i :: 0 <= i < |stack| ==> m[i] == Partner(stack[i])
  {
    seq(|stack|, i requires 0 <= i < |stack| => Partner(stack[i]))
  }

  /** While the forward matcher runs from (l, i) with a stack of openers to its match, the backward
      matcher runs from the match to (l, i) with the mirrored stack of closers. */
  lemma {:induction false} ForwardThenBackward(lines: Lines, l: nat, i: nat, stack: seq<char>)
    requires l < |lines| && i <= |lines[l]|
    requires stack != [] && forall c :: c in stack ==> IsOpen(c)
    requires PlainForwardFrom(lines, l, i, stack).Some?
    ensures var (l2, e) := PlainForwardFrom(lines, l, i, stack).value;
            && l2 < |lines| && 0 < e <= |lines[l2]|
            && IsClose(lines[l2][e - 1])
            && PlainBackwardFrom(lines, l2, e, []) == PlainBackwardFrom(lines, l, i, Mirror(stack))
    decreases |lines| - l, |lines[l]| - i
  {
    if i < |lines[l]| {
      var c := lines[l][i];
      match PlainForward(c, stack)
      case Go(s) =>
        ForwardThenBackward(lines, l, i + 1, s);
        if IsOpen(c) {
          assert Mirror(s) == Mirror(stack) + [Partner(c)];
        } else if IsClose(c) {
          assert Mirror(stack) == Mirror(s) + [c];
        }
      case Found =>
        assert Mirror(stack) == [] + [c];
    } else {
      ForwardThenBackward(lines, l + 1, 0, stack);
    }
  }

  lemma {:induction false} BackwardThenForward(lines: Lines, l: nat, i: nat, stack: seq<char>)
    requires l < |lines| && i <= |lines[l]|
    requires stack != [] && forall c :: c in stack ==> IsClose(c)
    requires PlainBackwardFrom(lines, l, i, stack).Some?
    ensures var (l1, p) := PlainBackwardFrom(lines, l, i, stack).value;
            && l1 < |lines| && p < |lines[l1]|
            && IsOpen(lines[l1][p])
            && PlainForwardFrom(lines, l1, p, []) == PlainForwardFrom(lines, l, i, Mirror(stack))
    decreases l, i
  {
    if i > 0 {
      var c := lines[l][i - 1];
      match PlainBackward(c, stack)
      case Go(s) =>
        BackwardThenForward(lines, l, i - 1, s);
        if IsClose(c) {
          assert Mirror(s) == Mirror(stack) + [Partner(c)];
        } else if IsOpen(c) {
          assert Mirror(stack) == Mirror(s) + [c];
        }
      case Found =>
        assert Mirror(stack) == [] + [c];
    } else {
      BackwardThenForward(lines, l - 1, |lines[l - 1]|, stack);
    }
  }

  // ---------- the laws ----------

  lemma CloseIsPlain(lines: Lines, l: nat, pos: nat)
    requires l < |lines| && pos < |lines[l]| && IsOpen(lines[l][pos])
    ensures Close(lines, l, pos) == PlainForwardFrom(lines, l, pos + 1, [lines[l][pos]])
  {
    hide EndsWithOperator, Strip, PlainForwardFrom;
    var o := lines[l][pos];
    assert [] + [o] == [o] && Plain([o]) == [o];
    ForwardFromIsPlain(lines, l, pos + 1, [o]);
    assert Forward(lines[l], pos, []) == Go([o]);
    assert ForwardLine(lines[l], pos, []) == ForwardLine(lines[l], pos + 1, [o]);
  }

  lemma ReverseCloseIsPlain(lines: Lines, l: nat, pos: nat)
    requires l < |lines| && pos < |lines[l]| && IsClose(lines[l][pos])
    ensures ReverseClose(lines, l, pos) == PlainBackwardFrom(lines, l, pos, [lines[l][pos]])
  {
    hide Ignored, Strip, PlainBackwardFrom;
    var c := lines[l][pos];
    assert [] + [c] == [c] && Plain([c]) == [c];
    BackwardFromIsPlain(lines, l, pos, [c]);
    assert Backward(lines[l], pos, []) == Go([c]) && Stride(lines[l], pos) == 1;
    assert BackwardLine(lines[l], pos + 1, []) == BackwardLine(lines[l], pos, [c]);
  }

  /** Whatever the text, if the forward matcher closes a round, square or curly bracket, the
      backward matcher leads from there back to it. */
  lemma ReverseUndoesClose(lines: Lines, l: nat, pos: nat)
    requires l < |lines| && pos < |lines[l]| && IsOpen(lines[l][pos])
    requires Close(lines, l, pos).Some?
    ensures var (l2, e) := Close(lines, l, pos).value;
            && l2 < |lines| && 0 < e <= |lines[l2]|
            && ReverseClose(lines, l2, e - 1) == Some((l, pos))
  {
    var o := lines[l][pos];
    CloseIsPlain(lines, l, pos);
    ForwardThenBackward(lines, l, pos + 1, [o]);
    var (l2, e) := Close(lines, l, pos).value;
    ReverseCloseIsPlain(lines, l2, e - 1);
    assert [] + [lines[l2][e - 1]] == [lines[l2][e - 1]];
    assert Mirror([o]) == [Partner(o)];
  }

  lemma CloseUndoesReverse(lines: Lines, l: nat, pos: nat)
    requires l < |lines| && pos < |lines[l]| && IsClose(lines[l][pos])
    requires ReverseClose(lines, l, pos).Some?
    ensures var (l1, p) := ReverseClose(lines, l, pos).value;
            && l1 < |lines| && p < |lines[l1]|
            && Close(lines, l1, p) == Some((l, pos + 1))
  {
    var c := lines[l][pos];
    ReverseCloseIsPlain(lines, l, pos);
    BackwardThenForward(lines, l, pos, [c]);
    var (l1, p) := ReverseClose(lines, l, pos).value;
    CloseIsPlain(lines, l1, p);
    assert [] + [lines[l1][p]] == [lines[l1][p]];
    assert Mirror([c]) == [Partner(c)];
  }

  /** With a template bracket the law fails: the backward matcher takes " >= " for an operator. */
  lemma AngleCounterexample()
    ensures var lines := ["< >= x"];
            Close(lines, 0, 0) == Some((0, 3)) && ReverseClose(lines, 0, 2) == None
  {
    var line := "< >= x";
    assert Forward(line, 0, []) == Go(['<']);
    assert Forward(line, 1, ['<']) == Go(['<']);
    assert TrimRight(line[..1]) == line[..1];
    assert Forward(line, 2, ['<']) == Found;
    assert ForwardLine(line, 2, ['<']) == At(3);
    assert ForwardLine(line, 1, ['<']) == At(3);
    assert ForwardLine(line, 0, []) == At(3);
    assert Backward(line, 2, []) == Go([]) && Stride(line, 2) == 2;
    assert Backward(line, 0, []) == Go([]) && Stride(line, 0) == 1;
    assert BackwardLine(line, 1, []) == Open([]);
    assert BackwardLine(line, 3, []) == Open([]);
  }

  /** The inverse law for openers o, over all texts. */
  ghost predicate Invertible(o: char) {
    forall lines: Lines, l: nat, pos: nat ::
      l < |lines| && pos < |lines[l]| && lines[l][pos] == o && Close(lines, l, pos).Some? ==>
        var (l2, e) := Close(lines, l, pos).value;
        l2 < |lines| && 0 < e <= |lines[l2]| && ReverseClose(lines, l2, e - 1) == Some((l, pos))
  }

  /** Exactly the template bracket breaks the inverse law. */
  lemma InvertibleIff(o: char)
    requires IsOpen(o) || o == '<'
    ensures Invertible(o) <==> o != '<'
  {
    if o == '<' {
      AngleCounterexample();
      var lines := ["< >= x"];
      assert lines[0][0] == o && Close(lines, 0, 0).Some?;
    } else {
      forall lines: Lines, l: nat, pos: nat
        | l < |lines| && pos < |lines[l]| && lines[l][pos] == o && Close(lines, l, pos).Some?
        ensures var (l2, e) := Close(lines, l, pos).value;
                l2 < |lines| && 0 < e <= |lines[l2]| && ReverseClose(lines, l2, e - 1) == Some((l, pos))
      {
        ReverseUndoesClose(lines, l, pos);
      }
    }
  }
}
