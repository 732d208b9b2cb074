/** The bracket matchers of cpplint: forward from an opening bracket and backward from a closing
    one, across lines, over text in which '<' and '>' may be operators or template brackets. */
module Brackets {
  import opened Ranking

  type Lines = seq<string>

  /** What one character does to the search. */
  datatype Step = Go(stack: seq<char>) | Found | Fail

  /** A line was searched: the match was found just before pos, or the expression cannot be
      closed, or the line ended with this stack. */
  datatype LineResult = At(pos: nat) | Unclosed | Open(stack: seq<char>)

  predicate IsOpen(c: char) { c == '(' || c == '[' || c == '{' }
  predicate IsClose(c: char) { c == ')' || c == ']' || c == '}' }
  predicate IsBracket(c: char) { IsOpen(c) || IsClose(c) }

  predicate Pairs(o: char, c: char) {
    (o == '(' && c == ')') || (o == '[' && c == ']') || (o == '{' && c == '}')
  }

  predicate IsSpace(c: char) {
    c == ' ' || c == '\t' || c == '\n' || c == '\r' || c == '\U{B}' || c == '\U{C}'
  }

  predicate IsWord(c: char) {
    'a' <= c <= 'z' || 'A' <= c <= 'Z' || '0' <= c <= '9' || c == '_'
  }

  function TrimRight(s: string): string {
    if s != [] && IsSpace(s[|s| - 1]) then TrimRight(s[..|s| - 1]) else s
  }

  /** The pattern \boperator\s*$ */
  predicate EndsWithOperator(s: string) {
    var t := TrimRight(s);
    && |t| >= 8 && t[|t| - 8..] == "operator"
    && (|t| == 8 || !IsWord(t[|t| - 9]))
  }

  /** The pattern \s>=\s, met around position i. */
  predicate SpacedAtLeast(line: string, i: nat)
    requires 0 < i < |line|
  {
    i + 2 < |line| && IsSpace(line[i - 1]) && line[i] == '>' && line[i + 1] == '=' && IsSpace(line[i + 2])
  }

  /** Remove pending angle brackets from the top of the stack. */
  function Strip(stack: seq<char>, angle: char): seq<char> {
    if stack != [] && stack[|stack| - 1] == angle then Strip(stack[..|stack| - 1], angle) else stack
  }

  function Top(stack: seq<char>): char
    requires stack != []
  {
    stack[|stack| - 1]
  }

  function Pop(stack: seq<char>): seq<char>
    requires stack != []
  {
    stack[..|stack| - 1]
  }

  // ---------- forward ----------

  function Forward(line: string, i: nat, stack: seq<char>): Step
    requires i < |line|
  {
    var c := line[i];
    if IsOpen(c) then Go(stack + [c])
    else if c == '<' then
      if i > 0 && line[i - 1] == '<' then
        if stack != [] && Top(stack) == '<' then
          if |stack| == 1 then Fail else Go(Pop(stack))
        else Go(stack)
      else if i > 0 && EndsWithOperator(line[..i]) then Go(stack)
      else Go(stack + ['<'])
    else if IsClose(c) then
      var s := Strip(stack, '<');
      if s == [] || !Pairs(Top(s), c) then Fail
      else if |s| == 1 then Found else Go(Pop(s))
    else if c == '>' then
      if i > 0 && (line[i - 1] == '-' || EndsWithOperator(line[..i - 1])) then Go(stack)
      else if stack != [] && Top(stack) == '<' then
        if |stack| == 1 then Found else Go(Pop(stack))
      else Go(stack)
    else if c == ';' then
      var s := Strip(stack, '<');
      if s == [] then Fail else Go(s)
    else Go(stack)
  }

  function ForwardLine(line: string, i: nat, stack: seq<char>): LineResult
    requires i <= |line|
    decreases |line| - i
  {
    if i == |line| then Open(stack)
    else
      match Forward(line, i, stack)
      case Found => At(i + 1)
      case Fail => Unclosed
      case Go(s) => ForwardLine(line, i + 1, s)
  }

  /** The forward search over the rest of the lines. */
  function ForwardFrom(lines: Lines, l: nat, i: nat, stack: seq<char>): Option<(nat, nat)>
    requires l < |lines| && i <= |lines[l]|
    decreases |lines| - l
  {
    match ForwardLine(lines[l], i, stack)
    case At(e) => Some((l, e))
    case Unclosed => None
    case Open(s) => if s != [] && l < |lines| - 1 then ForwardFrom(lines, l + 1, 0, s) else None
  }

  function Close(lines: Lines, l: nat, pos: nat): Option<(nat, nat)>
    requires l < |lines| && pos < |lines[l]|
  {
    var line := lines[l];
    if (!IsOpen(line[pos]) && line[pos] != '<')
       || (line[pos] == '<' && pos + 1 < |line| && (line[pos + 1] == '<' || line[pos + 1] == '='))
    then None
    else ForwardFrom(lines, l, pos, [])
  }

  method FindEndOfExpressionInLine(line: string, startpos: nat, stack: seq<char>) returns (r: LineResult)
    requires startpos <= |line|
    ensures r == ForwardLine(line, startpos, stack)
  {
    var s := stack;
    for i := startpos to |line|
      invariant ForwardLine(line, i, s) == ForwardLine(line, startpos, stack)
    {
      match Forward(line, i, s) {
        case Found => return At(i + 1);
        case Fail => return Unclosed;
        case Go(s') => s := s';
      }
    }
    return Open(s);
  }

  method CloseExpression(lines: Lines, linenum: nat, pos: nat) returns (r: Option<(nat, nat)>)
    requires linenum < |lines| && pos < |lines[linenum]|
    ensures r == Close(lines, linenum, pos)
  {
    var line, l := lines[linenum], linenum;
    if !(IsOpen(line[pos]) || line[pos] == '<')
       || (line[pos] == '<' && pos + 1 < |line| && (line[pos + 1] == '<' || line[pos + 1] == '=')) {
      return None;
    }
    var found := FindEndOfExpressionInLine(line, pos, []);
    while found.Open? && found.stack != [] && l < |lines| - 1
      invariant linenum <= l < |lines|
      invariant found.At? ==> Close(lines, linenum, pos) == Some((l, found.pos))
      invariant found.Unclosed? ==> Close(lines, linenum, pos) == None
      invariant found.Open? ==>
                  (Close(lines, linenum, pos)
                   == if found.stack != [] && l < |lines| - 1 then ForwardFrom(lines, l + 1, 0, found.stack) else None)
      decreases |lines| - l
    {
      l := l + 1;
      found := FindEndOfExpressionInLine(lines[l], 0, found.stack);
    }
    return if found.At? then Some((l, found.pos)) else None;
  }

  // ---------- backward ----------

  /** Whether the '>' at i is part of "->", " >= " or "operator>" and is skipped together with
      the character before it. */
  predicate Ignored(line: string, i: nat)
    requires i < |line|
  {
    i > 0 && (line[i - 1] == '-' || SpacedAtLeast(line, i) || EndsWithOperator(line[..i]))
  }

  /** How far the backward search moves. */
  function Stride(line: string, i: nat): (n: nat)
    requires i < |line|
    ensures 1 <= n <= i + 1
  {
    if (line[i] == '>' && Ignored(line, i)) || (line[i] == '<' && i > 0 && line[i - 1] == '<') then 2 else 1
  }

  function Backward(line: string, i: nat, stack: seq<char>): Step
    requires i < |line|
  {
    var c := line[i];
    if IsClose(c) then Go(stack + [c])
    else if c == '>' then
      if Ignored(line, i) then Go(stack) else Go(stack + ['>'])
    else if c == '<' then
      if i > 0 && line[i - 1] == '<' then Go(stack)
      else if stack != [] && Top(stack) == '>' then
        if |stack| == 1 then Found else Go(Pop(stack))
      else Go(stack)
    else if IsOpen(c) then
      var s := Strip(stack, '>');
      if s == [] || !Pairs(c, Top(s)) then Fail
      else if |s| == 1 then Found else Go(Pop(s))
    else if c == ';' then
      var s := Strip(stack, '>');
      if s == [] then Fail else Go(s)
    else Go(stack)
  }

  /** The line is searched from position i - 1 down. */
  function BackwardLine(line: string, i: nat, stack: seq<char>): LineResult
    requires i <= |line|
    decreases i
  {
    if i == 0 then Open(stack)
    else
      match Backward(line, i - 1, stack)
      case Found => At(i - 1)
      case Fail => Unclosed
      case Go(s) => BackwardLine(line, i - Stride(line, i - 1), s)
  }

  function BackwardFrom(lines: Lines, l: nat, i: nat, stack: seq<char>): Option<(nat, nat)>
    requires l < |lines| && i <= |lines[l]|
    decreases l
  {
    match BackwardLine(lines[l], i, stack)
    case At(p) => Some((l, p))
    case Unclosed => None
    case Open(s) => if s != [] && l > 0 then BackwardFrom(lines, l - 1, |lines[l - 1]|, s) else None
  }

  function ReverseClose(lines: Lines, l: nat, pos: nat): Option<(nat, nat)>
    requires l < |lines| && pos < |lines[l]|
  {
    if !IsClose(lines[l][pos]) && lines[l][pos] != '>' then None else BackwardFrom(lines, l, pos + 1, [])
  }

  method FindStartOfExpressionInLine(line: string, endpos: int, stack: seq<char>) returns (r: LineResult)
    requires -1 <= endpos < |line|
    ensures r == BackwardLine(line, endpos + 1, stack)
  {
    var s, i := stack, endpos;
    while i >= 0
      invariant -1 <= i < |line|
      invariant BackwardLine(line, i + 1, s) == BackwardLine(line, endpos + 1, stack)
    {
      match Backward(line, i, s) {
        case Found => return At(i);
        case Fail => return Unclosed;
        case Go(s') => s := s';
      }
      i := i - Stride(line, i);
    }
    return Open(s);
  }

  method ReverseCloseExpression(lines: Lines, linenum: nat, pos: nat) returns (r: Option<(nat, nat)>)
    requires linenum < |lines| && pos < |lines[linenum]|
    ensures r == ReverseClose(lines, linenum, pos)
  {
    var line, l := lines[linenum], linenum;
    if !IsClose(line[pos]) && line[pos] != '>' {
      return None;
    }
    var found := FindStartOfExpressionInLine(line, pos, []);
    while found.Open? && found.stack != [] && l > 0
      invariant l <= linenum
      invariant found.At? ==> ReverseClose(lines, linenum, pos) == Some((l, found.pos))
      invariant found.Unclosed? ==> ReverseClose(lines, linenum, pos) == None
      invariant found.Open? ==>
                  (ReverseClose(lines, linenum, pos)
                   == if found.stack != [] && l > 0
                      then BackwardFrom(lines, l - 1, |lines[l - 1]|, found.stack) else None)
      decreases l
    {
      l := l - 1;
      found := FindStartOfExpressionInLine(lines[l], |lines[l]| - 1, found.stack);
    }
    return if found.At? then Some((l, found.pos)) else None;
  }
}
