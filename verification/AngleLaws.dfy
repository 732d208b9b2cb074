/** When the two bracket matchers are inverse to each other on template brackets.

    Whatever the text, a stack of either matcher consists of angle brackets below and a plain group
    above. So a matcher is described by two things: how many angle brackets are open, and the plain
    brackets above them. At depth 0 of the plain brackets each matcher has its own way of reading a
    '<' or '>': as an opener, as a closer, or not at all. */
module AngleLaws {
  import opened Ranking
  import opened Brackets
  import opened BracketLaws

  datatype Count = Open(angles: nat, plain: seq<char>) | Matched | Broken

  // ---------- the forward matcher as a counter ----------

  /** How the forward matcher reads a character outside plain brackets: 1 opens, -1 closes. */
  function Reading(line: string, i: nat): int
    requires i < |line|
  {
    if line[i] == '<' then
      if i > 0 && line[i - 1] == '<' then -1
      else if i > 0 && EndsWithOperator(line[..i]) then 0 else 1
    else if line[i] == '>' then
      if i > 0 && (line[i - 1] == '-' || EndsWithOperator(line[..i - 1])) then 0 else -1
    else 0
  }

  function CountForward(line: string, i: nat, d: nat, plain: seq<char>): Count
    requires i < |line|
  {
    var c, r := line[i], Reading(line, i);
    if plain != [] then
      match PlainForward(c, plain)
      case Go(p) => Count.Open(d, p)
      case Found => if d == 0 then Matched else Count.Open(d, [])
      case Fail => Broken
    else if IsOpen(c) then Count.Open(d, [c])
    else if IsClose(c) || c == ';' then Broken
    else if d == 0 then Count.Open(if r == 1 then 1 else 0, [])
    else if d + r == 0 then if c == '>' then Matched else Broken
    else Count.Open(d + r, [])
  }

  function CountForwardFrom(lines: Lines, l: nat, i: nat, d: nat, plain: seq<char>): Option<(nat, nat)>
    requires l < |lines| && i <= |lines[l]|
    decreases |lines| - l, |lines[l]| - i
  {
    if i < |lines[l]| then
      match CountForward(lines[l], i, d, plain)
      case Matched => Some((l, i + 1))
      case Broken => None
      case Open(d', p) => CountForwardFrom(lines, l, i + 1, d', p)
    else if (d > 0 || plain != []) && l < |lines| - 1 then CountForwardFrom(lines, l + 1, 0, d, plain)
    else None
  }

  // ---------- the backward matcher as a counter ----------

  /** The backward matcher passes over this character unseen. */
  predicate Skipped(line: string, i: nat)
    requires i < |line|
    decreases |line| - i
  {
    i + 1 < |line| && !Skipped(line, i + 1) && Stride(line, i + 1) == 2
  }

  /** How the backward matcher reads a character outside plain brackets: 1 opens, -1 closes. */
  function BackReading(line: string, i: nat): int
    requires i < |line|
  {
    if line[i] == '>' then if Ignored(line, i) then 0 else -1
    else if line[i] == '<' then if Skipped(line, i) || (i > 0 && line[i - 1] == '<') then 0 else 1
    else 0
  }

  /** The number of unmatched closers after a reading r, or None if r matches the last of them. */
  function Unmatched(b: nat, r: int): Option<nat>
    requires -1 <= r <= 1
  {
    if b == 0 then Some(if r == -1 then 1 else 0)
    else if b == r then None
    else Some(b - r)
  }

  function CountBackward(line: string, i: nat, b: nat, plain: seq<char>): Count
    requires i < |line|
  {
    var c := line[i];
    if plain != [] then
      match PlainBackward(c, plain)
      case Go(p) => Count.Open(b, p)
      case Found => if b == 0 then Matched else Count.Open(b, [])
      case Fail => Broken
    else if IsClose(c) then Count.Open(b, [c])
    else if IsOpen(c) || c == ';' then Broken
    else
      match Unmatched(b, BackReading(line, i))
      case None => Matched
      case Some(b') => Count.Open(b', [])
  }

  function CountBackwardFrom(lines: Lines, l: nat, i: nat, b: nat, plain: seq<char>): Option<(nat, nat)>
    requires l < |lines| && i <= |lines[l]|
    decreases l, i
  {
    if i > 0 then
      match CountBackward(lines[l], i - 1, b, plain)
      case Matched => Some((l, i - 1))
      case Broken => None
      case Open(b', p) => CountBackwardFrom(lines, l, i - 1, b', p)
    else if (b > 0 || plain != []) && l > 0 then CountBackwardFrom(lines, l - 1, |lines[l - 1]|, b, plain)
    else None
  }

  // ---------- the matchers are these counters ----------

  function Angles(angle: char, d: nat): (a: seq<char>)
    ensures |a| == d
  {
    seq(d, _ => angle)
  }

  /** The plain group above the angle brackets, with the angle brackets inside it. */
  predicate IsGroup(rest: seq<char>, angle: char) {
    rest == [] || Grounded(rest, angle)
  }

  lemma {:induction false} StripLift(a: seq<char>, rest: seq<char>, angle: char)
    requires Grounded(rest, angle) && !IsBracket(angle)
    ensures Strip(a + rest, angle) == a + Strip(rest, angle)
    decreases |rest|
  {
    if Top(rest) == angle {
      assert Grounded(Pop(rest), angle);
      assert Pop(a + rest) == a + Pop(rest);
      StripLift(a, Pop(rest), angle);
    } else {
      assert Top(rest) in rest;
    }
  }

  lemma {:induction false} StripAngles(angle: char, d: nat)
    ensures Strip(Angles(angle, d), angle) == []
  {
    if d > 0 {
      assert Pop(Angles(angle, d)) == Angles(angle, d - 1);
      StripAngles(angle, d - 1);
    }
  }

  /** Inside a plain group the matchers do not see what is below it, except when the group closes. */
  function Lifted(a: seq<char>, step: Step): Step {
    match step
    case Go(s) => Go(a + s)
    case Found => if a == [] then Found else Go(a)
    case Fail => Fail
  }

  lemma LiftBasics(a: seq<char>, rest: seq<char>, c: char, angle: char)
    requires Grounded(rest, angle) && !IsBracket(angle)
    ensures a + rest != [] && Top(a + rest) == Top(rest) && Pop(a + rest) == a + Pop(rest)
    ensures a + rest + [c] == a + (rest + [c])
    ensures Top(rest) == angle ==> |rest| > 1
    ensures |a + rest| == 1 <==> a == [] && |rest| == 1
  {
  }

  lemma ForwardLift(line: string, i: nat, a: seq<char>, rest: seq<char>)
    requires i < |line| && Grounded(rest, '<')
    ensures Forward(line, i, a + rest) == Lifted(a, Forward(line, i, rest))
  {
    hide Strip, EndsWithOperator, Grounded, Plain;
    StripLift(a, rest, '<');
    StripPlain(rest, '<');
    var s := Strip(rest, '<');
    LiftBasics(a, rest, line[i], '<');
    LiftBasics(a, s, line[i], '<');
    assert |s| == 1 ==> a + Pop(s) == a;
    hide Top, Pop;
  }

  lemma BackwardLift(line: string, i: nat, a: seq<char>, rest: seq<char>)
    requires i < |line| && Grounded(rest, '>')
    ensures Backward(line, i, a + rest) == Lifted(a, Backward(line, i, rest))
  {
    hide Strip, Ignored, Grounded, Plain;
    StripLift(a, rest, '>');
    StripPlain(rest, '>');
    var s := Strip(rest, '>');
    LiftBasics(a, rest, line[i], '>');
    LiftBasics(a, s, line[i], '>');
    assert |s| == 1 ==> a + Pop(s) == a;
    hide Top, Pop;
  }

  lemma AnglesBasics(angle: char, d: nat)
    ensures Angles(angle, d) + [] == Angles(angle, d)
    ensures Angles(angle, d) + [angle] == Angles(angle, d + 1)
    ensures d > 0 ==> Top(Angles(angle, d)) == angle && Pop(Angles(angle, d)) == Angles(angle, d - 1)
  {
  }

  /** One character of the forward matcher, on the stack and on the counter. */
  lemma ForwardCounts(line: string, i: nat, d: nat, rest: seq<char>) returns (d': nat, rest': seq<char>)
    requires i < |line| && IsGroup(rest, '<')
    ensures IsGroup(rest', '<')
    ensures match Forward(line, i, Angles('<', d) + rest)
            case Go(s) =>
              s == Angles('<', d') + rest' && CountForward(line, i, d, Plain(rest)) == Count.Open(d', Plain(rest'))
            case Found => CountForward(line, i, d, Plain(rest)) == Matched
            case Fail => CountForward(line, i, d, Plain(rest)) == Broken
  {
    hide Strip, EndsWithOperator;
    d', rest' := d, [];
    AnglesBasics('<', d);
    if rest != [] {
      GroundedPlain(rest, '<');
      ForwardLift(line, i, Angles('<', d), rest);
      ForwardIsPlain(line, i, rest);
      match Forward(line, i, rest)
      case Go(s) => GroundedPlain(s, '<'); rest' := s;
      case _ =>
    } else {
      StripAngles('<', d);
      var c := line[i];
      if IsOpen(c) {
        rest' := [c];
        assert Plain(rest') == [c];
      } else if d == 0 {
        d' := if Reading(line, i) == 1 then 1 else 0;
      } else if c == '<' || c == '>' {
        d' := d + Reading(line, i);
      }
    }
  }

  lemma {:induction false} ForwardLineCounts(lines: Lines, l: nat, i: nat, d: nat, rest: seq<char>)
      returns (d': nat, rest': seq<char>)
    requires l < |lines| && i <= |lines[l]| && IsGroup(rest, '<')
    ensures IsGroup(rest', '<')
    ensures match ForwardLine(lines[l], i, Angles('<', d) + rest)
            case At(e) => CountForwardFrom(lines, l, i, d, Plain(rest)) == Some((l, e))
            case Unclosed => CountForwardFrom(lines, l, i, d, Plain(rest)) == None
            case Open(s) =>
              && s == Angles('<', d') + rest'
              && CountForwardFrom(lines, l, i, d, Plain(rest))
                 == CountForwardFrom(lines, l, |lines[l]|, d', Plain(rest'))
    decreases |lines[l]| - i
  {
    hide Forward, CountForward, Plain, IsGroup;
    d', rest' := d, rest;
    if i < |lines[l]| {
      d', rest' := ForwardCounts(lines[l], i, d, rest);
      match Forward(lines[l], i, Angles('<', d) + rest)
      case Go(s) => d', rest' := ForwardLineCounts(lines, l, i + 1, d', rest');
      case _ =>
    }
  }

  lemma EmptyStack(angle: char, d: nat, rest: seq<char>)
    requires IsGroup(rest, angle)
    ensures Angles(angle, d) + rest == [] <==> d == 0 && Plain(rest) == []
  {
    if rest != [] {
      GroundedPlain(rest, angle);
    }
  }

  /** The forward matcher is its counter. */
  lemma {:induction false} ForwardFromCounts(lines: Lines, l: nat, i: nat, d: nat, rest: seq<char>)
    requires l < |lines| && i <= |lines[l]| && IsGroup(rest, '<')
    ensures ForwardFrom(lines, l, i, Angles('<', d) + rest) == CountForwardFrom(lines, l, i, d, Plain(rest))
    decreases |lines| - l
  {
    hide Forward, CountForward, Plain, IsGroup, ForwardLine;
    var d', rest' := ForwardLineCounts(lines, l, i, d, rest);
    match ForwardLine(lines[l], i, Angles('<', d) + rest)
    case Open(s) =>
      EmptyStack('<', d', rest');
      if s != [] && l < |lines| - 1 {
        ForwardFromCounts(lines, l + 1, 0, d', rest');
      }
    case _ =>
  }

  /** One character of the backward matcher, on the stack and on the counter. */
  lemma BackwardCounts(line: string, i: nat, b: nat, rest: seq<char>) returns (b': nat, rest': seq<char>)
    requires i < |line| && IsGroup(rest, '>') && !Skipped(line, i)
    ensures IsGroup(rest', '>')
    ensures match Backward(line, i, Angles('>', b) + rest)
            case Go(s) =>
              s == Angles('>', b') + rest' && CountBackward(line, i, b, Plain(rest)) == Count.Open(b', Plain(rest'))
            case Found => CountBackward(line, i, b, Plain(rest)) == Matched
            case Fail => CountBackward(line, i, b, Plain(rest)) == Broken
  {
    hide Strip, Ignored, Skipped;
    b', rest' := b, [];
    AnglesBasics('>', b);
    if rest != [] {
      GroundedPlain(rest, '>');
      BackwardLift(line, i, Angles('>', b), rest);
      BackwardIsPlain(line, i, rest);
      match Backward(line, i, rest)
      case Go(s) => GroundedPlain(s, '>'); rest' := s;
      case _ =>
    } else {
      StripAngles('>', b);
      var c := line[i];
      if IsClose(c) {
        rest' := [c];
        assert Plain(rest') == [c];
      } else if (c == '<' || c == '>') && Unmatched(b, BackReading(line, i)).Some? {
        b' := Unmatched(b, BackReading(line, i)).value;
      }
    }
  }

  /** A character that the matcher passes over changes nothing in the counter either. */
  lemma SkippedCounts(line: string, i: nat, b: nat, plain: seq<char>)
    requires i < |line| && Skipped(line, i)
    ensures CountBackward(line, i, b, plain) == Count.Open(b, plain)
    ensures line[i] != '>' && !IsBracket(line[i])
  {
    SkippedChar(line, i + 1);
  }

  lemma SkippedChar(line: string, i: nat)
    requires i < |line| && Stride(line, i) == 2
    ensures i > 0 && !IsBracket(line[i - 1]) && line[i - 1] != '>' && line[i - 1] != ';'
    ensures line[i - 1] == '<' ==> line[i] == '<'
  {
    hide EndsWithOperator;
    SkippedIsPlain(line, i);
    if line[i] == '>' && line[i - 1] != '-' && !SpacedAtLeast(line, i) {
      OperatorEnd(line[..i]);
    }
  }

  lemma {:induction false} BackwardLineCounts(lines: Lines, l: nat, i: nat, b: nat, rest: seq<char>)
      returns (b': nat, rest': seq<char>)
    requires l < |lines| && i <= |lines[l]| && IsGroup(rest, '>')
    requires i > 0 ==> !Skipped(lines[l], i - 1)
    ensures IsGroup(rest', '>')
    ensures match BackwardLine(lines[l], i, Angles('>', b) + rest)
            case At(p) => CountBackwardFrom(lines, l, i, b, Plain(rest)) == Some((l, p))
            case Unclosed => CountBackwardFrom(lines, l, i, b, Plain(rest)) == None
            case Open(s) =>
              && s == Angles('>', b') + rest'
              && CountBackwardFrom(lines, l, i, b, Plain(rest)) == CountBackwardFrom(lines, l, 0, b', Plain(rest'))
    decreases i
  {
    hide Backward, CountBackward, Plain, IsGroup, Stride;
    b', rest' := b, rest;
    if i > 0 {
      var line := lines[l];
      b', rest' := BackwardCounts(line, i - 1, b, rest);
      match Backward(line, i - 1, Angles('>', b) + rest)
      case Go(s) =>
        var n := Stride(line, i - 1);
        StrideIs(line, i - 1);
        if n == 2 {
          assert Skipped(line, i - 2);
          SkippedCounts(line, i - 2, b', Plain(rest'));
        }
        assert CountBackwardFrom(lines, l, i, b, Plain(rest)) == CountBackwardFrom(lines, l, i - n, b', Plain(rest'));
        b', rest' := BackwardLineCounts(lines, l, i - n, b', rest');
      case _ =>
    }
  }

  lemma StrideIs(line: string, i: nat)
    requires i < |line|
    ensures Stride(line, i) == 1 || (Stride(line, i) == 2 && i > 0)
  {
  }

  /** The backward matcher is its counter. */
  lemma {:induction false} BackwardFromCounts(lines: Lines, l: nat, i: nat, b: nat, rest: seq<char>)
    requires l < |lines| && i <= |lines[l]| && IsGroup(rest, '>')
    requires i > 0 ==> !Skipped(lines[l], i - 1)
    ensures BackwardFrom(lines, l, i, Angles('>', b) + rest) == CountBackwardFrom(lines, l, i, b, Plain(rest))
    decreases l
  {
    hide Backward, CountBackward, Plain, IsGroup, BackwardLine;
    var b', rest' := BackwardLineCounts(lines, l, i, b, rest);
    match BackwardLine(lines[l], i, Angles('>', b) + rest)
    case Open(s) =>
      EmptyStack('>', b', rest');
      if s != [] && l > 0 {
        BackwardFromCounts(lines, l - 1, |lines[l - 1]|, b', rest');
      }
    case _ =>
  }

  // ---------- the exact condition ----------

  /** While the forward matcher runs from (l, i) to its match: how many closers are unmatched when the
      angle brackets outside plain groups are counted from the match back to (l, i), by the backward
      readings. None if the count ends on the way: a closer is matched, or nothing is unmatched at a
      plain group or at the start of a line. */
  function CountBack(lines: Lines, l: nat, i: nat, d: nat, plain: seq<char>): Option<nat>
    requires l < |lines| && i <= |lines[l]| && CountForwardFrom(lines, l, i, d, plain).Some?
    decreases |lines| - l, |lines[l]| - i
  {
    if i < |lines[l]| then
      match CountForward(lines[l], i, d, plain)
      case Matched => if plain != [] then Some(0) else Unmatched(0, BackReading(lines[l], i))
      case Open(d', p) =>
        (match CountBack(lines, l, i + 1, d', p)
         case None => None
         case Some(b) =>
           if plain != [] then Some(b)
           else if p != [] then if b == 0 then None else Some(b)
           else Unmatched(b, BackReading(lines[l], i)))
    else
      match CountBack(lines, l + 1, 0, d, plain)
      case None => None
      case Some(b) => if b == 0 && plain == [] then None else Some(b)
  }

  ghost predicate NotBefore(found: Option<(nat, nat)>, l: nat, i: nat) {
    found.None? || found.value.0 > l || (found.value.0 == l && found.value.1 >= i)
  }

  ghost predicate Openers(plain: seq<char>) {
    forall c :: c in plain ==> IsOpen(c)
  }

  /** One character on the way back. */
  lemma StepBack(line: string, i: nat, d: nat, plain: seq<char>, b: nat)
    requires i < |line| && Openers(plain) && CountForward(line, i, d, plain).Open?
    ensures var p := CountForward(line, i, d, plain).plain;
            && Openers(p)
            && CountBackward(line, i, b, Mirror(p)) ==
               if plain != [] then Count.Open(b, Mirror(plain))
               else if p != [] then if b == 0 then Matched else Count.Open(b, [])
               else if Unmatched(b, BackReading(line, i)).None? then Matched
               else Count.Open(Unmatched(b, BackReading(line, i)).value, [])
  {
    hide Reading, BackReading;
    var c, p := line[i], CountForward(line, i, d, plain).plain;
    if plain != [] {
      if IsOpen(c) {
        assert Mirror(p) == Mirror(plain) + [Partner(c)];
      } else if IsClose(c) {
        assert Top(plain) in plain;
        assert Mirror(plain) == Mirror(p) + [c];
      }
    } else if p != [] {
      assert Mirror(p) == [Partner(c)];
    }
  }

  /** Where the forward matcher finds its match, and where the backward matcher gets from there. */
  lemma {:induction false} CountBackMeaning(lines: Lines, l: nat, i: nat, d: nat, plain: seq<char>)
    requires l < |lines| && i <= |lines[l]| && Openers(plain)
    requires CountForwardFrom(lines, l, i, d, plain).Some?
    ensures var (l2, e) := CountForwardFrom(lines, l, i, d, plain).value;
            && l2 < |lines| && 0 < e <= |lines[l2]|
            && (IsClose(lines[l2][e - 1]) || lines[l2][e - 1] == '>')
            && match CountBack(lines, l, i, d, plain)
               case None => NotBefore(CountBackwardFrom(lines, l2, e, 0, []), l, i)
               case Some(b) =>
                 CountBackwardFrom(lines, l2, e, 0, []) == CountBackwardFrom(lines, l, i, b, Mirror(plain))
    decreases |lines| - l, |lines[l]| - i
  {
    hide Reading, BackReading, Unmatched;
    if i < |lines[l]| {
      var line := lines[l];
      match CountForward(line, i, d, plain)
      case Open(d', p) =>
        StepBack(line, i, d, plain, 0);
        CountBackMeaning(lines, l, i + 1, d', p);
        if CountBack(lines, l, i + 1, d', p).Some? {
          StepBack(line, i, d, plain, CountBack(lines, l, i + 1, d', p).value);
        }
      case Matched =>
        if plain != [] {
          assert plain == [Top(plain)] && Pairs(Top(plain), line[i]);
          assert Mirror(plain) == [line[i]];
          assert CountBackward(line, i, 0, []) == Count.Open(0, [line[i]]);
        } else {
          MatchedAtAngle(line, i, d);
        }
    } else {
      CountBackMeaning(lines, l + 1, 0, d, plain);
    }
  }

  lemma MatchedAtAngle(line: string, i: nat, d: nat)
    requires i < |line| && CountForward(line, i, d, []).Matched?
    ensures line[i] == '>' && Unmatched(0, BackReading(line, i)).Some?
  {
  }

  lemma {:induction false} BackwardGoesLeft(lines: Lines, l: nat, i: nat, b: nat, plain: seq<char>)
    requires l < |lines| && i <= |lines[l]|
    ensures var r := CountBackwardFrom(lines, l, i, b, plain);
            r.Some? ==> r.value.0 < l || (r.value.0 == l && r.value.1 < i)
    decreases l, i
  {
    hide CountBackward;
    if i > 0 {
      match CountBackward(lines[l], i - 1, b, plain)
      case Open(b', p) => BackwardGoesLeft(lines, l, i - 1, b', p);
      case _ =>
    } else if l > 0 {
      BackwardGoesLeft(lines, l - 1, |lines[l - 1]|, b, plain);
    }
  }

  lemma CloseCounts(lines: Lines, l: nat, pos: nat)
    requires l < |lines| && pos < |lines[l]| && lines[l][pos] == '<' && Close(lines, l, pos).Some?
    ensures var d := if Reading(lines[l], pos) == 1 then 1 else 0;
            Close(lines, l, pos) == CountForwardFrom(lines, l, pos + 1, d, [])
  {
    hide CountForwardFrom, ForwardFrom, Reading;
    assert Angles('<', 0) + [] == [] && Plain([]) == [];
    ForwardFromCounts(lines, l, pos, 0, []);
    FirstCount(lines, l, pos);
  }

  lemma FirstCount(lines: Lines, l: nat, pos: nat)
    requires l < |lines| && pos < |lines[l]| && lines[l][pos] == '<'
    ensures var d := if Reading(lines[l], pos) == 1 then 1 else 0;
            CountForwardFrom(lines, l, pos, 0, []) == CountForwardFrom(lines, l, pos + 1, d, [])
  {
    hide Reading;
  }

  lemma ReverseCounts(lines: Lines, l: nat, pos: nat)
    requires l < |lines| && pos < |lines[l]| && (IsClose(lines[l][pos]) || lines[l][pos] == '>')
    ensures ReverseClose(lines, l, pos) == CountBackwardFrom(lines, l, pos + 1, 0, [])
  {
    hide CountBackwardFrom, BackwardFrom, Skipped;
    assert Angles('>', 0) + [] == [] && Plain([]) == [];
    if Skipped(lines[l], pos) {
      SkippedCounts(lines[l], pos, 0, []);
    }
    BackwardFromCounts(lines, l, pos + 1, 0, []);
  }

  /** The exact condition for template brackets, in any text: the backward matcher leads back to the
      '<' that the forward matcher closed exactly if counting the angle brackets outside plain groups
      from the match back, by the backward readings, leaves one closer unmatched just after that '<', and
      the backward matcher reads that '<' as an opener. */
  lemma AngleInverseIff(lines: Lines, l: nat, pos: nat)
    requires l < |lines| && pos < |lines[l]| && lines[l][pos] == '<' && Close(lines, l, pos).Some?
    ensures var d := if Reading(lines[l], pos) == 1 then 1 else 0;
            && CountForwardFrom(lines, l, pos + 1, d, []) == Close(lines, l, pos)
            && var (l2, e) := Close(lines, l, pos).value;
            && l2 < |lines| && 0 < e <= |lines[l2]|
            && (ReverseClose(lines, l2, e - 1) == Some((l, pos))
                <==> CountBack(lines, l, pos + 1, d, []) == Some(1) && BackReading(lines[l], pos) == 1)
  {
    var d := if Reading(lines[l], pos) == 1 then 1 else 0;
    hide Reading, BackReading, ReverseClose, Close, CountForwardFrom, CountBack;
    CloseCounts(lines, l, pos);
    CountBackMeaning(lines, l, pos + 1, d, []);
    var (l2, e) := Close(lines, l, pos).value;
    ReverseCounts(lines, l2, e - 1);
    assert Mirror([]) == [];
    match CountBack(lines, l, pos + 1, d, [])
    case None =>
    case Some(b) => OpenerCounts(lines, l, pos, b);
  }

  lemma OpenerCounts(lines: Lines, l: nat, pos: nat, b: nat)
    requires l < |lines| && pos < |lines[l]| && lines[l][pos] == '<'
    ensures CountBackwardFrom(lines, l, pos + 1, b, []) == Some((l, pos)) <==> b == 1 && BackReading(lines[l], pos) == 1
  {
    match CountBackward(lines[l], pos, b, [])
    case Open(b', p) => BackwardGoesLeft(lines, l, pos, b', p);
    case _ =>
  }

  // ---------- texts in which the matchers read alike ----------

  /** No rule of either matcher sets this character apart, except that both ignore "->". */
  predicate Clean(line: string, i: nat)
    requires i < |line|
  {
    && (line[i] == '<' && i > 0 ==> line[i - 1] != '<' && !EndsWithOperator(line[..i]))
    && (line[i] == '>' && i > 0 && line[i - 1] != '-' ==>
          !EndsWithOperator(line[..i - 1]) && !SpacedAtLeast(line, i) && !EndsWithOperator(line[..i]))
  }

  /** All characters from (l, i) up to (l2, e). */
  ghost predicate CleanBetween(lines: Lines, l: nat, i: nat, l2: nat, e: nat)
    requires l2 < |lines|
  {
    forall a, j :: l <= a <= l2 && 0 <= j < |lines[a]| && (a == l ==> i <= j) && (a == l2 ==> j < e) ==>
      Clean(lines[a], j)
  }

  lemma CleanReadsAlike(line: string, i: nat)
    requires i < |line| && Clean(line, i) && (i + 1 < |line| && line[i] == '<' ==> Clean(line, i + 1))
    ensures BackReading(line, i) == Reading(line, i)
    ensures line[i] == '<' ==> Reading(line, i) == 1
  {
    hide EndsWithOperator;
    if line[i] == '<' && Skipped(line, i) {
      SkippedChar(line, i + 1);
    }
  }

  lemma {:induction false} CleanCountsBack(lines: Lines, l: nat, i: nat, d: nat, plain: seq<char>)
    requires l < |lines| && i <= |lines[l]| && d > 0 && Openers(plain)
    requires CountForwardFrom(lines, l, i, d, plain).Some?
    requires CountForwardFrom(lines, l, i, d, plain).value.0 < |lines|
    requires var (l2, e) := CountForwardFrom(lines, l, i, d, plain).value; CleanBetween(lines, l, i, l2, e)
    ensures CountBack(lines, l, i, d, plain) == Some(d)
    decreases |lines| - l, |lines[l]| - i
  {
    hide Clean, Reading, BackReading;
    var (l2, e) := CountForwardFrom(lines, l, i, d, plain).value;
    ForwardGoesRight(lines, l, i, d, plain);
    if i < |lines[l]| {
      var line := lines[l];
      assert Clean(line, i);
      match CountForward(line, i, d, plain)
      case Open(d', p) =>
        ForwardGoesRight(lines, l, i + 1, d', p);
        StepBack(line, i, d, plain, 0);
        if i + 1 < |line| {
          CleanNeighbour(lines, l, i, l2, e);
        }
        CleanReadsAlike(line, i);
        CleanCountsBack(lines, l, i + 1, d', p);
      case Matched =>
        MatchedAtOne(line, i, d, plain);
        CleanReadsAlike(line, i);
    } else {
      CleanCountsBack(lines, l + 1, 0, d, plain);
    }
  }

  lemma MatchedAtOne(line: string, i: nat, d: nat, plain: seq<char>)
    requires i < |line| && d > 0 && CountForward(line, i, d, plain).Matched?
    ensures plain == [] && d == 1 && line[i] == '>' && Reading(line, i) == -1
  {
  }

  lemma CleanNeighbour(lines: Lines, l: nat, i: nat, l2: nat, e: nat)
    requires l <= l2 < |lines| && i + 1 < |lines[l]| && CleanBetween(lines, l, i, l2, e) && (l == l2 ==> i + 1 < e)
    ensures Clean(lines[l], i + 1)
  {
  }

  lemma {:induction false} ForwardGoesRight(lines: Lines, l: nat, i: nat, d: nat, plain: seq<char>)
    requires l < |lines| && i <= |lines[l]|
    ensures var r := CountForwardFrom(lines, l, i, d, plain);
            r.Some? ==>
              && (r.value.0 > l || (r.value.0 == l && r.value.1 > i))
              && r.value.0 < |lines| && 0 < r.value.1 <= |lines[r.value.0]|
    decreases |lines| - l, |lines[l]| - i
  {
    hide CountForward;
    if i < |lines[l]| {
      match CountForward(lines[l], i, d, plain)
      case Open(d', p) => ForwardGoesRight(lines, l, i + 1, d', p);
      case _ =>
    } else if l < |lines| - 1 {
      ForwardGoesRight(lines, l + 1, 0, d, plain);
    }
  }

  /** If nothing from a '<' to its match is set apart by a rule, the backward matcher leads back to it,
      as it does for the other brackets. */
  lemma CleanReverseUndoesClose(lines: Lines, l: nat, pos: nat)
    requires l < |lines| && pos < |lines[l]| && lines[l][pos] == '<' && Close(lines, l, pos).Some?
    ensures var (l2, e) := Close(lines, l, pos).value;
            && l2 < |lines| && 0 < e <= |lines[l2]|
            && (CleanBetween(lines, l, pos, l2, e) ==> ReverseClose(lines, l2, e - 1) == Some((l, pos)))
  {
    hide Reading, BackReading, ReverseClose, Close, CountForwardFrom, CountBack, Clean;
    AngleInverseIff(lines, l, pos);
    var (l2, e) := Close(lines, l, pos).value;
    if CleanBetween(lines, l, pos, l2, e) {
      ForwardGoesRight(lines, l, pos + 1, if Reading(lines[l], pos) == 1 then 1 else 0, []);
      assert Clean(lines[l], pos);
      if pos + 1 < |lines[l]| {
        CleanNeighbour(lines, l, pos, l2, e);
      }
      CleanReadsAlike(lines[l], pos);
      CleanCountsBack(lines, l, pos + 1, 1, []);
    }
  }

  ghost predicate Closers(plain: seq<char>) {
    forall c :: c in plain ==> IsClose(c)
  }

  /** One character on the way forth. */
  lemma StepForth(line: string, i: nat, b: nat, plain: seq<char>)
    requires i < |line| && b > 0 && Closers(plain) && CountBackward(line, i, b, plain).Open?
    requires Reading(line, i) == BackReading(line, i)
    ensures var Open(b', p) := CountBackward(line, i, b, plain);
            b' > 0 && Closers(p) && CountForward(line, i, b', Mirror(p)) == Count.Open(b, Mirror(plain))
  {
    var c := line[i];
    var r := BackReading(line, i);
    hide Reading, BackReading;
    var p := CountBackward(line, i, b, plain).plain;
    if plain != [] {
      assert Mirror(plain) != [];
      if IsClose(c) {
        assert Mirror(p) == Mirror(plain) + [Partner(c)];
      } else if IsOpen(c) {
        assert Top(plain) in plain;
        assert Mirror(plain) == Mirror(p) + [c];
      }
    } else if p != [] {
      assert Mirror(p) == [Partner(c)] && Mirror(plain) == [];
    } else {
      assert Mirror(p) == [] == Mirror(plain);
    }
  }

  lemma {:induction false} CleanBackwardThenForward(lines: Lines, l: nat, i: nat, b: nat, plain: seq<char>)
    requires l < |lines| && i <= |lines[l]| && b > 0 && Closers(plain)
    requires CountBackwardFrom(lines, l, i, b, plain).Some?
    requires var (l1, p) := CountBackwardFrom(lines, l, i, b, plain).value; CleanBetween(lines, l1, p, l, i)
    requires 0 < i < |lines[l]| ==> Clean(lines[l], i)
    ensures var (l1, p) := CountBackwardFrom(lines, l, i, b, plain).value;
            && l1 < |lines| && p < |lines[l1]| && lines[l1][p] == '<'
            && CountForwardFrom(lines, l1, p, 0, []) == CountForwardFrom(lines, l, i, b, Mirror(plain))
    decreases l, i
  {
    hide Clean, Reading, BackReading, CountBackward, CountForward;
    var (l1, p) := CountBackwardFrom(lines, l, i, b, plain).value;
    BackwardGoesLeft(lines, l, i, b, plain);
    if i > 0 {
      var line := lines[l];
      assert Clean(line, i - 1);
      CleanReadsAlike(line, i - 1);
      match CountBackward(line, i - 1, b, plain)
      case Open(b', p') =>
        BackwardGoesLeft(lines, l, i - 1, b', p');
        StepForth(line, i - 1, b, plain);
        CleanBackwardThenForward(lines, l, i - 1, b', p');
      case Matched =>
        MatchedBack(line, i - 1, b, plain);
    } else {
      CleanBackwardThenForward(lines, l - 1, |lines[l - 1]|, b, plain);
    }
  }

  lemma MatchedBack(line: string, i: nat, b: nat, plain: seq<char>)
    requires i < |line| && b > 0 && CountBackward(line, i, b, plain).Matched?
    requires Reading(line, i) == BackReading(line, i)
    ensures line[i] == '<' && plain == [] && b == 1
    ensures CountForward(line, i, 0, []) == Count.Open(1, []) && Mirror(plain) == []
  {
  }

  lemma ForwardCloses(lines: Lines, l: nat, pos: nat)
    requires l < |lines| && pos < |lines[l]| && lines[l][pos] == '>' && Reading(lines[l], pos) == -1
    ensures CountForwardFrom(lines, l, pos, 1, []) == Some((l, pos + 1))
  {
    hide Reading;
  }

  lemma BackwardOpens(lines: Lines, l: nat, pos: nat)
    requires l < |lines| && pos < |lines[l]| && lines[l][pos] == '>' && BackReading(lines[l], pos) == -1
    ensures CountBackwardFrom(lines, l, pos + 1, 0, []) == CountBackwardFrom(lines, l, pos, 1, [])
  {
    hide BackReading;
  }

  lemma CloseStarts(lines: Lines, l: nat, p: nat)
    requires l < |lines| && p < |lines[l]| && lines[l][p] == '<'
    ensures Close(lines, l, p) ==
            if p + 1 < |lines[l]| && (lines[l][p + 1] == '<' || lines[l][p + 1] == '=') then None
            else CountForwardFrom(lines, l, p, 0, [])
  {
    hide CountForwardFrom, ForwardFrom;
    assert Angles('<', 0) + [] == [] && Plain([]) == [];
    ForwardFromCounts(lines, l, p, 0, []);
  }

  /** The converse for a '>' that is not part of "->": if nothing from the '<' it leads back to is set
      apart by a rule, the forward matcher returns to it, unless it refuses that '<' as part of "<=". */
  lemma CleanCloseUndoesReverse(lines: Lines, l: nat, pos: nat)
    requires l < |lines| && pos < |lines[l]| && lines[l][pos] == '>' && ReverseClose(lines, l, pos).Some?
    requires pos > 0 ==> lines[l][pos - 1] != '-'
    ensures var (l1, p) := ReverseClose(lines, l, pos).value;
            CleanBetween(lines, l1, p, l, pos + 1) ==>
              && l1 < |lines| && p < |lines[l1]|
              && (Close(lines, l1, p) == Some((l, pos + 1)) <==> !(p + 1 < |lines[l1]| && lines[l1][p + 1] == '='))
  {
    ReverseCounts(lines, l, pos);
    var (l1, p) := ReverseClose(lines, l, pos).value;
    hide ReverseClose, Close, CountBackwardFrom, CountForwardFrom, EndsWithOperator;
    BackwardGoesLeft(lines, l, pos + 1, 0, []);
    if CleanBetween(lines, l1, p, l, pos + 1) {
      assert Clean(lines[l], pos);
      CleanReadsAlike(lines[l], pos);
      BackwardOpens(lines, l, pos);
      ForwardCloses(lines, l, pos);
      CleanBackwardThenForward(lines, l, pos, 1, []);
      CloseStarts(lines, l1, p);
      if p + 1 < |lines[l1]| {
        assert Clean(lines[l1], p + 1);
      }
      assert Mirror([]) == [];
    }
  }

  /** The text on which the matchers disagree breaks one rule at one place: its '>' stands in " >= ". */
  lemma CounterexampleRule()
    ensures var line := "< >= x";
            && SpacedAtLeast(line, 2) && BackReading(line, 2) == 0 && Reading(line, 2) == -1
            && forall i :: 0 <= i < |line| ==> (Clean(line, i) <==> i != 2)
  {
    var line := "< >= x";
    assert TrimRight(line[..1]) == line[..1];
    assert !EndsWithOperator(line[..1]);
    assert Ignored(line, 2);
  }
}
