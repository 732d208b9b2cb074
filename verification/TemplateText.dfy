/** What the forward matcher finds from a '<': the end of a template argument list. */
module TemplateText {
  import opened Ranking
  import opened Brackets
  import opened BracketLaws
  import opened BalancedText
  import opened AngleLaws

  // ---------- the operator rule ----------

  lemma {:induction false} TrimRightMeaning(s: string) returns (n: nat)
    ensures n <= |s| && TrimRight(s) == s[..n]
    ensures forall k :: n <= k < |s| ==> IsSpace(s[k])
    ensures n > 0 ==> !IsSpace(s[n - 1])
  {
    if s != [] && IsSpace(s[|s| - 1]) {
      n := TrimRightMeaning(s[..|s| - 1]);
      assert s[..|s| - 1][..n] == s[..n];
    } else {
      n := |s|;
      assert s[..n] == s;
    }
  }

  /** The word starts at p, and nothing but white space follows it. */
  ghost predicate OperatorAt(s: string, p: nat) {
    && p + 8 <= |s| && s[p..p + 8] == "operator"
    && (p > 0 ==> !IsWord(s[p - 1]))
    && forall k :: p + 8 <= k < |s| ==> IsSpace(s[k])
  }

  lemma OperatorPattern(s: string)
    ensures EndsWithOperator(s) <==> exists p: nat :: OperatorAt(s, p)
  {
    var n := TrimRightMeaning(s);
    var t := s[..n];
    hide TrimRight;
    if EndsWithOperator(s) {
      assert t[n - 8..] == s[n - 8..n - 8 + 8];
      assert OperatorAt(s, n - 8);
    }
    if p: nat :| OperatorAt(s, p) {
      assert s[p + 7] == s[p..p + 8][7] == 'r';
      assert n == p + 8;
      assert t[p..] == s[p..p + 8];
    }
  }

  // ---------- template text ----------

  /** What an angle bracket counts as: those of "->" and of operator functions count for nothing, and a '<'
      after another one takes that one back. */
  function Sign(line: string, i: nat): char
    requires i < |line|
  {
    if line[i] == '<' && i > 0 && line[i - 1] == '<' then '>'
    else if line[i] == '<' && EndsWithOperator(line[..i]) then ' '
    else if line[i] == '>' && i > 0 && (line[i - 1] == '-' || EndsWithOperator(line[..i - 1])) then ' '
    else line[i]
  }

  function Signs(line: string): (s: string)
    ensures |s| == |line| && forall i :: 0 <= i < |s| ==> s[i] == Sign(line, i)
  {
    seq(|line|, i requires 0 <= i < |line| => Sign(line, i))
  }

  function AllSigns(lines: Lines): (ss: Lines)
    ensures |ss| == |lines| && forall l :: 0 <= l < |ss| ==> ss[l] == Signs(lines[l])
  {
    seq(|lines|, l requires 0 <= l < |lines| => Signs(lines[l]))
  }

  /** A round, square or curly bracket and, at k, its partner, with balanced text in between. */
  predicate GroupAt(s: string, k: nat) {
    1 <= k < |s| && Pair(s[0], s[k]) && Balanced(s[1..k])
  }

  /** Text in which angle brackets have partners too; there is no semicolon, except inside other
      brackets, where the text need only be balanced. */
  predicate Template(s: string)
    decreases |s|
  {
    if s == [] then true
    else if s[0] in "([{" then exists k :: 1 <= k < |s| && GroupAt(s, k) && Template(s[k + 1..])
    else if s[0] == '<' then exists k :: 1 <= k < |s| && s[k] == '>' && Template(s[1..k]) && Template(s[k + 1..])
    else s[0] !in ")]}>;" && Template(s[1..])
  }

  lemma TemplateNeutral(c: char, u: string)
    requires c !in "()[]{}<>;"
    ensures Template([c] + u) <==> Template(u)
  {
    assert ([c] + u)[1..] == u;
  }

  lemma TemplateGroup(o: char, u: string, c: char, v: string)
    requires Pair(o, c) && Balanced(u) && Template(v)
    ensures Template([o] + u + [c] + v)
  {
    hide Balanced;
    var s, k := [o] + u + [c] + v, |u| + 1;
    assert s[1..k] == u && s[k + 1..] == v;
    assert GroupAt(s, k);
  }

  lemma TemplateAngles(u: string, v: string)
    requires Template(u) && Template(v)
    ensures Template(['<'] + u + ['>'] + v)
  {
    hide Balanced, Pair;
    var s, k := ['<'] + u + ['>'] + v, |u| + 1;
    assert s[1..k] == u && s[k + 1..] == v;
    assert s[k] == '>';
  }

  lemma GroupSplit(o: char, u: string) returns (k: nat)
    requires o in "([{" && Template([o] + u)
    ensures ShutAt(o, u, k) && Template(u[k + 1..])
  {
    hide Balanced, Pair;
    var s := [o] + u;
    var n :| 1 <= n < |s| && GroupAt(s, n) && Template(s[n + 1..]);
    k := n - 1;
    assert s[1..n] == u[..k] && s[n + 1..] == u[k + 1..];
  }

  lemma AnglesOf(s: string) returns (n: nat)
    requires s != [] && s[0] == '<' && Template(s)
    ensures 1 <= n < |s| && s[n] == '>' && Template(s[1..n]) && Template(s[n + 1..])
  {
    hide GroupAt;
    n :| 1 <= n < |s| && s[n] == '>' && Template(s[1..n]) && Template(s[n + 1..]);
  }

  lemma AnglesSplit(u: string) returns (k: nat)
    requires Template(['<'] + u)
    ensures k < |u| && u[k] == '>' && Template(u[..k]) && Template(u[k + 1..])
  {
    hide Template;
    var s := ['<'] + u;
    var n := AnglesOf(s);
    k := n - 1;
    assert s[1..n] == u[..k] && s[n + 1..] == u[k + 1..];
  }

  lemma NoTemplate(c: char, u: string)
    requires c in ">)]};"
    ensures !Template([c] + u)
  {
    hide Balanced;
  }

  // ---------- closing d angle brackets ----------

  predicate AngleAt(text: string, j: nat) {
    j < |text| && text[j] == '>' && Template(text[..j])
  }

  /** The text closes d angle brackets, the last one with its last character. */
  predicate Shuts(d: nat, text: string)
    requires d > 0
    decreases d
  {
    exists j :: 0 <= j < |text| && AngleAt(text, j)
      && if d == 1 then j == |text| - 1 else Shuts(d - 1, text[j + 1..])
  }

  predicate Remains(d: nat, text: string) {
    if d == 0 then text == [] else Shuts(d, text)
  }

  lemma ShutsSplit(d: nat, text: string) returns (j: nat)
    requires d > 0 && Shuts(d, text)
    ensures AngleAt(text, j) && Remains(d - 1, text[j + 1..])
  {
    j :| 0 <= j < |text| && AngleAt(text, j)
      && if d == 1 then j == |text| - 1 else Shuts(d - 1, text[j + 1..]);
  }

  lemma ShutsJoin(d: nat, text: string, j: nat)
    requires d > 0 && AngleAt(text, j) && Remains(d - 1, text[j + 1..])
    ensures Shuts(d, text)
  {
  }

  lemma ShutsNeutral(d: nat, c: char, text: string)
    requires d > 0 && c !in "()[]{}<>;"
    ensures Shuts(d, [c] + text) <==> Shuts(d, text)
  {
    hide Template, Shuts, Remains;
    var whole := [c] + text;
    if Shuts(d, whole) {
      var j := ShutsSplit(d, whole);
      assert whole[..j] == [c] + text[..j - 1] && whole[j + 1..] == text[j..];
      TemplateNeutral(c, text[..j - 1]);
      ShutsJoin(d, text, j - 1);
    }
    if Shuts(d, text) {
      var j := ShutsSplit(d, text);
      assert whole[..j + 1] == [c] + text[..j] && whole[j + 2..] == text[j + 1..];
      TemplateNeutral(c, text[..j]);
      ShutsJoin(d, whole, j + 1);
    }
  }

  /** An angle bracket at the head of the text counts as one more to close, and back. */
  lemma AngleOff(d: nat, text: string)
    requires d > 0 && Shuts(d, ['<'] + text)
    ensures Shuts(d + 1, text)
  {
    hide Template, Shuts;
    var whole := ['<'] + text;
    var j := ShutsSplit(d, whole);
    assert whole[..j] == ['<'] + text[..j - 1];
    var k := AnglesSplit(text[..j - 1]);
    var rest, n := text[k + 1..], j - 2 - k;
    assert text[..j - 1][..k] == text[..k] && text[..j - 1][k + 1..] == rest[..n];
    assert rest[n] == whole[j] && whole[j + 1..] == rest[n + 1..];
    ShutsJoin(d, rest, n);
    ShutsJoin(d + 1, text, k);
  }

  lemma AngleOn(d: nat, text: string)
    requires d > 0 && Shuts(d + 1, text)
    ensures Shuts(d, ['<'] + text)
  {
    hide Template, Shuts;
    var whole := ['<'] + text;
    var k := ShutsSplit(d + 1, text);
    var rest := text[k + 1..];
    var j := ShutsSplit(d, rest);
    TemplateAngles(text[..k], rest[..j]);
    var n := k + 2 + j;
    assert whole[..n] == ['<'] + text[..k] + ['>'] + rest[..j] && whole[n + 1..] == rest[j + 1..];
    ShutsJoin(d, whole, n);
  }

  lemma ShutsClose(d: nat, text: string)
    requires d > 0
    ensures Shuts(d, ['>'] + text) <==> Remains(d - 1, text)
  {
    hide Shuts, Remains;
    var whole := ['>'] + text;
    assert whole[1..] == text && whole[..0] == [];
    NoTemplates('>', text);
    hide Template;
    if Remains(d - 1, text) {
      ShutsJoin(d, whole, 0);
    }
    if Shuts(d, whole) {
      var j := ShutsSplit(d, whole);
    }
  }

  lemma NoTemplates(c: char, text: string)
    requires c in ">)]};"
    ensures forall n :: 0 < n < |[c] + text| ==> !Template(([c] + text)[..n])
  {
    forall n | 0 < n < |[c] + text|
      ensures !Template(([c] + text)[..n])
    {
      assert ([c] + text)[..n] == [c] + text[..n - 1];
      NoTemplate(c, text[..n - 1]);
    }
  }

  lemma ShutsBreak(d: nat, c: char, text: string)
    requires d > 0 && c in ")]};"
    ensures !Shuts(d, [c] + text)
  {
    NoTemplates(c, text);
    hide Template;
  }

  /** A group at the head of the text. */
  lemma GroupOut(d: nat, c: char, text: string) returns (k: nat)
    requires d > 0 && c in "([{" && Shuts(d, [c] + text)
    ensures ShutAt(c, text, k) && Shuts(d, text[k + 1..])
  {
    hide Template, Shuts, Balanced, Remains;
    var whole := [c] + text;
    var j := ShutsSplit(d, whole);
    assert whole[..j] == [c] + text[..j - 1];
    k := GroupSplit(c, text[..j - 1]);
    var rest, n := text[k + 1..], j - 2 - k;
    assert text[..j - 1][..k] == text[..k] && text[..j - 1][k + 1..] == rest[..n];
    assert rest[n] == whole[j] && whole[j + 1..] == rest[n + 1..];
    hide Pair;
    ShutsJoin(d, rest, n);
  }

  lemma GroupIn(d: nat, c: char, text: string, k: nat)
    requires d > 0 && c in "([{" && ShutAt(c, text, k) && Shuts(d, text[k + 1..])
    ensures Shuts(d, [c] + text)
  {
    hide Template, Shuts, Balanced, Remains, Pair;
    var whole, rest := [c] + text, text[k + 1..];
    var j := ShutsSplit(d, rest);
    TemplateGroup(c, text[..k], text[k], rest[..j]);
    var n := k + 2 + j;
    assert whole[..n] == [c] + text[..k] + [text[k]] + rest[..j] && whole[n + 1..] == rest[j + 1..];
    ShutsJoin(d, whole, n);
  }

  // ---------- positions in the text ----------

  lemma {:induction false} PositionOf(ss: Lines, l: nat, i: nat, l2: nat, e: nat, n: nat) returns (a: nat, b: nat)
    requires InOrder(ss, l, i, l2, e) && 0 < n <= |Between(ss, l, i, l2, e)|
    ensures InOrder(ss, l, i, a, b) && InOrder(ss, a, b, l2, e) && b > 0
    ensures Between(ss, l, i, a, b) == Between(ss, l, i, l2, e)[..n]
    ensures Between(ss, a, b, l2, e) == Between(ss, l, i, l2, e)[n..]
    decreases l2 - l
  {
    var here := |ss[l]| - i;
    if l == l2 || n <= here {
      a, b := l, i + n;
    } else {
      var rest := Between(ss, l + 1, 0, l2, e);
      a, b := PositionOf(ss, l + 1, 0, l2, e, n - here);
      assert Between(ss, l, i, l2, e)[..n] == ss[l][i..] + rest[..n - here];
      assert Between(ss, l, i, l2, e)[n..] == rest[n - here..];
    }
  }

  lemma Regroup(x: string, y: string, z: string)
    ensures x + (y + z) == x + y + z
  {
  }

  lemma {:induction false} BetweenSplit(ss: Lines, l: nat, i: nat, a: nat, b: nat, l2: nat, e: nat)
    requires InOrder(ss, l, i, a, b) && InOrder(ss, a, b, l2, e)
    ensures InOrder(ss, l, i, l2, e)
    ensures Between(ss, l, i, l2, e) == Between(ss, l, i, a, b) + Between(ss, a, b, l2, e)
    decreases a - l
  {
    if l < a {
      BetweenSplit(ss, l + 1, 0, a, b, l2, e);
      Regroup(ss[l][i..], Between(ss, l + 1, 0, a, b), Between(ss, a, b, l2, e));
    } else if l < l2 {
      assert ss[l][i..] == ss[l][i..b] + ss[l][b..];
      Regroup(ss[l][i..b], ss[l][b..], Between(ss, l + 1, 0, l2, e));
    } else {
      assert ss[l][i..e] == ss[l][i..b] + ss[l][b..e];
    }
  }

  /** Where the group that starts with c, just before (l, i), ends, the rest has to close d brackets. */
  lemma GroupText(ss: Lines, l: nat, i: nat, c: char, d: nat, l2: nat, e: nat)
    requires InOrder(ss, l, i, l2, e) && d > 0 && c in "([{"
    ensures Shuts(d, [c] + Between(ss, l, i, l2, e)) <==>
              match PlainForwardFrom(ss, l, i, [c])
              case None => false
              case Some((a, b)) => InOrder(ss, a, b, l2, e) && Shuts(d, Between(ss, a, b, l2, e))
  {
    hide Shuts, Closes, PlainForwardFrom, Between, Balanced;
    var rest := Between(ss, l, i, l2, e);
    if Shuts(d, [c] + rest) {
      var k := GroupOut(d, c, rest);
      var a, b := PositionOf(ss, l, i, l2, e, k + 1);
      assert rest[..k + 1] == rest[..k] + [rest[k]];
      OneBracket(c, rest[..k], rest[k]);
      ForwardFinds(ss, l, i, [c], a, b);
    }
    if PlainForwardFrom(ss, l, i, [c]).Some? {
      var (a, b) := PlainForwardFrom(ss, l, i, [c]).value;
      ForwardFinds(ss, l, i, [c], a, b);
      if InOrder(ss, a, b, l2, e) && Shuts(d, Between(ss, a, b, l2, e)) {
        BetweenSplit(ss, l, i, a, b, l2, e);
        var group := Between(ss, l, i, a, b);
        var k := ClosesSplit([c], group);
        assert rest[..k] == group[..k] && rest[k + 1..] == Between(ss, a, b, l2, e);
        GroupIn(d, c, rest, k);
      }
    }
  }

  // ---------- the matcher ----------

  lemma {:induction false} SignsPlain(lines: Lines, l: nat, i: nat, stack: seq<char>)
    requires l < |lines| && i <= |lines[l]|
    ensures PlainForwardFrom(lines, l, i, stack) == PlainForwardFrom(AllSigns(lines), l, i, stack)
    decreases |lines| - l, |lines[l]| - i
  {
    hide EndsWithOperator;
    if i < |lines[l]| {
      match PlainForward(lines[l][i], stack)
      case Go(s) => SignsPlain(lines, l, i + 1, s);
      case _ =>
    } else if l < |lines| - 1 {
      SignsPlain(lines, l + 1, 0, stack);
    }
  }

  /** Inside a group the open angle brackets wait. */
  lemma {:induction false} GroupSkipped(lines: Lines, l: nat, i: nat, d: nat, plain: seq<char>)
    requires l < |lines| && i <= |lines[l]| && d > 0 && plain != []
    ensures match PlainForwardFrom(lines, l, i, plain)
            case None => CountForwardFrom(lines, l, i, d, plain) == None
            case Some((a, b)) =>
              && (a > l || (a == l && b > i)) && a < |lines| && b <= |lines[a]|
              && CountForwardFrom(lines, l, i, d, plain) == CountForwardFrom(lines, a, b, d, [])
    decreases |lines| - l, |lines[l]| - i
  {
    hide Reading;
    if i < |lines[l]| {
      match PlainForward(lines[l][i], plain)
      case Go(p) => GroupSkipped(lines, l, i + 1, d, p);
      case _ =>
    } else if l < |lines| - 1 {
      GroupSkipped(lines, l + 1, 0, d, plain);
    }
  }

  lemma ReadingIsSign(line: string, i: nat)
    requires i < |line|
    ensures Reading(line, i) == if Sign(line, i) == '<' then 1 else if Sign(line, i) == '>' then -1 else 0
    ensures line[i] == '>' ==> Sign(line, i) in "> "
    ensures line[i] in "()[]{};" ==> Sign(line, i) == line[i]
    ensures line[i] !in "()[]{};" ==> Sign(line, i) !in "()[]{};"
  {
    hide TrimRight;
    assert i == 0 ==> line[..i] == [];
    TrimRightEnd([]);
  }

  /** What is left to close outside groups, by the count. */
  predicate ShutsAfter(count: Count, text: string) {
    match count
    case Open(d, plain) => d > 0 && plain == [] && Shuts(d, text)
    case Matched => text == []
    case Broken => false
  }

  /** One character, on the count and on the text. */
  lemma AngleStep(lines: Lines, l: nat, i: nat, d: nat, text: string)
    requires l < |lines| && i < |lines[l]| && d > 0 && lines[l][i] !in "([{"
    ensures Shuts(d, [Sign(lines[l], i)] + text) && (text == [] ==> lines[l][i] == '>')
       <==> ShutsAfter(CountForward(lines[l], i, d, []), text)
  {
    hide Sign, Reading, Shuts;
    ReadingIsSign(lines[l], i);
    NothingShuts(d);
    NothingShuts(d + 1);
    NothingShuts(d - 1);
    var c := Sign(lines[l], i);
    if c in ")]};" {
      ShutsBreak(d, c, text);
    } else if c == '<' {
      if Shuts(d, [c] + text) {
        AngleOff(d, text);
      }
      if Shuts(d + 1, text) {
        AngleOn(d, text);
      }
    } else if c == '>' {
      ShutsClose(d, text);
    } else {
      ShutsNeutral(d, c, text);
    }
  }

  lemma StaysOpen(line: string, i: nat, d: nat)
    requires i < |line| && d > 0 && line[i] !in "([{" && CountForward(line, i, d, []).Open?
    ensures CountForward(line, i, d, []).angles > 0 && CountForward(line, i, d, []).plain == []
  {
    hide EndsWithOperator;
  }

  lemma GroupStarts(line: string, i: nat, d: nat)
    requires i < |line| && line[i] in "([{"
    ensures CountForward(line, i, d, []) == Count.Open(d, [line[i]]) && Sign(line, i) == line[i]
  {
    hide Reading, EndsWithOperator;
  }

  lemma OnlyAt(ss: Lines, l: nat, i: nat, l2: nat, e: nat)
    requires InOrder(ss, l, i, l2, e) && e > 0
    ensures Between(ss, l, i, l2, e) == [] ==> l == l2 && i == e
  {
    if Between(ss, l, i, l2, e) == [] {
      SomethingBetween(ss, l, i, l2, e);
    }
  }

  lemma NothingShuts(d: nat)
    ensures d > 0 ==> !Shuts(d, [])
  {
  }

  /** By what its brackets count as, the text closes d angle brackets, the last one with a '>'. */
  predicate Finds(lines: Lines, l: nat, i: nat, d: nat, l2: nat, e: nat)
    requires d > 0
  {
    var ss := AllSigns(lines);
    e > 0 && InOrder(ss, l, i, l2, e) && lines[l2][e - 1] == '>' && Shuts(d, Between(ss, l, i, l2, e))
  }

  lemma {:induction false} AngleFinds(lines: Lines, l: nat, i: nat, d: nat, l2: nat, e: nat)
    requires l < |lines| && i <= |lines[l]| && d > 0
    ensures CountForwardFrom(lines, l, i, d, []) == Some((l2, e)) <==> Finds(lines, l, i, d, l2, e)
    decreases |lines| - l, |lines[l]| - i
  {
    hide Shuts, Between, CountForward, PlainForwardFrom, Signs;
    var ss := AllSigns(lines);
    ForwardGoesRight(lines, l, i, d, []);
    if e > 0 && InOrder(ss, l, i, l2, e) {
      if l == l2 && i == e {
        EmptyBetween(ss, l, i);
        NothingShuts(d);
      } else if i == |lines[l]| {
        NextLine(ss, l, l2, e);
        AngleFinds(lines, l + 1, 0, d, l2, e);
      } else {
        BetweenHead(ss, l, i, l2, e);
        var rest := Between(ss, l, i + 1, l2, e);
        assert ss[l][i] == Sign(lines[l], i);
        if lines[l][i] in "([{" {
          GroupText(ss, l, i + 1, lines[l][i], d, l2, e);
          SignsPlain(lines, l, i + 1, [lines[l][i]]);
          GroupSkipped(lines, l, i + 1, d, [lines[l][i]]);
          GroupStarts(lines[l], i, d);
          match PlainForwardFrom(lines, l, i + 1, [lines[l][i]])
          case None =>
          case Some((a, b)) =>
            if InOrder(ss, a, b, l2, e) {
              AngleFinds(lines, a, b, d, l2, e);
            } else {
              ForwardGoesRight(lines, a, b, d, []);
            }
        } else {
          AngleStep(lines, l, i, d, rest);
          match CountForward(lines[l], i, d, [])
          case Open(d', p) =>
            OnlyAt(ss, l, i + 1, l2, e);
            NothingShuts(d');
            StaysOpen(lines[l], i, d);
            AngleFinds(lines, l, i + 1, d', l2, e);
          case Matched =>
            EmptyBetween(ss, l, i + 1);
            OnlyAt(ss, l, i + 1, l2, e);
          case Broken =>
            OnlyAt(ss, l, i + 1, l2, e);
        }
      }
    }
  }

  lemma OneAngle(text: string, c: char)
    ensures Shuts(1, text + [c]) <==> c == '>' && Template(text)
  {
    hide Template, Shuts;
    var whole := text + [c];
    assert whole[..|text|] == text;
    if Shuts(1, whole) {
      var j := ShutsSplit(1, whole);
      assert j == |text|;
    }
    if c == '>' && Template(text) {
      ShutsJoin(1, whole, |text|);
    }
  }

  /** From (l, pos) to (l2, end): a template argument list, its angle brackets included. */
  predicate EnclosesTemplate(lines: Lines, l: nat, pos: nat, l2: nat, end: nat) {
    var ss := AllSigns(lines);
    && InOrder(ss, l, pos + 1, l2, end) && end < |ss[l2]| && lines[l2][end] == ss[l2][end] == '>'
    && Template(Between(ss, l, pos + 1, l2, end))
  }

  /** The forward matcher from a '<' that neither follows the word operator nor belongs to "<<" or "<=": in
      any text, it returns the position after (l2, end) exactly if the text in between is that of a template
      argument list and a '>' at (l2, end) ends it. */
  lemma TemplateCloseIff(lines: Lines, l: nat, pos: nat, l2: nat, end: nat)
    requires l < |lines| && pos < |lines[l]| && lines[l][pos] == '<'
    requires (pos > 0 ==> lines[l][pos - 1] != '<') && !EndsWithOperator(lines[l][..pos])
    requires pos + 1 < |lines[l]| ==> lines[l][pos + 1] != '<' && lines[l][pos + 1] != '='
    ensures Close(lines, l, pos) == Some((l2, end + 1)) <==> EnclosesTemplate(lines, l, pos, l2, end)
  {
    hide Shuts, Template, Between, CountForwardFrom, Close, EndsWithOperator;
    var ss := AllSigns(lines);
    CloseStarts(lines, l, pos);
    FirstCount(lines, l, pos);
    AngleFinds(lines, l, pos + 1, 1, l2, end + 1);
    if InOrder(ss, l, pos + 1, l2, end + 1) {
      if l == l2 && pos == end {
        EmptyBetween(ss, l, pos + 1);
        NothingShuts(1);
      } else {
        BetweenLast(ss, l, pos + 1, l2, end + 1);
        OneAngle(Between(ss, l, pos + 1, l2, end), ss[l2][end]);
      }
    }
  }

  /** A '<' that starts "<<" or "<=" is refused. */
  lemma OperatorsRefused(lines: Lines, l: nat, pos: nat)
    requires l < |lines| && pos + 1 < |lines[l]| && lines[l][pos] == '<' && lines[l][pos + 1] in "<="
    ensures Close(lines, l, pos) == None
  {
  }
}
