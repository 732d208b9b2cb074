/** What the bracket matchers find: the end, or the start, of a stretch of balanced text. */
module BalancedText {
  import opened Ranking
  import opened Brackets
  import opened BracketLaws

  // ---------- text ----------

  predicate Pair(o: char, c: char) {
    [o, c] in {"()", "[]", "{}"}
  }

  /** Text in which every round, square or curly bracket has its partner. */
  predicate Balanced(s: string)
    decreases |s|
  {
    if s == [] then true
    else if s[0] in "([{" then
      exists k :: 1 <= k < |s| && Pair(s[0], s[k]) && Balanced(s[1..k]) && Balanced(s[k + 1..])
    else s[0] !in ")]}" && Balanced(s[1..])
  }

  /** Position (l2, j) is in the text and not before (l, i). */
  predicate InOrder(lines: Lines, l: nat, i: nat, l2: nat, j: nat) {
    l <= l2 < |lines| && i <= |lines[l]| && j <= |lines[l2]| && (l == l2 ==> i <= j)
  }

  /** The characters from (l, i) up to (l2, j), over any number of lines. */
  function Between(lines: Lines, l: nat, i: nat, l2: nat, j: nat): string
    requires InOrder(lines, l, i, l2, j)
    decreases l2 - l
  {
    if l == l2 then lines[l][i..j] else lines[l][i..] + Between(lines, l + 1, 0, l2, j)
  }

  lemma BetweenHead(lines: Lines, l: nat, i: nat, l2: nat, j: nat)
    requires InOrder(lines, l, i, l2, j) && i < |lines[l]| && (l == l2 ==> i < j)
    ensures InOrder(lines, l, i + 1, l2, j)
    ensures Between(lines, l, i, l2, j) == [lines[l][i]] + Between(lines, l, i + 1, l2, j)
  {
  }

  lemma {:induction false} BetweenLast(lines: Lines, l: nat, i: nat, l2: nat, j: nat)
    requires InOrder(lines, l, i, l2, j) && j > 0 && (l == l2 ==> i < j)
    ensures InOrder(lines, l, i, l2, j - 1)
    ensures Between(lines, l, i, l2, j) == Between(lines, l, i, l2, j - 1) + [lines[l2][j - 1]]
    decreases l2 - l
  {
    if l == l2 {
      assert lines[l][i..j] == lines[l][i..j - 1] + [lines[l][j - 1]];
    } else {
      BetweenLast(lines, l + 1, 0, l2, j);
    }
  }

  // ---------- what the forward matcher looks for ----------

  lemma BalancedNeutral(c: char, u: string)
    requires c !in "()[]{}"
    ensures Balanced([c] + u) <==> Balanced(u)
  {
    assert ([c] + u)[1..] == u;
  }

  lemma BalancedGroup(o: char, u: string, c: char, v: string)
    requires Pair(o, c) && Balanced(u) && Balanced(v)
    ensures Balanced([o] + u + [c] + v)
  {
    var s, k := [o] + u + [c] + v, |u| + 1;
    assert s[1..k] == u && s[k + 1..] == v;
    assert Pair(s[0], s[k]);
  }

  lemma GroupOf(s: string) returns (n: nat)
    requires s != [] && s[0] in "([{" && Balanced(s)
    ensures 1 <= n < |s| && Pair(s[0], s[n]) && Balanced(s[1..n]) && Balanced(s[n + 1..])
  {
    hide Pair;
    n :| 1 <= n < |s| && Pair(s[0], s[n]) && Balanced(s[1..n]) && Balanced(s[n + 1..]);
  }

  lemma BalancedOpener(o: char, u: string) returns (k: nat)
    requires o in "([{" && Balanced([o] + u)
    ensures k < |u| && Pair(o, u[k]) && Balanced(u[..k]) && Balanced(u[k + 1..])
  {
    hide Balanced, Pair;
    var s := [o] + u;
    var n := GroupOf(s);
    k := n - 1;
    assert s[1..n] == u[..k] && s[n + 1..] == u[k + 1..];
  }

  /** Balanced text up to j, and there the partner of o. */
  predicate ShutAt(o: char, text: string, j: nat) {
    j < |text| && Pair(o, text[j]) && Balanced(text[..j])
  }

  /** The text closes the brackets of the stack, the last one with its last character. */
  predicate Closes(stack: seq<char>, text: string)
    requires stack != []
    decreases |stack|
  {
    exists j :: 0 <= j < |text| && ShutAt(Top(stack), text, j)
      && if |stack| == 1 then j == |text| - 1 else Closes(Pop(stack), text[j + 1..])
  }

  /** What is left to close after the top of the stack has been. */
  predicate Goes(stack: seq<char>, text: string)
    requires stack != []
  {
    if |stack| == 1 then text == [] else Closes(Pop(stack), text)
  }

  lemma ClosesSplit(stack: seq<char>, text: string) returns (j: nat)
    requires stack != [] && Closes(stack, text)
    ensures j < |text| && ShutAt(Top(stack), text, j) && Goes(stack, text[j + 1..])
  {
    j :| 0 <= j < |text| && ShutAt(Top(stack), text, j)
      && if |stack| == 1 then j == |text| - 1 else Closes(Pop(stack), text[j + 1..]);
  }

  lemma ClosesJoin(stack: seq<char>, text: string, j: nat)
    requires stack != [] && ShutAt(Top(stack), text, j) && Goes(stack, text[j + 1..])
    ensures Closes(stack, text)
  {
  }

  lemma NeutralHead(stack: seq<char>, c: char, text: string)
    requires stack != [] && c !in "()[]{}"
    ensures Closes(stack, [c] + text) <==> Closes(stack, text)
  {
    hide Balanced, Closes, Goes;
    var whole := [c] + text;
    if Closes(stack, whole) {
      var j := ClosesSplit(stack, whole);
      assert whole[..j] == [c] + text[..j - 1] && whole[j + 1..] == text[j..];
      BalancedNeutral(c, text[..j - 1]);
      ClosesJoin(stack, text, j - 1);
    }
    if Closes(stack, text) {
      var j := ClosesSplit(stack, text);
      assert whole[..j + 1] == [c] + text[..j] && whole[j + 2..] == text[j + 1..];
      BalancedNeutral(c, text[..j]);
      ClosesJoin(stack, whole, j + 1);
    }
  }

  /** A group at the head of the text takes the place of an opener on the stack, and back. */
  lemma GroupOff(stack: seq<char>, c: char, text: string)
    requires stack != [] && c in "([{" && Closes(stack, [c] + text)
    ensures Closes(stack + [c], text)
  {
    hide Balanced, Closes;
    var whole := [c] + text;
    var j := ClosesSplit(stack, whole);
    assert whole[..j] == [c] + text[..j - 1];
    var k := BalancedOpener(c, text[..j - 1]);
    var rest := text[k + 1..];
    var n := j - 2 - k;
    assert text[..j - 1][..k] == text[..k] && text[..j - 1][k + 1..] == rest[..n];
    assert rest[n] == whole[j] && whole[j + 1..] == rest[n + 1..];
    hide Pair, Goes;
    ClosesJoin(stack, rest, n);
    PushGoes(stack, c, rest);
    ClosesJoin(stack + [c], text, k);
  }

  lemma GroupOn(stack: seq<char>, c: char, text: string)
    requires stack != [] && c in "([{" && Closes(stack + [c], text)
    ensures Closes(stack, [c] + text)
  {
    hide Balanced, Closes, Goes;
    var whole := [c] + text;
    var k := ClosesSplit(stack + [c], text);
    var rest := text[k + 1..];
    PushGoes(stack, c, rest);
    var j := ClosesSplit(stack, rest);
    BalancedGroup(c, text[..k], text[k], rest[..j]);
    var n := k + 2 + j;
    assert whole[..n] == [c] + text[..k] + [text[k]] + rest[..j] && whole[n + 1..] == rest[j + 1..];
    hide Pair;
    ClosesJoin(stack, whole, n);
  }

  lemma PushGoes(stack: seq<char>, c: char, text: string)
    requires stack != []
    ensures Top(stack + [c]) == c && (Goes(stack + [c], text) <==> Closes(stack, text))
  {
    assert Pop(stack + [c]) == stack;
  }

  lemma CloserHead(stack: seq<char>, c: char, text: string)
    requires stack != [] && c in ")]}"
    ensures Closes(stack, [c] + text) <==> Pair(Top(stack), c) && Goes(stack, text)
  {
    var whole := [c] + text;
    assert whole[1..] == text && whole[..0] == [];
    forall n | 0 < n < |whole|
      ensures !Balanced(whole[..n])
    {
      assert whole[..n][0] == c;
    }
    hide Closes, Goes;
    if Pair(Top(stack), c) && Goes(stack, text) {
      ClosesJoin(stack, whole, 0);
    }
    if Closes(stack, whole) {
      var j := ClosesSplit(stack, whole);
    }
  }

  /** One character takes the plain matcher to what the rest of the text has to close. */
  lemma ClosesStep(stack: seq<char>, c: char, text: string)
    requires stack != []
    ensures Closes(stack, [c] + text) <==>
              match PlainForward(c, stack)
              case Go(s) => s != [] && Closes(s, text)
              case Found => text == []
              case Fail => false
  {
    hide Closes, Balanced;
    if c in "([{" {
      if Closes(stack, [c] + text) {
        GroupOff(stack, c, text);
      }
      if Closes(stack + [c], text) {
        GroupOn(stack, c, text);
      }
    } else if c in ")]}" {
      CloserHead(stack, c, text);
    } else {
      NeutralHead(stack, c, text);
    }
  }

  lemma NothingCloses(stack: seq<char>)
    requires stack != []
    ensures !Closes(stack, [])
  {
  }

  lemma {:induction false} SomethingBetween(lines: Lines, l: nat, i: nat, l2: nat, j: nat)
    requires InOrder(lines, l, i, l2, j) && j > 0 && Between(lines, l, i, l2, j) == []
    ensures l == l2 && i == j
    decreases l2 - l
  {
    if l < l2 {
      SomethingBetween(lines, l + 1, 0, l2, j);
    }
  }

  /** The plain matcher returns a position exactly if the text up to there closes its stack. */
  lemma {:induction false} ForwardFinds(lines: Lines, l: nat, i: nat, stack: seq<char>, l2: nat, e: nat)
    requires l < |lines| && i <= |lines[l]| && stack != []
    ensures PlainForwardFrom(lines, l, i, stack) == Some((l2, e))
       <==> e > 0 && InOrder(lines, l, i, l2, e) && Closes(stack, Between(lines, l, i, l2, e))
    decreases |lines| - l, |lines[l]| - i
  {
    hide Closes, Between;
    NothingCloses(stack);
    if i < |lines[l]| {
      var c := lines[l][i];
      if e > 0 && InOrder(lines, l, i, l2, e) {
        if l == l2 && i == e {
          EmptyBetween(lines, l, i);
        } else {
          BetweenHead(lines, l, i, l2, e);
          ClosesStep(stack, c, Between(lines, l, i + 1, l2, e));
        }
      }
      match PlainForward(c, stack)
      case Go(s) => ForwardFinds(lines, l, i + 1, s, l2, e);
      case Found =>
        if e > 0 && InOrder(lines, l, i + 1, l2, e) && Between(lines, l, i + 1, l2, e) == [] {
          SomethingBetween(lines, l, i + 1, l2, e);
        }
        EmptyBetween(lines, l, i + 1);
      case Fail =>
    } else {
      if l < |lines| - 1 {
        ForwardFinds(lines, l + 1, 0, stack, l2, e);
      }
      NextLine(lines, l, l2, e);
    }
  }

  lemma EmptyBetween(lines: Lines, l: nat, i: nat)
    requires l < |lines| && i <= |lines[l]|
    ensures Between(lines, l, i, l, i) == []
  {
  }

  lemma NextLine(lines: Lines, l: nat, l2: nat, e: nat)
    requires l < |lines|
    ensures InOrder(lines, l, |lines[l]|, l2, e) ==>
              if l == l2 then Between(lines, l, |lines[l]|, l2, e) == []
              else
                && InOrder(lines, l + 1, 0, l2, e)
                && Between(lines, l, |lines[l]|, l2, e) == Between(lines, l + 1, 0, l2, e)
  {
  }

  // ---------- the matchers ----------

  /** Between the bracket at (l, pos) and the one at (l2, end) the text is balanced, and the two
      are partners. */
  predicate Encloses(lines: Lines, l: nat, pos: nat, l2: nat, end: nat) {
    && InOrder(lines, l, pos + 1, l2, end) && end < |lines[l2]|
    && Pair(lines[l][pos], lines[l2][end])
    && Balanced(Between(lines, l, pos + 1, l2, end))
  }

  lemma OneBracket(o: char, text: string, c: char)
    ensures Closes([o], text + [c]) <==> Pair(o, c) && Balanced(text)
  {
    hide Balanced, Closes;
    var whole := text + [c];
    assert whole[..|text|] == text;
    if Closes([o], whole) {
      var j := ClosesSplit([o], whole);
      assert j == |text|;
    }
    if Pair(o, c) && Balanced(text) {
      ClosesJoin([o], whole, |text|);
    }
  }

  /** The forward matcher returns the position after (l2, end) exactly if the opener at (l, pos) and
      the closer at (l2, end) enclose balanced text. */
  lemma CloseIff(lines: Lines, l: nat, pos: nat, l2: nat, end: nat)
    requires l < |lines| && pos < |lines[l]| && lines[l][pos] in "([{"
    ensures Close(lines, l, pos) == Some((l2, end + 1)) <==> Encloses(lines, l, pos, l2, end)
  {
    hide Closes, Balanced, Between;
    CloseIsPlain(lines, l, pos);
    ForwardFinds(lines, l, pos + 1, [lines[l][pos]], l2, end + 1);
    if InOrder(lines, l, pos + 1, l2, end + 1) {
      if l == l2 && pos == end {
        EmptyBetween(lines, l, pos + 1);
        NothingCloses([lines[l][pos]]);
      } else {
        BetweenLast(lines, l, pos + 1, l2, end + 1);
        OneBracket(lines[l][pos], Between(lines, l, pos + 1, l2, end), lines[l2][end]);
      }
    }
  }

  /** The backward matcher returns (l, pos) exactly if the opener there and the closer at (l2, end)
      enclose balanced text. */
  lemma ReverseCloseIff(lines: Lines, l: nat, pos: nat, l2: nat, end: nat)
    requires l2 < |lines| && end < |lines[l2]| && lines[l2][end] in ")]}"
    ensures ReverseClose(lines, l2, end) == Some((l, pos)) <==> Encloses(lines, l, pos, l2, end)
  {
    hide Closes, Balanced, Between, Close, ReverseClose;
    if ReverseClose(lines, l2, end) == Some((l, pos)) {
      CloseUndoesReverse(lines, l2, end);
      ReverseOpens(lines, l2, end);
      CloseIff(lines, l, pos, l2, end);
    }
    if Encloses(lines, l, pos, l2, end) {
      CloseIff(lines, l, pos, l2, end);
      ReverseUndoesClose(lines, l, pos);
    }
  }

  lemma ReverseOpens(lines: Lines, l: nat, pos: nat)
    requires l < |lines| && pos < |lines[l]| && IsClose(lines[l][pos]) && ReverseClose(lines, l, pos).Some?
    ensures var (l1, p) := ReverseClose(lines, l, pos).value;
            l1 < |lines| && p < |lines[l1]| && IsOpen(lines[l1][p])
  {
    ReverseCloseIsPlain(lines, l, pos);
    BackwardThenForward(lines, l, pos, [lines[l][pos]]);
  }

  /** If a matcher finds nothing, nothing encloses balanced text with the bracket it started from. */
  lemma NoMatchIff(lines: Lines, l: nat, pos: nat)
    requires l < |lines| && pos < |lines[l]|
    ensures lines[l][pos] in "([{" ==>
              (Close(lines, l, pos) == None <==> forall l2: nat, end: nat :: !Encloses(lines, l, pos, l2, end))
    ensures lines[l][pos] in ")]}" ==>
              (ReverseClose(lines, l, pos) == None <==> forall l1: nat, p: nat :: !Encloses(lines, l1, p, l, pos))
  {
    hide Encloses, Close, ReverseClose;
    if lines[l][pos] in "([{" {
      forall l2: nat, end: nat
        ensures Close(lines, l, pos) == Some((l2, end + 1)) <==> Encloses(lines, l, pos, l2, end)
      {
        CloseIff(lines, l, pos, l2, end);
      }
      if Close(lines, l, pos).Some? {
        ReverseUndoesClose(lines, l, pos);
        var (l2, e) := Close(lines, l, pos).value;
        assert Encloses(lines, l, pos, l2, e - 1);
      }
    }
    if lines[l][pos] in ")]}" {
      forall l1: nat, p: nat
        ensures ReverseClose(lines, l, pos) == Some((l1, p)) <==> Encloses(lines, l1, p, l, pos)
      {
        ReverseCloseIff(lines, l1, p, l, pos);
      }
      if ReverseClose(lines, l, pos).Some? {
        var (l1, p) := ReverseClose(lines, l, pos).value;
        assert Encloses(lines, l1, p, l, pos);
      }
    }
  }
}
