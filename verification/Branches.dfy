/** What the nesting stack is at every moment, inside else branches too: the effect of the lines that
    remain when every closed conditional is reduced to its first branch, and every open one to the
    branch it is in. */
module Branches {
  import opened Preprocessor

  /** An open conditional: the line of its #if, and how many #else or #elif lines it has met. */
  datatype Branch = Branch(at: nat, number: nat)

  /** The open conditionals after the directives of the first n lines, outermost first. */
  function Open<B>(lines: seq<Line<B>>, n: nat): seq<Branch>
    requires n <= |lines|
  {
    if n == 0 then []
    else
      var before := Open(lines, n - 1);
      var last := |before| - 1;
      match lines[n - 1].directive
      case IfD => before + [Branch(n - 1, 0)]
      case ElseD => if before == [] then [] else before[last := before[last].(number := before[last].number + 1)]
      case EndifD => if before == [] then [] else before[..last]
      case NoDirective => before
  }

  /** A line in branch b survives while the conditionals `now` are open: its conditional is open
      and in the same branch, or it is closed and the line was in its first branch. */
  predicate Survives(b: Branch, now: seq<Branch>) {
    if exists d :: 0 <= d < |now| && now[d].at == b.at then b in now else b.number == 0
  }

  predicate Remains(context: seq<Branch>, now: seq<Branch>) {
    forall d :: 0 <= d < |context| ==> Survives(context[d], now)
  }

  /** The updates of those of the first n lines that remain while `now` are open. */
  function Remaining<B>(lines: seq<Line<B>>, n: nat, now: seq<Branch>): seq<seq<B> -> seq<B>>
    requires n <= |lines|
  {
    if n == 0 then []
    else
      Remaining(lines, n - 1, now)
      + if Remains(Open(lines, n), now) then [lines[n - 1].update] else []
  }

  // ---------- open conditionals ----------

  /** Each conditional is open once, and no line before it belongs to it. */
  predicate Nested(now: seq<Branch>, n: nat) {
    && (forall d :: 0 <= d < |now| ==> now[d].at < n)
    && (forall d, e :: 0 <= d < e < |now| ==> now[d].at < now[e].at)
  }

  lemma {:induction false} OpenNested<B>(lines: seq<Line<B>>, n: nat)
    requires n <= |lines|
    ensures Nested(Open(lines, n), n)
  {
    if n > 0 {
      OpenNested(lines, n - 1);
    }
  }

  /** No line has been in a later branch of an open conditional than the present one. */
  predicate NotAhead(context: seq<Branch>, now: seq<Branch>) {
    forall d, e :: 0 <= d < |context| && 0 <= e < |now| && context[d].at == now[e].at ==>
      context[d].number <= now[e].number
  }

  lemma NumbersStep<B>(context: seq<Branch>, lines: seq<Line<B>>, n: nat)
    requires n < |lines| && NotAhead(context, Open(lines, n))
    requires forall d :: 0 <= d < |context| ==> context[d].at < n
    ensures NotAhead(context, Open(lines, n + 1))
  {
  }

  lemma {:induction false} NumbersGrow<B>(lines: seq<Line<B>>, p: nat, n: nat)
    requires p <= n <= |lines|
    ensures NotAhead(Open(lines, p), Open(lines, n))
    decreases n - p
  {
    hide Open;
    OpenNested(lines, p);
    if p < n {
      NumbersGrow(lines, p, n - 1);
      NumbersStep(Open(lines, p), lines, n - 1);
    }
  }

  /** Two sets of open conditionals that agree on which lines remain. */
  lemma {:induction false} SameRemaining<B>(lines: seq<Line<B>>, n: nat, now: seq<Branch>, now': seq<Branch>)
    requires n <= |lines|
    requires forall p :: 1 <= p <= n ==> (Remains(Open(lines, p), now) <==> Remains(Open(lines, p), now'))
    ensures Remaining(lines, n, now) == Remaining(lines, n, now')
  {
    hide Open, Remains;
    if n > 0 {
      SameRemaining(lines, n - 1, now, now');
    }
  }

  /** Opening a conditional that no line belongs to yet, whatever its branch. */
  lemma OpeningChangesNothing<B>(lines: seq<Line<B>>, n: nat, number: nat)
    requires n <= |lines|
    ensures var now := Open(lines, n); Remaining(lines, n, now + [Branch(n, number)]) == Remaining(lines, n, now)
  {
    var now := Open(lines, n);
    var now' := now + [Branch(n, number)];
    assert now'[..|now|] == now;
    OpenNested(lines, n);
    forall p | 1 <= p <= n
      ensures Remains(Open(lines, p), now) <==> Remains(Open(lines, p), now')
    {
      OpenNested(lines, p);
      var context := Open(lines, p);
      forall d | 0 <= d < |context|
        ensures Survives(context[d], now) <==> Survives(context[d], now')
      {
        TopSplits(now', context[d]);
      }
    }
    SameRemaining(lines, n, now', now);
  }

  /** A conditional in its first branch may as well be closed. */
  lemma ClosingFirstBranch<B>(lines: seq<Line<B>>, n: nat)
    requires n <= |lines| && Open(lines, n) != [] && Open(lines, n)[|Open(lines, n)| - 1].number == 0
    ensures var now := Open(lines, n); Remaining(lines, n, now[..|now| - 1]) == Remaining(lines, n, now)
  {
    var now := Open(lines, n);
    var last := |now| - 1;
    OpenNested(lines, n);
    forall p | 1 <= p <= n
      ensures Remains(Open(lines, p), now[..last]) <==> Remains(Open(lines, p), now)
    {
      NumbersGrow(lines, p, n);
      var context := Open(lines, p);
      forall d | 0 <= d < |context|
        ensures Survives(context[d], now[..last]) <==> Survives(context[d], now)
      {
        TopSplits(now, context[d]);
      }
    }
    SameRemaining(lines, n, now[..last], now);
  }

  /** The conditionals up to number d, that one in the given branch. */
  function InBranch(now: seq<Branch>, d: nat, number: nat): seq<Branch>
    requires d < |now|
  {
    now[..d] + [Branch(now[d].at, number)]
  }

  /** Of the branches not met yet, one is as good as another. */
  lemma FreshBranches<B>(lines: seq<Line<B>>, n: nat, x: nat, y: nat)
    requires n <= |lines| && Open(lines, n) != []
    requires x > Open(lines, n)[|Open(lines, n)| - 1].number && y > Open(lines, n)[|Open(lines, n)| - 1].number
    ensures var now := Open(lines, n);
            Remaining(lines, n, InBranch(now, |now| - 1, x)) == Remaining(lines, n, InBranch(now, |now| - 1, y))
  {
    var now := Open(lines, n);
    var last := |now| - 1;
    var nx, ny := InBranch(now, last, x), InBranch(now, last, y);
    OpenNested(lines, n);
    forall p | 1 <= p <= n
      ensures Remains(Open(lines, p), nx) <==> Remains(Open(lines, p), ny)
    {
      NumbersGrow(lines, p, n);
      var context := Open(lines, p);
      forall d | 0 <= d < |context|
        ensures Survives(context[d], nx) <==> Survives(context[d], ny)
      {
        assert nx[..last] == ny[..last];
        TopSplits(nx, context[d]);
        TopSplits(ny, context[d]);
      }
    }
    SameRemaining(lines, n, nx, ny);
  }

  lemma TopSplits(now: seq<Branch>, b: Branch)
    requires now != []
    requires forall d :: 0 <= d < |now| - 1 ==> now[d].at < now[|now| - 1].at
    ensures var last := |now| - 1;
            Survives(b, now) <==> if b.at == now[last].at then b == now[last] else Survives(b, now[..last])
  {
    var last := |now| - 1;
    assert now == now[..last] + [now[last]];
    if b.at == now[last].at {
      assert b in now <==> b == now[last];
    } else {
      assert b in now <==> b in now[..last];
      assert (exists d :: 0 <= d < |now| && now[d].at == b.at)
        <==> exists d :: 0 <= d < last && now[..last][d].at == b.at;
    }
  }

  // ---------- the stack ----------

  /** The stack that the remaining lines build up. */
  function Built<B>(lines: seq<Line<B>>, n: nat, now: seq<Branch>): seq<B>
    requires n <= |lines|
  {
    ApplyAll(Remaining(lines, n, now), [])
  }

  /** A checkpoint: before its #if the stack is what it would be if another branch began now, and
      before its first #else what it would be if the conditional were closed now. */
  predicate Checkpoint<B(==)>(lines: seq<Line<B>>, n: nat, now: seq<Branch>, d: nat, saved: Saved<B>)
    requires n <= |lines| && d < |now|
  {
    && saved.beforeIf == Built(lines, n, InBranch(now, d, now[d].number + 1))
    && (saved.seenElse <==> now[d].number > 0)
    && (saved.seenElse ==> saved.beforeElse == Built(lines, n, now[..d]))
  }

  ghost predicate Explained<B>(lines: seq<Line<B>>, n: nat, now: seq<Branch>, m: Nest<B>)
    requires n <= |lines|
  {
    && m.stack == Built(lines, n, now)
    && |m.saved| == |now|
    && forall d :: 0 <= d < |now| ==> Checkpoint(lines, n, now, d, m.saved[d])
  }

  /** A checkpoint depends on the conditionals up to its own only. */
  lemma CheckpointInside<B>(lines: seq<Line<B>>, n: nat, now: seq<Branch>, now': seq<Branch>, d: nat, saved: Saved<B>)
    requires n <= |lines| && d < |now| && d < |now'| && now[..d + 1] == now'[..d + 1]
    ensures Checkpoint(lines, n, now, d, saved) <==> Checkpoint(lines, n, now', d, saved)
  {
    hide Built;
    assert now[..d] == now[..d + 1][..d] == now'[..d];
    assert now[d] == now[..d + 1][d] == now'[d];
  }

  lemma IfExplained<B>(lines: seq<Line<B>>, n: nat, m: Nest<B>)
    requires n < |lines| && Explained(lines, n, Open(lines, n), m) && lines[n].directive.IfD?
    ensures Explained(lines, n, Open(lines, n + 1), Direct(m, IfD))
  {
    hide ApplyAll, Remaining;
    var now, now' := Open(lines, n), Open(lines, n + 1);
    OpeningChangesNothing(lines, n, 0);
    OpeningChangesNothing(lines, n, 1);
    assert InBranch(now', |now|, 1) == now + [Branch(n, 1)];
    hide Built;
    forall d | 0 <= d < |now|
      ensures Checkpoint(lines, n, now', d, m.saved[d])
    {
      CheckpointInside(lines, n, now, now', d, m.saved[d]);
    }
  }

  lemma ElseExplained<B>(lines: seq<Line<B>>, n: nat, m: Nest<B>)
    requires n < |lines| && Explained(lines, n, Open(lines, n), m) && lines[n].directive.ElseD?
    ensures Explained(lines, n, Open(lines, n + 1), Direct(m, ElseD))
  {
    hide ApplyAll, Remaining;
    var now, now' := Open(lines, n), Open(lines, n + 1);
    if now != [] {
      var last := |now| - 1;
      var number := now[last].number;
      FreshBranches(lines, n, number + 1, number + 2);
      if number == 0 {
        ClosingFirstBranch(lines, n);
      }
      assert now' == InBranch(now, last, number + 1);
      assert InBranch(now', last, number + 2) == InBranch(now, last, number + 2);
      assert now'[..last] == now[..last];
      hide Built;
      forall d | 0 <= d < last
        ensures Checkpoint(lines, n, now', d, m.saved[d])
      {
        CheckpointInside(lines, n, now, now', d, m.saved[d]);
      }
    }
  }

  lemma EndifExplained<B>(lines: seq<Line<B>>, n: nat, m: Nest<B>)
    requires n < |lines| && Explained(lines, n, Open(lines, n), m) && lines[n].directive.EndifD?
    ensures Explained(lines, n, Open(lines, n + 1), Direct(m, EndifD))
  {
    hide ApplyAll, Remaining;
    var now, now' := Open(lines, n), Open(lines, n + 1);
    if now != [] {
      var last := |now| - 1;
      if now[last].number == 0 {
        ClosingFirstBranch(lines, n);
      }
      hide Built;
      forall d | 0 <= d < last
        ensures Checkpoint(lines, n, now', d, m.saved[d])
      {
        CheckpointInside(lines, n, now, now', d, m.saved[d]);
      }
    }
  }

  /** What a directive does to stack and checkpoints. */
  lemma DirectExplained<B>(lines: seq<Line<B>>, n: nat, m: Nest<B>)
    requires n < |lines| && Explained(lines, n, Open(lines, n), m)
    ensures Explained(lines, n, Open(lines, n + 1), Direct(m, lines[n].directive))
  {
    hide Explained;
    match lines[n].directive
    case IfD => IfExplained(lines, n, m);
    case ElseD => ElseExplained(lines, n, m);
    case EndifD => EndifExplained(lines, n, m);
    case NoDirective =>
  }

  lemma {:induction false} ApplyLast<B>(updates: seq<seq<B> -> seq<B>>, f: seq<B> -> seq<B>, stack: seq<B>)
    ensures ApplyAll(updates + [f], stack) == f(ApplyAll(updates, stack))
    decreases |updates|
  {
    if updates == [] {
      assert updates + [f] == [f];
    } else {
      assert (updates + [f])[1..] == updates[1..] + [f];
      ApplyLast(updates[1..], f, updates[0](stack));
    }
  }

  /** The newest line belongs to the open branches: it remains now, but neither if another branch of one
      of them began nor, in a later branch, if that conditional were closed. */
  lemma NewestLine(now: seq<Branch>, n: nat, d: nat)
    requires Nested(now, n)
    ensures Remains(now, now)
    ensures d < |now| ==> !Remains(now, InBranch(now, d, now[d].number + 1))
    ensures d < |now| && now[d].number > 0 ==> !Remains(now, now[..d])
  {
    if d < |now| {
      var other := InBranch(now, d, now[d].number + 1);
      TopSplits(other, now[d]);
      assert !Survives(now[d], other);
      assert now[d].number > 0 ==> !Survives(now[d], now[..d]);
    }
  }

  lemma LineLost<B>(lines: seq<Line<B>>, n: nat, now: seq<Branch>)
    requires n < |lines| && !Remains(Open(lines, n + 1), now)
    ensures Built(lines, n + 1, now) == Built(lines, n, now)
  {
    assert Remaining(lines, n, now) + [] == Remaining(lines, n, now);
  }

  lemma LineKept<B>(lines: seq<Line<B>>, n: nat, now: seq<Branch>)
    requires n < |lines| && Remains(Open(lines, n + 1), now)
    ensures Built(lines, n + 1, now) == lines[n].update(Built(lines, n, now))
  {
    ApplyLast(Remaining(lines, n, now), lines[n].update, []);
  }

  lemma UpdateExplained<B>(lines: seq<Line<B>>, n: nat, m: Nest<B>)
    requires n < |lines| && Explained(lines, n, Open(lines, n + 1), m)
    ensures Explained(lines, n + 1, Open(lines, n + 1), m.(stack := lines[n].update(m.stack)))
  {
    hide Open, Remains, Built, InBranch;
    var now := Open(lines, n + 1);
    OpenNested(lines, n + 1);
    NewestLine(now, n + 1, 0);
    LineKept(lines, n, now);
    forall d | 0 <= d < |now|
      ensures Checkpoint(lines, n + 1, now, d, m.saved[d])
    {
      NewestLine(now, n + 1, d);
      LineLost(lines, n, InBranch(now, d, now[d].number + 1));
      if now[d].number > 0 {
        LineLost(lines, n, now[..d]);
      }
    }
  }

  lemma {:induction false} ProcessLast<B>(m: Nest<B>, lines: seq<Line<B>>, line: Line<B>)
    ensures ProcessAll(m, lines + [line]) == Process(ProcessAll(m, lines), line)
    decreases |lines|
  {
    if lines == [] {
      assert lines + [line] == [line];
    } else {
      assert (lines + [line])[1..] == lines[1..] + [line];
      ProcessLast(Process(m, lines[0]), lines[1..], line);
    }
  }

  lemma StepExplained<B>(lines: seq<Line<B>>, n: nat, m: Nest<B>)
    requires n < |lines| && Explained(lines, n, Open(lines, n), m)
    ensures Explained(lines, n + 1, Open(lines, n + 1), Process(m, lines[n]))
  {
    hide Explained, Open, Direct;
    DirectExplained(lines, n, m);
    UpdateExplained(lines, n, Direct(m, lines[n].directive));
  }

  /** The state after the first n lines of a file. */
  function StateAfter<B>(lines: seq<Line<B>>, n: nat): Nest<B>
    requires n <= |lines|
  {
    ProcessAll(Nest([], []), lines[..n])
  }

  lemma StateStep<B>(lines: seq<Line<B>>, n: nat)
    requires n < |lines|
    ensures StateAfter(lines, n + 1) == Process(StateAfter(lines, n), lines[n])
  {
    hide Process;
    assert lines[..n + 1] == lines[..n] + [lines[n]];
    ProcessLast(Nest([], []), lines[..n], lines[n]);
  }

  lemma StartExplained<B>(lines: seq<Line<B>>)
    ensures Explained(lines, 0, Open(lines, 0), StateAfter(lines, 0))
  {
  }

  lemma {:induction false} RunExplained<B>(lines: seq<Line<B>>, n: nat)
    requires n <= |lines|
    ensures Explained(lines, n, Open(lines, n), StateAfter(lines, n))
  {
    hide Explained, Open, Process, StateAfter;
    if n == 0 {
      StartExplained(lines);
    } else {
      RunExplained(lines, n - 1);
      StepExplained(lines, n - 1, StateAfter(lines, n - 1));
      StateStep(lines, n - 1);
    }
  }

  /** For any lines, nested well or not, and after any number of them: the stack is the effect of the
      lines that remain when every closed conditional is reduced to its first branch and every open one
      to its current branch. */
  lemma StackExplained<B>(lines: seq<Line<B>>, n: nat)
    requires n <= |lines|
    ensures ProcessAll(Nest([], []), lines[..n]).stack == ApplyAll(Remaining(lines, n, Open(lines, n)), [])
  {
    RunExplained(lines, n);
  }
}
