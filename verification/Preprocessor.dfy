/** The nesting stack of cpplint under conditional compilation. A line is a directive, processed
    first, and whatever else the line does to the nesting stack. The source copies stacks deeply
    wherever it saves or restores one, so stacks are values here. */
module Preprocessor {

  /** IfD: #if, #ifdef, #ifndef; ElseD: #else, #elif; EndifD: #endif. */
  datatype Directive = IfD | ElseD | EndifD | NoDirective

  datatype Line<!B> = Line(directive: Directive, update: seq<B> -> seq<B>)

  /** A checkpoint: the stack before #if, and from the first #else on the stack before that. */
  datatype Saved<B> = Saved(beforeIf: seq<B>, beforeElse: seq<B>, seenElse: bool)

  datatype Nest<B> = Nest(stack: seq<B>, saved: seq<Saved<B>>)

  function Direct<B>(n: Nest<B>, d: Directive): Nest<B> {
    match d
    case IfD => n.(saved := n.saved + [Saved(n.stack, [], false)])
    case ElseD =>
      if n.saved == [] then n
      else
        var last := |n.saved| - 1;
        var top := n.saved[last];
        var top' := if top.seenElse then top else Saved(top.beforeIf, n.stack, true);
        Nest(top.beforeIf, n.saved[last := top'])
    case EndifD =>
      if n.saved == [] then n
      else
        var last := |n.saved| - 1;
        var top := n.saved[last];
        Nest(if top.seenElse then top.beforeElse else n.stack, n.saved[..last])
    case NoDirective => n
  }

  function Process<B>(n: Nest<B>, line: Line<B>): Nest<B> {
    var m := Direct(n, line.directive);
    m.(stack := line.update(m.stack))
  }

  function ProcessAll<B>(n: Nest<B>, lines: seq<Line<B>>): Nest<B>
    decreases |lines|
  {
    if lines == [] then n else ProcessAll(Process(n, lines[0]), lines[1..])
  }

  class NestingState<B> {
    var stack: seq<B>
    var ppStack: seq<Saved<B>>

    constructor ()
      ensures State() == Nest([], [])
    {
      stack, ppStack := [], [];
    }

    ghost function State(): Nest<B>
      reads this
    {
      Nest(stack, ppStack)
    }

    method UpdatePreprocessor(d: Directive)
      modifies this
      ensures State() == Direct(old(State()), d)
    {
      if d.IfD? {
        ppStack := ppStack + [Saved(stack, [], false)];
      } else if d.ElseD? {
        if ppStack != [] {
          var last := |ppStack| - 1;
          if !ppStack[last].seenElse {
            ppStack := ppStack[last := ppStack[last].(seenElse := true)];
            ppStack := ppStack[last := ppStack[last].(beforeElse := stack)];
          }
          stack := ppStack[last].beforeIf;
        }
      } else if d.EndifD? {
        if ppStack != [] {
          var last := |ppStack| - 1;
          if ppStack[last].seenElse {
            stack := ppStack[last].beforeElse;
          }
          ppStack := ppStack[..last];
        }
      }
    }

    /** The lines of a file, one after the other. */
    method UpdateAll(lines: seq<Line<B>>)
      modifies this
      ensures State() == ProcessAll(old(State()), lines)
    {
      for i := 0 to |lines|
        invariant ProcessAll(State(), lines[i..]) == ProcessAll(old(State()), lines)
      {
        assert lines[i..][1..] == lines[i + 1..];
        UpdatePreprocessor(lines[i].directive);
        stack := lines[i].update(stack);
      }
    }
  }

  // ---------- erasure of the else branches ----------

  /** For each open conditional, whether one of its #else or #elif lines has been met. */
  function Flags<B>(saved: seq<Saved<B>>): (fs: seq<bool>)
    ensures |fs| == |saved| && forall i :: 0 <= i < |fs| ==> fs[i] == saved[i].seenElse
  {
    seq(|saved|, i requires 0 <= i < |saved| => saved[i].seenElse)
  }

  function NextFlags(flags: seq<bool>, d: Directive): seq<bool> {
    match d
    case IfD => flags + [false]
    case ElseD => if flags == [] then [] else flags[|flags| - 1 := true]
    case EndifD => if flags == [] then [] else flags[..|flags| - 1]
    case NoDirective => flags
  }

  /** The file with its else branches deleted: what remains are the updates of the lines that are
      not inside the #else or #elif branch of any open conditional. */
  function Erase<B>(lines: seq<Line<B>>, flags: seq<bool>): seq<seq<B> -> seq<B>>
    decreases |lines|
  {
    if lines == [] then []
    else
      var flags' := NextFlags(flags, lines[0].directive);
      (if true in flags' then [] else [lines[0].update]) + Erase(lines[1..], flags')
  }

  function ApplyAll<B>(updates: seq<seq<B> -> seq<B>>, stack: seq<B>): seq<B>
    decreases |updates|
  {
    if updates == [] then stack else ApplyAll(updates[1..], updates[0](stack))
  }

  /** The stack that the first branches alone have built up: inside an else branch it is the one
      kept by the outermost conditional that is in an else branch. */
  function Kept<B>(n: Nest<B>): seq<B>
    decreases |n.saved|
  {
    if n.saved == [] then n.stack
    else if n.saved[0].seenElse then n.saved[0].beforeElse
    else Kept(Nest(n.stack, n.saved[1..]))
  }

  lemma {:induction false} KeptStack<B>(n: Nest<B>)
    requires true !in Flags(n.saved)
    ensures Kept(n) == n.stack
    decreases |n.saved|
  {
    if n.saved != [] {
      assert Flags(n.saved)[0] in Flags(n.saved);
      assert forall i :: 0 <= i < |n.saved| - 1 ==> Flags(n.saved[1..])[i] == Flags(n.saved)[i + 1];
      KeptStack(Nest(n.stack, n.saved[1..]));
    }
  }

  /** The outermost conditional in an else branch holds the kept stack. */
  lemma {:induction false} KeptOutermost<B>(n: Nest<B>, j: nat)
    requires j < |n.saved| && n.saved[j].seenElse
    requires forall i :: 0 <= i < j ==> !n.saved[i].seenElse
    ensures Kept(n) == n.saved[j].beforeElse
    decreases |n.saved|
  {
    if j > 0 {
      KeptOutermost(Nest(n.stack, n.saved[1..]), j - 1);
    }
  }

  function Outermost<B>(saved: seq<Saved<B>>): (j: nat)
    requires true in Flags(saved)
    ensures j < |saved| && saved[j].seenElse && forall i :: 0 <= i < j ==> !saved[i].seenElse
    decreases |saved|
  {
    if saved[0].seenElse then 0
    else
      assert forall i :: 1 <= i < |saved| ==> Flags(saved[1..])[i - 1] == Flags(saved)[i];
      Outermost(saved[1..]) + 1
  }

  lemma FlagsStep<B>(n: Nest<B>, d: Directive)
    ensures Flags(Direct(n, d).saved) == NextFlags(Flags(n.saved), d)
  {
  }

  /** A directive never changes what the first branches have built up, and after it the stack
      itself is that, unless an else branch is open. */
  lemma DirectKeeps<B>(n: Nest<B>, d: Directive)
    ensures Kept(Direct(n, d)) == Kept(n)
  {
    var m := Direct(n, d);
    var last := |n.saved| - 1;
    if true in Flags(n.saved) {
      var j := Outermost(n.saved);
      KeptOutermost(n, j);
      if d.EndifD? && j == last {
        forall i | 0 <= i < |m.saved| ensures !m.saved[i].seenElse { assert m.saved[i] == n.saved[i]; }
        KeptStack(m);
      } else {
        KeptOutermost(m, j);
      }
    } else {
      assert forall i :: 0 <= i < |n.saved| ==> Flags(n.saved)[i] in Flags(n.saved);
      KeptStack(n);
      if d.ElseD? && n.saved != [] {
        KeptOutermost(m, last);
      } else {
        FlagsStep(n, d);
        KeptStack(m);
      }
    }
  }

  lemma ProcessKeeps<B>(n: Nest<B>, line: Line<B>)
    ensures var m := Process(n, line);
            && Flags(m.saved) == NextFlags(Flags(n.saved), line.directive)
            && Kept(m) == if true in Flags(m.saved) then Kept(n) else line.update(Kept(n))
  {
    var d, m := Direct(n, line.directive), Process(n, line);
    FlagsStep(n, line.directive);
    DirectKeeps(n, line.directive);
    if true in Flags(m.saved) {
      var j := Outermost(m.saved);
      KeptOutermost(m, j);
      KeptOutermost(d, j);
    } else {
      KeptStack(m);
      KeptStack(d);
    }
  }

  lemma {:induction false} ErasureRun<B>(n: Nest<B>, lines: seq<Line<B>>)
    ensures Kept(ProcessAll(n, lines)) == ApplyAll(Erase(lines, Flags(n.saved)), Kept(n))
    decreases |lines|
  {
    if lines != [] {
      var m := Process(n, lines[0]);
      ProcessKeeps(n, lines[0]);
      ErasureRun(m, lines[1..]);
      var rest := Erase(lines[1..], Flags(m.saved));
      assert [] + rest == rest;
      assert ([lines[0].update] + rest)[1..] == rest;
    }
  }

  /** Else-branch erasure, for every sequence of lines, nested well or not: whenever no else branch
      is open, the nesting stack is the one obtained by deleting all else branches. */
  lemma ElseBranchesErased<B>(n: Nest<B>, lines: seq<Line<B>>)
    requires true !in Flags(n.saved) && true !in Flags(ProcessAll(n, lines).saved)
    ensures ProcessAll(n, lines).stack == ApplyAll(Erase(lines, Flags(n.saved)), n.stack)
  {
    ErasureRun(n, lines);
    KeptStack(n);
    KeptStack(ProcessAll(n, lines));
  }

  /** The number of #ifs still open after the lines, when d were open before; an unmatched #endif
      counts for nothing. */
  function OpenIfs<B>(lines: seq<Line<B>>, d: nat): nat
    decreases |lines|
  {
    if lines == [] then d
    else
      var change := lines[0].directive;
      OpenIfs(lines[1..], if change.IfD? then d + 1 else if change.EndifD? && d > 0 then d - 1 else d)
  }

  /** There is one checkpoint for every open #if, so a file whose #ifs are all closed ends with the
      stack of its first branches. */
  lemma {:induction false} CheckpointDepth<B>(n: Nest<B>, lines: seq<Line<B>>)
    ensures |ProcessAll(n, lines).saved| == OpenIfs(lines, |n.saved|)
    decreases |lines|
  {
    if lines != [] {
      CheckpointDepth(Process(n, lines[0]), lines[1..]);
    }
  }

  lemma WholeFile<B>(lines: seq<Line<B>>)
    requires OpenIfs(lines, 0) == 0
    ensures ProcessAll(Nest([], []), lines) == Nest(ApplyAll(Erase(lines, []), []), [])
  {
    var n: Nest<B> := Nest([], []);
    CheckpointDepth(n, lines);
    ElseBranchesErased(n, lines);
    assert Flags(n.saved) == [];
  }
}
