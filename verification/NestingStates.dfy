/** The preprocessor part of cpplint's nesting state: which branch of an #if group shapes the stack of open blocks.
    The stack and the effect that the rest of a line has on it are arbitrary. */
module NestingStates {

  datatype Directive = IfDirective | ElseDirective | EndifDirective | NoDirective

  /** How lines are read: `directive` classifies a line, `effect` is what the rest of Update does to the stack. */
  datatype Reader<!L, !S> = Reader(directive: L -> Directive, effect: (L, S) -> S)

  /** Checkpoints of the nesting stack, taken at an #if and at its first #else or #elif. */
  datatype PreprocessorInfo<S> = PreprocessorInfo(stackBeforeIf: S, stackBeforeElse: S, seenElse: bool)

  /** The nesting stack together with the stack of checkpoints. */
  datatype Nesting<S> = Nesting(stack: S, ppStack: seq<PreprocessorInfo<S>>)

  function Top<T>(s: seq<T>): T
    requires s != []
  {
    s[|s| - 1]
  }

  function Pop<T>(s: seq<T>): seq<T>
    requires s != []
  {
    s[..|s| - 1]
  }

  function UpdatePreprocessor<S>(st: Nesting<S>, d: Directive): Nesting<S> {
    match d
    case IfDirective =>
      st.(ppStack := st.ppStack + [PreprocessorInfo(st.stack, st.stack, false)])
    case ElseDirective =>
      if st.ppStack == [] then st
      else
        var top := Top(st.ppStack);
        var top' := if top.seenElse then top else top.(seenElse := true, stackBeforeElse := st.stack);
        Nesting(top'.stackBeforeIf, Pop(st.ppStack) + [top'])
    case EndifDirective =>
      if st.ppStack == [] then st
      else
        var top := Top(st.ppStack);
        Nesting(if top.seenElse then top.stackBeforeElse else st.stack, Pop(st.ppStack))
    case NoDirective => st
  }

  function Update<L, S>(st: Nesting<S>, line: L, reader: Reader<L, S>): Nesting<S> {
    var st' := UpdatePreprocessor(st, reader.directive(line));
    st'.(stack := reader.effect(line, st'.stack))
  }

  function Run<L, S>(st: Nesting<S>, lines: seq<L>, reader: Reader<L, S>): Nesting<S>
    decreases |lines|
  {
    if lines == [] then st else Run(Update(st, lines[0], reader), lines[1..], reader)
  }

  // ----- What the machine means: the document without its else branches -----

  /** For each open #if group, outermost first, whether an #else or #elif was seen. */
  type Groups = seq<bool>

  function Advance(groups: Groups, d: Directive): Groups {
    match d
    case IfDirective => groups + [false]
    case ElseDirective => if groups == [] then [] else Pop(groups) + [true]
    case EndifDirective => if groups == [] then [] else Pop(groups)
    case NoDirective => groups
  }

  /** No enclosing group is in its else part. */
  predicate Active(groups: Groups) {
    forall i :: 0 <= i < |groups| ==> !groups[i]
  }

  /** The document without every line from a group's first #else or #elif up to but not including its #endif. */
  function Kept<L, S>(groups: Groups, lines: seq<L>, reader: Reader<L, S>): seq<L>
    decreases |lines|
  {
    if lines == [] then []
    else
      var groups' := Advance(groups, reader.directive(lines[0]));
      (if Active(groups') then [lines[0]] else []) + Kept(groups', lines[1..], reader)
  }

  function GroupsAfter<L, S>(groups: Groups, lines: seq<L>, reader: Reader<L, S>): Groups
    decreases |lines|
  {
    if lines == [] then groups
    else GroupsAfter(Advance(groups, reader.directive(lines[0])), lines[1..], reader)
  }

  /** The plain meaning of a document without directives: the effects of its lines, in order. */
  function Effects<L, S>(stack: S, lines: seq<L>, reader: Reader<L, S>): S
    decreases |lines|
  {
    if lines == [] then stack else Effects(reader.effect(lines[0], stack), lines[1..], reader)
  }

  /** The position of the outermost group in its else part, or the number of groups. */
  function Outermost(groups: Groups): (k: nat)
    ensures k <= |groups| && (forall i :: 0 <= i < k ==> !groups[i]) && (k < |groups| ==> groups[k])
    ensures k == |groups| <==> Active(groups)
  {
    if groups == [] || groups[0] then 0 else Outermost(groups[1..]) + 1
  }

  /** The machine carries `stack`, the stack of the kept lines so far: as its own stack while every branch
      is active, and otherwise as the checkpoint of the outermost group in its else part. */
  ghost predicate Carries<S>(st: Nesting<S>, groups: Groups, stack: S) {
    && |st.ppStack| == |groups|
    && (forall i :: 0 <= i < |groups| ==> st.ppStack[i].seenElse == groups[i])
    && (if Active(groups) then st.stack == stack else st.ppStack[Outermost(groups)].stackBeforeElse == stack)
  }

  lemma OutermostIs(groups: Groups, k: nat)
    requires k < |groups| && groups[k] && forall i :: 0 <= i < k ==> !groups[i]
    ensures Outermost(groups) == k
  {
  }

  /** One line: the machine goes on carrying the stack of the kept lines. */
  lemma UpdateCarries<L, S>(st: Nesting<S>, groups: Groups, stack: S, line: L, reader: Reader<L, S>)
    requires Carries(st, groups, stack)
    ensures var groups' := Advance(groups, reader.directive(line));
            Carries(Update(st, line, reader), groups', if Active(groups') then reader.effect(line, stack) else stack)
  {
    var groups' := Advance(groups, reader.directive(line));
    var k := Outermost(groups);
    match reader.directive(line)
    case NoDirective =>
    case IfDirective =>
      if k < |groups| { OutermostIs(groups', k); }
    case ElseDirective =>
      if groups != [] { OutermostIs(groups', if k < |groups| then k else |groups| - 1); }
    case EndifDirective =>
      if k + 1 < |groups| { OutermostIs(groups', k); }
  }

  lemma {:induction false} RunCarries<L, S>(st: Nesting<S>, groups: Groups, stack: S, lines: seq<L>, reader: Reader<L, S>)
    requires Carries(st, groups, stack)
    ensures Carries(Run(st, lines, reader), GroupsAfter(groups, lines, reader),
                    Effects(stack, Kept(groups, lines, reader), reader))
    decreases |lines|
  {
    hide UpdatePreprocessor, Advance, Carries;
    if lines != [] {
      var groups' := Advance(groups, reader.directive(lines[0]));
      UpdateCarries(st, groups, stack, lines[0], reader);
      RunCarries(Update(st, lines[0], reader), groups',
                 if Active(groups') then reader.effect(lines[0], stack) else stack, lines[1..], reader);
      if Active(groups') {
        assert Kept(groups, lines, reader)[1..] == Kept(groups', lines[1..], reader);
      } else {
        assert Kept(groups, lines, reader) == Kept(groups', lines[1..], reader);
      }
    }
  }

  /** The groups as they stand in the shortened document, where no #else is left: those inside an else part are gone. */
  ghost function Shortened(groups: Groups): Groups {
    seq(if Active(groups) then |groups| else Outermost(groups) + 1, _ => false)
  }

  lemma ShortenedAdvances(groups: Groups, d: Directive)
    ensures var groups' := Advance(groups, d);
            if Active(groups') then Advance(Shortened(groups), d) == Shortened(groups')
            else Shortened(groups) == Shortened(groups')
  {
    var groups' := Advance(groups, d);
    var k := Outermost(groups);
    match d
    case NoDirective =>
    case IfDirective =>
      if k < |groups| { OutermostIs(groups', k); }
    case ElseDirective =>
      if groups != [] { OutermostIs(groups', if k < |groups| then k else |groups| - 1); }
    case EndifDirective =>
      if k + 1 < |groups| { OutermostIs(groups', k); }
  }

  /** The shortened document is all kept: deleting else parts again deletes nothing. */
  lemma {:induction false} KeptIsKept<L, S>(groups: Groups, lines: seq<L>, reader: Reader<L, S>)
    ensures Kept(Shortened(groups), Kept(groups, lines, reader), reader) == Kept(groups, lines, reader)
    ensures GroupsAfter(Shortened(groups), Kept(groups, lines, reader), reader)
         == Shortened(GroupsAfter(groups, lines, reader))
    decreases |lines|
  {
    hide Shortened, Advance;
    if lines != [] {
      var groups' := Advance(groups, reader.directive(lines[0]));
      ShortenedAdvances(groups, reader.directive(lines[0]));
      ShortenedIsActive(groups');
      KeptIsKept(groups', lines[1..], reader);
      if Active(groups') {
        assert Kept(groups, lines, reader)[1..] == Kept(groups', lines[1..], reader);
      } else {
        assert Kept(groups, lines, reader) == Kept(groups', lines[1..], reader);
      }
    }
  }

  lemma ShortenedIsActive(groups: Groups)
    ensures Active(Shortened(groups))
  {
  }

  /** The document closes all its groups, or at least is in no else part when it ends. */
  predicate EndsActive<L, S>(lines: seq<L>, reader: Reader<L, S>) {
    Active(GroupsAfter([], lines, reader))
  }

  /** Every #else, #elif and #endif belongs to an #if, and every #if has its #endif. */
  predicate WellNested<L, S>(depth: nat, lines: seq<L>, reader: Reader<L, S>)
    decreases |lines|
  {
    if lines == [] then depth == 0
    else
      match reader.directive(lines[0])
      case IfDirective => WellNested(depth + 1, lines[1..], reader)
      case ElseDirective => depth > 0 && WellNested(depth, lines[1..], reader)
      case EndifDirective => depth > 0 && WellNested(depth - 1, lines[1..], reader)
      case NoDirective => WellNested(depth, lines[1..], reader)
  }

  lemma {:induction false} WellNestedClosesGroups<L, S>(groups: Groups, lines: seq<L>, reader: Reader<L, S>)
    requires WellNested(|groups|, lines, reader)
    ensures GroupsAfter(groups, lines, reader) == []
    decreases |lines|
  {
    if lines != [] { WellNestedClosesGroups(Advance(groups, reader.directive(lines[0])), lines[1..], reader); }
  }

  /** For any document that does not end in an else part, whatever its lines do to the stack: the nesting stack at the end
      is that of the document with its else parts deleted, and that one is just the effect of its lines. */
  lemma ElsePartsDoNotCount<L, S>(stack: S, lines: seq<L>, reader: Reader<L, S>)
    requires EndsActive(lines, reader)
    ensures var kept := Kept([], lines, reader);
            && Run(Nesting(stack, []), lines, reader).stack == Effects(stack, kept, reader)
            && Run(Nesting(stack, []), kept, reader).stack == Effects(stack, kept, reader)
  {
    var kept := Kept([], lines, reader);
    assert Shortened([]) == [];
    RunCarries(Nesting(stack, []), [], stack, lines, reader);
    KeptIsKept([], lines, reader);
    RunCarries(Nesting(stack, []), [], stack, kept, reader);
    ShortenedIsActive(GroupsAfter([], lines, reader));
  }

  lemma WellNestedDocument<L, S>(stack: S, lines: seq<L>, reader: Reader<L, S>)
    requires WellNested(0, lines, reader)
    ensures Run(Nesting(stack, []), lines, reader).stack == Run(Nesting(stack, []), Kept([], lines, reader), reader).stack
    ensures Run(Nesting(stack, []), lines, reader).ppStack == []
  {
    WellNestedClosesGroups([], lines, reader);
    ElsePartsDoNotCount(stack, lines, reader);
    RunCarries(Nesting(stack, []), [], stack, lines, reader);
  }

  // ----- Inside else parts -----

  lemma {:induction false} RunAppends<L, S>(st: Nesting<S>, a: seq<L>, b: seq<L>, reader: Reader<L, S>)
    ensures Run(st, a + b, reader) == Run(Run(st, a, reader), b, reader)
    decreases |a|
  {
    hide Update;
    if a == [] {
      assert a + b == b;
    } else {
      assert (a + b)[1..] == a[1..] + b;
      RunAppends(Update(st, a[0], reader), a[1..], b, reader);
    }
  }

  /** Some lines of one group: groups inside are opened before they go on or are closed, and the group itself goes on
      with #else and #elif only if `branches` says so. */
  predicate Within<L, S>(depth: nat, branches: bool, lines: seq<L>, reader: Reader<L, S>)
    decreases |lines|
  {
    if lines == [] then true
    else
      match reader.directive(lines[0])
      case IfDirective => Within(depth + 1, branches, lines[1..], reader)
      case ElseDirective => (depth > 0 || branches) && Within(depth, branches, lines[1..], reader)
      case EndifDirective => depth > 0 && Within(depth - 1, branches, lines[1..], reader)
      case NoDirective => Within(depth, branches, lines[1..], reader)
  }

  /** The number of groups that are still open after these lines. */
  function DepthAfter<L, S>(depth: int, lines: seq<L>, reader: Reader<L, S>): int
    decreases |lines|
  {
    if lines == [] then depth
    else
      match reader.directive(lines[0])
      case IfDirective => DepthAfter(depth + 1, lines[1..], reader)
      case EndifDirective => DepthAfter(depth - 1, lines[1..], reader)
      case _ => DepthAfter(depth, lines[1..], reader)
  }

  /** Lines inside a group do not touch what was saved at its #if, nor what is below. */
  lemma {:induction false} GroupKeepsStart<L, S>(st: Nesting<S>, base: nat, depth: nat, lines: seq<L>, reader: Reader<L, S>)
    requires |st.ppStack| == base + 1 + depth && Within(depth, true, lines, reader)
    ensures var st' := Run(st, lines, reader);
            && |st'.ppStack| == base + 1 + DepthAfter(depth, lines, reader) && DepthAfter(depth, lines, reader) >= 0
            && st'.ppStack[..base] == st.ppStack[..base]
            && st'.ppStack[base].stackBeforeIf == st.ppStack[base].stackBeforeIf
    decreases |lines|
  {
    if lines != [] {
      var st1 := Update(st, lines[0], reader);
      assert st1.ppStack[..base] == st.ppStack[..base];
      match reader.directive(lines[0])
      case IfDirective => GroupKeepsStart(st1, base, depth + 1, lines[1..], reader);
      case EndifDirective => GroupKeepsStart(st1, base, depth - 1, lines[1..], reader);
      case _ => GroupKeepsStart(st1, base, depth, lines[1..], reader);
    }
  }

  /** Lines that stay within the groups they open do not care what is saved below. */
  lemma {:induction false} BelowDoesNotCount<L, S>(stack: S, below: seq<PreprocessorInfo<S>>, own: seq<PreprocessorInfo<S>>,
                                                   lines: seq<L>, reader: Reader<L, S>)
    requires Within(|own|, false, lines, reader)
    ensures Run(Nesting(stack, below + own), lines, reader).stack == Run(Nesting(stack, own), lines, reader).stack
    decreases |lines|
  {
    if lines != [] {
      var a, b := Update(Nesting(stack, below + own), lines[0], reader), Update(Nesting(stack, own), lines[0], reader);
      UpdateAbove(stack, below, own, lines[0], reader);
      BelowDoesNotCount(b.stack, below, b.ppStack, lines[1..], reader);
    }
  }

  lemma UpdateAbove<L, S>(stack: S, below: seq<PreprocessorInfo<S>>, own: seq<PreprocessorInfo<S>>, line: L, reader: Reader<L, S>)
    requires own != [] || reader.directive(line) == IfDirective || reader.directive(line) == NoDirective
    ensures var a, b := Update(Nesting(stack, below + own), line, reader), Update(Nesting(stack, own), line, reader);
            a.stack == b.stack && a.ppStack == below + b.ppStack
    ensures |Update(Nesting(stack, own), line, reader).ppStack| == DepthAfter(|own|, [line], reader)
  {
    assert [line][1..] == [];
    match reader.directive(line)
    case IfDirective =>
      var info := PreprocessorInfo(stack, stack, false);
      assert below + own + [info] == below + (own + [info]);
    case ElseDirective =>
      assert Top(below + own) == Top(own) && Pop(below + own) == below + Pop(own);
      var top' := if Top(own).seenElse then Top(own) else Top(own).(seenElse := true, stackBeforeElse := stack);
      assert below + Pop(own) + [top'] == below + (Pop(own) + [top']);
    case EndifDirective =>
      assert Top(below + own) == Top(own) && Pop(below + own) == below + Pop(own);
    case NoDirective =>
  }

  /** Every #else and #elif, be it the first of its group or a later one, goes back to the stack in front of the group's #if;
      from there on the stack is the effect of the lines since then, without their own else parts. This holds wherever
      the group stands, whatever is in front of it, and however deep it is nested. */
  lemma ElseStartsOver<L, S>(start: Nesting<S>, front: seq<L>, ifLine: L, branches: seq<L>, elseLine: L, since: seq<L>,
                             reader: Reader<L, S>)
    requires reader.directive(ifLine) == IfDirective && reader.directive(elseLine) == ElseDirective
    requires Within(0, true, branches, reader) && DepthAfter(0, branches, reader) == 0
    requires Within(0, false, since, reader) && EndsActive(since, reader)
    ensures Run(start, front + ([ifLine] + (branches + ([elseLine] + since))), reader).stack
         == Effects(reader.effect(elseLine, Run(start, front, reader).stack), Kept([], since, reader), reader)
  {
    hide Kept, Effects, EndsActive;
    var st := Run(start, front, reader);
    var st1 := Update(st, ifLine, reader);
    RunAppends(start, front, [ifLine] + (branches + ([elseLine] + since)), reader);
    RunFirst(st, ifLine, branches + ([elseLine] + since), reader);
    RunAppends(st1, branches, [elseLine] + since, reader);
    GroupKeepsStart(st1, |st.ppStack|, 0, branches, reader);
    var st2 := Run(st1, branches, reader);
    RunFirst(st2, elseLine, since, reader);
    var st3 := Update(st2, elseLine, reader);
    assert st3.stack == reader.effect(elseLine, st.stack);
    assert st3.ppStack + [] == st3.ppStack;
    BelowDoesNotCount(st3.stack, st3.ppStack, [], since, reader);
    ElsePartsDoNotCount(st3.stack, since, reader);
  }

  lemma RunFirst<L, S>(st: Nesting<S>, line: L, rest: seq<L>, reader: Reader<L, S>)
    ensures Run(st, [line] + rest, reader) == Run(Update(st, line, reader), rest, reader)
  {
    assert ([line] + rest)[1..] == rest;
  }

  // ----- The condition is exact -----

  /** The reader that records which lines had an effect. */
  function Trace<L>(directive: L -> Directive): Reader<L, seq<L>> {
    Reader(directive, (line, trace) => trace + [line])
  }

  lemma {:induction false} LastLineCounts<L>(st: Nesting<seq<L>>, lines: seq<L>, directive: L -> Directive)
    requires lines != []
    ensures var trace := Run(st, lines, Trace(directive)).stack; trace != [] && Top(trace) == Top(lines)
    decreases |lines|
  {
    if |lines| > 1 {
      LastLineCounts(Update(st, lines[0], Trace(directive)), lines[1..], directive);
    } else {
      assert lines[1..] == [];
    }
  }

  lemma {:induction false} KeptLast<L, S>(groups: Groups, lines: seq<L>, reader: Reader<L, S>)
    requires lines != [] && forall i, j :: 0 <= i < j < |lines| ==> lines[i] != lines[j]
    ensures forall l <- Kept(groups, lines, reader) :: l in lines
    ensures Top(lines) in Kept(groups, lines, reader) <==> Active(GroupsAfter(groups, lines, reader))
    decreases |lines|
  {
    var groups' := Advance(groups, reader.directive(lines[0]));
    if |lines| > 1 {
      KeptLast(groups', lines[1..], reader);
      assert lines == [lines[0]] + lines[1..] && lines[0] != Top(lines[1..]);
    } else {
      assert lines[1..] == [];
    }
  }

  lemma {:induction false} TraceOfLines<L>(stack: seq<L>, lines: seq<L>, directive: L -> Directive)
    ensures Effects(stack, lines, Trace(directive)) == stack + lines
    decreases |lines|
  {
    if lines != [] {
      TraceOfLines(stack + [lines[0]], lines[1..], directive);
      assert stack + [lines[0]] + lines[1..] == stack + lines;
    } else {
      assert stack + lines == stack;
    }
  }

  /** On documents of distinct lines, exactly the kept lines have had an effect on the final stack
      if and only if the document does not end in an else part. */
  lemma ExactlyKeptLinesCount<L>(lines: seq<L>, directive: L -> Directive)
    requires forall i, j :: 0 <= i < j < |lines| ==> lines[i] != lines[j]
    ensures Run(Nesting([], []), lines, Trace(directive)).stack == Kept([], lines, Trace(directive))
       <==> EndsActive(lines, Trace(directive))
  {
    if EndsActive(lines, Trace(directive)) {
      ElsePartsDoNotCount([], lines, Trace(directive));
      TraceOfLines([], Kept([], lines, Trace(directive)), directive);
    } else {
      LastLineCounts(Nesting([], []), lines, directive);
      KeptLast([], lines, Trace(directive));
    }
  }

  // ----- The object -----

  class NestingState<L(!new), S(!new)> {
    const reader: Reader<L, S>
    var stack: S
    var ppStack: seq<PreprocessorInfo<S>>

    constructor (reader: Reader<L, S>, empty: S)
      ensures this.reader == reader && State() == Nesting(empty, [])
    {
      this.reader, stack, ppStack := reader, empty, [];
    }

    ghost function State(): Nesting<S>
      reads this
    {
      Nesting(stack, ppStack)
    }

    method UpdatePreprocessorStack(line: L)
      modifies this
      ensures State() == UpdatePreprocessor(old(State()), reader.directive(line))
    {
      match reader.directive(line) {
        case IfDirective =>
          ppStack := ppStack + [PreprocessorInfo(stack, stack, false)];
        case ElseDirective =>
          if ppStack != [] {
            var top := Top(ppStack);
            if !top.seenElse {
              ppStack := Pop(ppStack) + [top.(seenElse := true, stackBeforeElse := stack)];
            }
            stack := Top(ppStack).stackBeforeIf;
          }
        case EndifDirective =>
          if ppStack != [] {
            if Top(ppStack).seenElse {
              stack := Top(ppStack).stackBeforeElse;
            }
            ppStack := Pop(ppStack);
          }
        case NoDirective =>
      }
      assert old(ppStack) != [] ==> old(ppStack) == Pop(old(ppStack)) + [Top(old(ppStack))];
    }

    method UpdateLine(line: L)
      modifies this
      ensures State() == Update(old(State()), line, reader)
    {
      UpdatePreprocessorStack(line);
      stack := reader.effect(line, stack);
    }

    /** Feeds a whole document to a fresh state. */
    method ProcessLines(lines: seq<L>)
      requires ppStack == []
      modifies this
      ensures State() == Run(old(State()), lines, reader)
      ensures EndsActive(lines, reader) ==> stack == Effects(old(stack), Kept([], lines, reader), reader)
    {
      for i := 0 to |lines|
        invariant Run(old(State()), lines, reader) == Run(State(), lines[i..], reader)
      {
        assert lines[i..][1..] == lines[i + 1..];
        UpdateLine(lines[i]);
      }
      if EndsActive(lines, reader) { ElsePartsDoNotCount(old(stack), lines, reader); }
    }
  }
}
