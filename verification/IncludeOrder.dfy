/** The order of the includes within one scope. */
module IncludeOrder {
  import opened Lexicographic
  import opened IncludeLines

  datatype Line = Line(num: nat, text: string)

  /** What is put on the list of problems: a line with the one before it, or, for a line
      of no known class, its bare number. */
  datatype Problem = Pair(num: nat, previous: nat) | Bare(num: nat)

  /** The result of a check; the bare number cannot be unpacked as a pair. */
  datatype Outcome = Warnings(lines: seq<nat>) | TypeError

  // ----- One scope -----

  datatype Scan = Scan(state: Kind, previous: string, previousNum: nat, problems: seq<Problem>)

  const START := Scan(CSystem, "", 0, [])

  function Advance(s: Scan, line: Line): Scan {
    var kind := KindOf(line.text);
    var problem := [Pair(line.num, s.previousNum)];
    var unsorted := if s.previous != "" && Less(line.text, s.previous) then problem else [];
    var found :=
      match kind
      case CSystem => if s.state != CSystem then problem else unsorted
      case CppSystem => if s.state == CSystem then [] else if s.state == Custom then problem else unsorted
      case Custom => if s.state != Custom then [] else unsorted
      case Unclassifiable => [Bare(line.num)];
    var state :=
      match kind
      case CSystem => s.state
      case CppSystem => if s.state == CSystem then CppSystem else s.state
      case Custom => Custom
      case Unclassifiable => s.state;
    Scan(state, line.text, line.num, s.problems + found)
  }

  function ScanAll(scope: seq<Line>): Scan {
    if scope == [] then START else Advance(ScanAll(scope[..|scope| - 1]), scope[|scope| - 1])
  }

  predicate Reported(p: Problem, changed: set<nat>) {
    p.num in changed || (p.Pair? && p.previous in changed)
  }

  function WarningsOf(problems: seq<Problem>, changed: set<nat>): seq<nat> {
    if problems == [] then []
    else
      var p := problems[|problems| - 1];
      WarningsOf(problems[..|problems| - 1], changed) + if Reported(p, changed) then [p.num] else []
  }

  function Unpacked(problems: seq<Problem>, changed: set<nat>): Outcome {
    if exists i :: 0 <= i < |problems| && problems[i].Bare? then TypeError else Warnings(WarningsOf(problems, changed))
  }

  function ScopeOutcome(scope: seq<Line>, changed: set<nat>): Outcome {
    Unpacked(ScanAll(scope).problems, changed)
  }

  method CheckIncludeOrderForScope(scope: seq<Line>, changed: set<nat>) returns (r: Outcome)
    ensures r == ScopeOutcome(scope, changed)
  {
    var problems := FindProblems(scope);
    r := Warn(problems, changed);
  }

  /** The first loop of the check. */
  method FindProblems(scope: seq<Line>) returns (problems: seq<Problem>)
    ensures problems == ScanAll(scope).problems
  {
    hide KindOf, Less;
    var state, previousLine, previousNum := CSystem, "", 0;
    problems := [];
    for i := 0 to |scope|
      invariant Scan(state, previousLine, previousNum, problems) == ScanAll(scope[..i])
    {
      assert scope[..i + 1][..i] == scope[..i];
      var num, line := scope[i].num, scope[i].text;
      match KindOf(line) {
        case CSystem =>
          if state != CSystem || (previousLine != "" && Less(line, previousLine)) {
            problems := problems + [Pair(num, previousNum)];
          }
        case CppSystem =>
          if state == CSystem {
            state := CppSystem;
          } else if state == Custom || (previousLine != "" && Less(line, previousLine)) {
            problems := problems + [Pair(num, previousNum)];
          }
        case Custom =>
          if state != Custom {
            state := Custom;
          } else if previousLine != "" && Less(line, previousLine) {
            problems := problems + [Pair(num, previousNum)];
          }
        case Unclassifiable =>
          problems := problems + [Bare(num)];
      }
      previousLine, previousNum := line, num;
    }
    assert scope[..|scope|] == scope;
  }

  /** The second loop, which unpacks every problem as a pair. */
  method Warn(problems: seq<Problem>, changed: set<nat>) returns (r: Outcome)
    ensures r == Unpacked(problems, changed)
  {
    var warnings: seq<nat> := [];
    for i := 0 to |problems|
      invariant forall j :: 0 <= j < i ==> problems[j].Pair?
      invariant warnings == WarningsOf(problems[..i], changed)
    {
      assert problems[..i + 1][..i] == problems[..i];
      if problems[i].Bare? {
        return TypeError;
      }
      if Reported(problems[i], changed) {
        warnings := warnings + [problems[i].num];
      }
    }
    assert problems[..|problems|] == problems;
    r := Warnings(warnings);
  }

  // ----- What a well ordered scope is -----

  ghost predicate SortedBlock(lines: seq<Line>, kind: Kind) {
    && (forall i :: 0 <= i < |lines| ==> KindOf(lines[i].text) == kind)
    && (forall i, j :: 0 <= i < j < |lines| ==> !Less(lines[j].text, lines[i].text))
  }

  ghost predicate BlocksAt(scope: seq<Line>, a: nat, b: nat) {
    && a <= b <= |scope|
    && SortedBlock(scope[..a], CSystem) && SortedBlock(scope[a..b], CppSystem) && SortedBlock(scope[b..], Custom)
  }

  /** C system includes, then C++ system includes, then the project's, each in order. */
  ghost predicate WellOrdered(scope: seq<Line>) {
    exists a, b :: BlocksAt(scope, a, b)
  }

  lemma NotLessTransitive(a: string, b: string, c: string)
    requires !Less(b, a) && !Less(c, b)
    ensures !Less(c, a)
  {
    if Less(c, a) {
      Total(a, b);
      if a != b {
        Transitive(c, a, b);
        assert false;
      }
    }
  }

  function Rank(line: Line): int {
    match KindOf(line.text)
    case CSystem => 0
    case CppSystem => 1
    case Custom => 2
    case Unclassifiable => 3
  }

  /** Line `b` may come after line `a`. */
  ghost predicate MayFollow(a: Line, b: Line) {
    Rank(a) <= Rank(b) <= 2 && (Rank(a) == Rank(b) ==> !Less(b.text, a.text))
  }

  ghost predicate Pairwise(scope: seq<Line>) {
    && (forall i :: 0 <= i < |scope| ==> Rank(scope[i]) <= 2)
    && (forall i, j :: 0 <= i < j < |scope| ==> MayFollow(scope[i], scope[j]))
  }

  lemma MayFollowTransitive(a: Line, b: Line, c: Line)
    requires MayFollow(a, b) && MayFollow(b, c)
    ensures MayFollow(a, c)
  {
    if Rank(a) == Rank(c) {
      NotLessTransitive(a.text, b.text, c.text);
    }
  }

  /** One more line only has to be compared with the last. */
  lemma PairwiseGrows(scope: seq<Line>, line: Line)
    ensures Pairwise(scope + [line]) <==>
            && Pairwise(scope) && Rank(line) <= 2
            && (scope != [] ==> MayFollow(scope[|scope| - 1], line))
  {
    var more, n := scope + [line], |scope|;
    assert more[n] == line && forall i :: 0 <= i < n ==> more[i] == scope[i];
    forall i | 0 <= i < n && Pairwise(scope) && MayFollow(scope[n - 1], line) ensures MayFollow(scope[i], line) {
      if i < n - 1 {
        MayFollowTransitive(scope[i], scope[n - 1], line);
      }
    }
    hide MayFollow, Rank;
  }

  lemma SameRankBlock(scope: seq<Line>, i: nat, j: nat, kind: Kind)
    requires Pairwise(scope) && i <= j <= |scope|
    requires forall x :: i <= x < j ==> KindOf(scope[x].text) == kind
    ensures SortedBlock(scope[i..j], kind)
  {
    hide Less, KindOf;
    var block := scope[i..j];
    forall x, y | 0 <= x < y < |block| ensures !Less(block[y].text, block[x].text) {
      assert MayFollow(scope[i + x], scope[i + y]);
      assert KindOf(scope[i + x].text) == KindOf(scope[i + y].text);
    }
  }

  lemma FirstOfRank(scope: seq<Line>, rank: nat) returns (a: nat)
    requires Pairwise(scope)
    ensures a <= |scope| && (forall i :: 0 <= i < a ==> Rank(scope[i]) < rank)
    ensures forall i :: a <= i < |scope| ==> rank <= Rank(scope[i]) <= 2
  {
    hide Rank;
    a := 0;
    while a < |scope| && Rank(scope[a]) < rank
      invariant a <= |scope| && forall i :: 0 <= i < a ==> Rank(scope[i]) < rank
    {
      a := a + 1;
    }
    forall i | a <= i < |scope| ensures rank <= Rank(scope[i]) {
      if i > a {
        assert MayFollow(scope[a], scope[i]);
      }
    }
  }

  lemma PairwiseBlocks(scope: seq<Line>) returns (a: nat, b: nat)
    requires Pairwise(scope)
    ensures BlocksAt(scope, a, b)
  {
    a := FirstOfRank(scope, 1);
    b := FirstOfRank(scope, 2);
    hide KindOf, Pairwise;
    assert b < |scope| ==> 2 <= Rank(scope[b]);
    SameRankBlock(scope, 0, a, CSystem);
    SameRankBlock(scope, a, b, CppSystem);
    SameRankBlock(scope, b, |scope|, Custom);
    assert scope[0..a] == scope[..a] && scope[b..|scope|] == scope[b..];
  }

  lemma BlocksPairwise(scope: seq<Line>, a: nat, b: nat)
    requires BlocksAt(scope, a, b)
    ensures Pairwise(scope)
  {
    hide Less, KindOf;
    var c, cpp, custom := scope[..a], scope[a..b], scope[b..];
    forall i | 0 <= i < |scope|
      ensures Rank(scope[i]) == if i < a then 0 else if i < b then 1 else 2
    {
      assert scope[i] == if i < a then c[i] else if i < b then cpp[i - a] else custom[i - b];
    }
    forall i, j | 0 <= i < j < |scope|
      ensures MayFollow(scope[i], scope[j])
    {
      assert j < a ==> scope[i] == c[i] && scope[j] == c[j];
      assert a <= i && j < b ==> scope[i] == cpp[i - a] && scope[j] == cpp[j - a];
      assert b <= i ==> scope[i] == custom[i - b] && scope[j] == custom[j - b];
    }
  }

  /** After lines that gave no problem the scan's state is the class of the last of them. */
  ghost predicate Follows(s: Scan, scope: seq<Line>) {
    if scope == [] then s == START
    else
      var last := scope[|scope| - 1];
      s.previous == last.text && s.previous != "" && s.state == KindOf(last.text)
  }

  lemma EmptyLine()
    ensures KindOf("") == Unclassifiable
  {
  }

  lemma StepClean(s: Scan, scope: seq<Line>, line: Line)
    requires s.problems == [] && Follows(s, scope) && (scope != [] ==> Rank(scope[|scope| - 1]) <= 2)
    ensures Advance(s, line).problems == [] <==>
            Rank(line) <= 2 && (scope != [] ==> MayFollow(scope[|scope| - 1], line))
    ensures Advance(s, line).problems == [] ==> Follows(Advance(s, line), scope + [line])
  {
    EmptyLine();
    hide KindOf, Less;
  }

  lemma {:induction false} NoProblemIffPairwise(scope: seq<Line>)
    ensures ScanAll(scope).problems == [] <==> Pairwise(scope)
    ensures ScanAll(scope).problems == [] ==> Follows(ScanAll(scope), scope)
  {
    if scope == [] {
    } else {
      var n := |scope| - 1;
      NoProblemIffPairwise(scope[..n]);
      PairwiseGrows(scope[..n], scope[n]);
      assert scope == scope[..n] + [scope[n]];
      if ScanAll(scope[..n]).problems == [] {
        assert n > 0 ==> Rank(scope[..n][n - 1]) <= 2;
        StepClean(ScanAll(scope[..n]), scope[..n], scope[n]);
      }
      hide KindOf, Less, Pairwise, Rank, MayFollow;
    }
  }

  /** The list of problems is empty exactly for well ordered scopes. */
  lemma NoProblemIffWellOrdered(scope: seq<Line>)
    ensures ScanAll(scope).problems == [] <==> WellOrdered(scope)
  {
    NoProblemIffPairwise(scope);
    hide ScanAll, Pairwise, BlocksAt;
    if ScanAll(scope).problems == [] {
      var a, b := PairwiseBlocks(scope);
    } else if a, b :| BlocksAt(scope, a, b) {
      BlocksPairwise(scope, a, b);
      assert false;
    }
  }

  /** Line i has no known class and is reported on its own, or is reported with the line
      before it. */
  ghost predicate Concerns(scope: seq<Line>, p: Problem, i: nat) {
    && i < |scope|
    && if p.Bare? then KindOf(scope[i].text) == Unclassifiable && p == Bare(scope[i].num)
       else i > 0 && p == Pair(scope[i].num, scope[i - 1].num)
  }

  lemma StepConcerns(s: Scan, scope: seq<Line>, line: Line, p: Problem)
    requires if scope == [] then s == START else s.previousNum == scope[|scope| - 1].num
    requires p in Advance(s, line).problems && p !in s.problems
    ensures Concerns(scope + [line], p, |scope|)
  {
    hide KindOf, Less;
  }

  lemma PreviousNum(scope: seq<Line>)
    ensures if scope == [] then ScanAll(scope) == START else ScanAll(scope).previousNum == scope[|scope| - 1].num
  {
    hide KindOf, Less;
  }

  /** Every problem concerns some line. */
  lemma {:induction false} ProblemConcerns(scope: seq<Line>, p: Problem) returns (i: nat)
    requires p in ScanAll(scope).problems
    ensures Concerns(scope, p, i)
  {
    hide KindOf, Less, Advance;
    var n := |scope| - 1;
    var s := ScanAll(scope[..n]);
    assert scope == scope[..n] + [scope[n]];
    if p in s.problems {
      i := ProblemConcerns(scope[..n], p);
    } else {
      PreviousNum(scope[..n]);
      StepConcerns(s, scope[..n], scope[n], p);
      i := n;
    }
  }

  /** Every line of no known class is a problem. */
  lemma {:induction false} BareReported(scope: seq<Line>, i: nat)
    requires i < |scope| && KindOf(scope[i].text) == Unclassifiable
    ensures Bare(scope[i].num) in ScanAll(scope).problems
  {
    hide KindOf, Less;
    var n := |scope| - 1;
    if i < n {
      BareReported(scope[..n], i);
    }
  }

  /** The check of a scope fails exactly if some line has no known class. */
  lemma TypeErrorIff(scope: seq<Line>, changed: set<nat>)
    ensures ScopeOutcome(scope, changed) == TypeError <==>
            exists i :: 0 <= i < |scope| && KindOf(scope[i].text) == Unclassifiable
  {
    hide KindOf, ScanAll;
    var problems := ScanAll(scope).problems;
    if i :| 0 <= i < |scope| && KindOf(scope[i].text) == Unclassifiable {
      BareReported(scope, i);
      var k :| 0 <= k < |problems| && problems[k] == Bare(scope[i].num);
      assert problems[k].Bare?;
    }
    if k :| 0 <= k < |problems| && problems[k].Bare? {
      var i := ProblemConcerns(scope, problems[k]);
    }
  }

  // ----- Exactly which lines are reported -----

  /** The highest class so far, among the lines that have one. */
  function Reached(scope: seq<Line>): int {
    if scope == [] then 0
    else
      var before, rank := Reached(scope[..|scope| - 1]), Rank(scope[|scope| - 1]);
      if before < rank <= 2 then rank else before
  }

  /** Line i has a class, but a lower one than has been reached, or that one and comes
      before the line above it in the order of strings. */
  predicate OutOfPlace(scope: seq<Line>, i: nat)
    requires i < |scope|
  {
    && i > 0 && Rank(scope[i]) <= 2
    && var reached := Reached(scope[..i]);
       Rank(scope[i]) < reached || (Rank(scope[i]) == reached && Less(scope[i].text, scope[i - 1].text))
  }

  /** The problems of a scope, line by line. */
  function ProblemsOf(scope: seq<Line>): seq<Problem> {
    if scope == [] then []
    else
      var n := |scope| - 1;
      ProblemsOf(scope[..n]) +
      if Rank(scope[n]) > 2 then [Bare(scope[n].num)]
      else if OutOfPlace(scope, n) then [Pair(scope[n].num, scope[n - 1].num)]
      else []
  }

  /** The scan's state is the highest class reached, and its memory the line before. */
  ghost predicate Remembers(s: Scan, scope: seq<Line>) {
    && s.state != Unclassifiable
    && Reached(scope) == (match s.state case CSystem => 0 case CppSystem => 1 case _ => 2)
    && (if scope == [] then s.previous == ""
        else s.previous == scope[|scope| - 1].text && s.previousNum == scope[|scope| - 1].num)
  }

  lemma StepExact(s: Scan, scope: seq<Line>, line: Line)
    requires Remembers(s, scope)
    ensures Remembers(Advance(s, line), scope + [line])
    ensures Advance(s, line).problems == s.problems +
            if Rank(line) > 2 then [Bare(line.num)]
            else if OutOfPlace(scope + [line], |scope|) then [Pair(line.num, scope[|scope| - 1].num)]
            else []
  {
    var more, n := scope + [line], |scope|;
    assert more[..n] == scope && more[n] == line;
    assert n > 0 ==> more[n - 1] == scope[n - 1];
    assert s.previous == "" ==> !Less(line.text, s.previous);
    assert s.problems + [] == s.problems;
    hide KindOf, Less;
  }

  /** The scan finds exactly these problems, in order. */
  lemma {:induction false} ProblemsExact(scope: seq<Line>)
    ensures ScanAll(scope).problems == ProblemsOf(scope) && Remembers(ScanAll(scope), scope)
  {
    if scope == [] {
    } else {
      var n := |scope| - 1;
      ProblemsExact(scope[..n]);
      StepExact(ScanAll(scope[..n]), scope[..n], scope[n]);
      assert scope[..n] + [scope[n]] == scope;
      hide Advance, Remembers, OutOfPlace, Rank;
    }
  }

  /** A misplaced line that has changed, or whose predecessor has. */
  predicate Warned(scope: seq<Line>, i: nat, changed: set<nat>)
    requires i < |scope|
  {
    OutOfPlace(scope, i) && (scope[i].num in changed || scope[i - 1].num in changed)
  }

  /** The numbers of these lines. */
  function WarningLines(scope: seq<Line>, changed: set<nat>): seq<nat> {
    if scope == [] then []
    else
      var n := |scope| - 1;
      WarningLines(scope[..n], changed) +
      if Warned(scope, n, changed) then [scope[n].num] else []
  }

  lemma WarningsAppend(problems: seq<Problem>, more: seq<Problem>, changed: set<nat>)
    requires |more| <= 1
    ensures WarningsOf(problems + more, changed) ==
            WarningsOf(problems, changed) + if more != [] && Reported(more[0], changed) then [more[0].num] else []
  {
    if more == [] {
      assert problems + more == problems;
    } else {
      assert (problems + more)[..|problems|] == problems;
    }
  }

  lemma {:induction false} WarningsExact(scope: seq<Line>, changed: set<nat>)
    requires forall i :: 0 <= i < |scope| ==> Rank(scope[i]) <= 2
    ensures WarningsOf(ProblemsOf(scope), changed) == WarningLines(scope, changed)
  {
    if scope == [] {
    } else {
      var n := |scope| - 1;
      WarningsExact(scope[..n], changed);
      var found := if OutOfPlace(scope, n) then [Pair(scope[n].num, scope[n - 1].num)] else [];
      WarningsAppend(ProblemsOf(scope[..n]), found, changed);
      hide WarningsOf, OutOfPlace;
    }
  }

  lemma WarnedAbove(scope: seq<Line>, n: nat, i: nat, changed: set<nat>)
    requires i < n <= |scope|
    ensures Warned(scope[..n], i, changed) == Warned(scope, i, changed)
  {
    assert scope[..n][..i] == scope[..i];
  }

  /** There is no warning exactly if the change touches no misplaced line. */
  lemma {:induction false} NoWarningIff(scope: seq<Line>, changed: set<nat>)
    ensures WarningLines(scope, changed) == [] <==> forall i :: 0 <= i < |scope| ==> !Warned(scope, i, changed)
  {
    hide Warned;
    if scope == [] {
    } else {
      var n := |scope| - 1;
      NoWarningIff(scope[..n], changed);
      forall i | 0 <= i < n ensures Warned(scope[..n], i, changed) == Warned(scope, i, changed) {
        WarnedAbove(scope, n, i, changed);
      }
    }
  }

  /** For any set of changed lines the check of a scope fails if some line has no class,
      and else warns of exactly the misplaced lines that the change touches. */
  lemma OutcomeExact(scope: seq<Line>, changed: set<nat>)
    ensures ScopeOutcome(scope, changed) ==
            if exists i :: 0 <= i < |scope| && KindOf(scope[i].text) == Unclassifiable then TypeError
            else Warnings(WarningLines(scope, changed))
  {
    TypeErrorIff(scope, changed);
    ProblemsExact(scope);
    hide KindOf, ScanAll, WarningsOf, ProblemsOf, WarningLines;
    if !exists i :: 0 <= i < |scope| && KindOf(scope[i].text) == Unclassifiable {
      WarningsExact(scope, changed);
    }
  }

  lemma {:induction false} WarningsEmptyIff(problems: seq<Problem>, changed: set<nat>)
    ensures WarningsOf(problems, changed) == [] <==> forall p :: p in problems ==> !Reported(p, changed)
  {
    if problems == [] {
    } else {
      WarningsEmptyIff(problems[..|problems| - 1], changed);
      assert problems == problems[..|problems| - 1] + [problems[|problems| - 1]];
    }
  }

  /** When every line of the scope has changed, the check passes exactly for well ordered
      scopes. */
  lemma PassesIffWellOrdered(scope: seq<Line>, changed: set<nat>)
    requires forall line :: line in scope ==> line.num in changed
    ensures ScopeOutcome(scope, changed) == Warnings([]) <==> WellOrdered(scope)
  {
    NoProblemIffWellOrdered(scope);
    hide KindOf, ScanAll, WellOrdered;
    var problems := ScanAll(scope).problems;
    WarningsEmptyIff(problems, changed);
    if problems != [] {
      var i := ProblemConcerns(scope, problems[0]);
      assert scope[i] in scope && Reported(problems[0], changed);
    }
  }
}
