/** The include-order check of a whole file. */
module IncludeFile {
  import opened IncludeLines
  import opened IncludeOrder

  /** The lines of a file, and which custom includes name the file's own header. */
  datatype Source = Source(contents: seq<string>, ownHeaders: set<string>)

  // ----- The special first include -----

  predicate IsInclude(line: string) {
    IsSystem(line) || IsCustom(line)
  }

  /** The first include, if there is one, is at `first`. */
  ghost predicate FirstInclude(contents: seq<string>, first: nat) {
    && first <= |contents|
    && (forall i :: 0 <= i < first ==> !IsInclude(contents[i]))
    && (first < |contents| ==> IsInclude(contents[first]))
  }

  ghost predicate StartsAt(f: Source, start: nat) {
    exists first: nat ::
      && FirstInclude(f.contents, first)
      && start == first +
           if first < |f.contents| && !IsSystem(f.contents[first]) && f.contents[first] in f.ownHeaders then 1 else 0
  }

  /** Lines are skipped as long as they are no includes; and one more, if that is a custom
      include that is not a system one and names the file's own header. */
  lemma StartsIff(f: Source, start: nat)
    ensures StartsAt(f, start) <==>
            && start <= |f.contents|
            && (forall i :: 0 <= i < start - 1 ==> !IsSystem(f.contents[i]) && !IsCustom(f.contents[i]))
            && (start > 0 ==>
                  var last := f.contents[start - 1];
                  !IsSystem(last) && (IsCustom(last) ==> last in f.ownHeaders))
            && (start < |f.contents| && (start == 0 || !IsCustom(f.contents[start - 1])) ==>
                  var next := f.contents[start];
                  IsSystem(next) || (IsCustom(next) && next !in f.ownHeaders))
  {
    hide IsSystem, IsCustom;
    var first: nat := if 0 < start <= |f.contents| && IsCustom(f.contents[start - 1]) then start - 1 else start;
    if StartsAt(f, start) {
      var k: nat :| && FirstInclude(f.contents, k)
                    && start == k + if k < |f.contents| && !IsSystem(f.contents[k]) && f.contents[k] in f.ownHeaders
                                    then 1 else 0;
    } else if start <= |f.contents| && (forall i :: 0 <= i < first ==> !IsInclude(f.contents[i])) {
      assert !(FirstInclude(f.contents, first)
               && start == first + if first < |f.contents| && !IsSystem(f.contents[first])
                                      && f.contents[first] in f.ownHeaders then 1 else 0);
    }
  }

  /** The number of lines that are skipped: up to the first include, and with it if it is
      the file's own header. */
  method SkipSpecialInclude(f: Source) returns (lineNum: nat)
    ensures lineNum <= |f.contents| && StartsAt(f, lineNum)
  {
    hide IsSystem, IsCustom;
    lineNum := 0;
    while lineNum < |f.contents|
      invariant lineNum <= |f.contents| && forall i :: 0 <= i < lineNum ==> !IsInclude(f.contents[i])
    {
      var line := f.contents[lineNum];
      lineNum := lineNum + 1;
      if IsSystem(line) {
        lineNum := lineNum - 1;
        assert FirstInclude(f.contents, lineNum);
        return;
      }
      if IsCustom(line) {
        assert FirstInclude(f.contents, lineNum - 1);
        if line !in f.ownHeaders {
          lineNum := lineNum - 1;
        }
        return;
      }
    }
    assert FirstInclude(f.contents, lineNum);
  }

  // ----- The scopes -----

  /** The directives among lines start to i. */
  function Directives(contents: seq<string>, start: nat, i: nat): nat
    requires i <= |contents|
  {
    if i <= start then 0
    else Directives(contents, start, i - 1) + if IsDirective(contents[i - 1]) then 1 else 0
  }

  /** The eligible lines between directives number k and k + 1, with their line numbers
      in the file. */
  function ScopeLines(contents: seq<string>, start: nat, i: nat, k: nat): seq<Line>
    requires i <= |contents|
  {
    if i <= start then []
    else
      var line := contents[i - 1];
      ScopeLines(contents, start, i - 1, k)
      + if Eligible(line) && Directives(contents, start, i - 1) == k then [Line(i, line)] else []
  }

  ghost predicate AnyUncheckable(contents: seq<string>, start: nat) {
    exists i :: start <= i < |contents| && IsUncheckable(contents[i])
  }

  method SplitScopes(contents: seq<string>, start: nat) returns (checkable: bool, scopes: seq<seq<Line>>)
    requires start <= |contents|
    ensures checkable <==> !AnyUncheckable(contents, start)
    ensures checkable ==> |scopes| == Directives(contents, start, |contents|) + 1
    ensures checkable ==> forall k :: 0 <= k < |scopes| ==> scopes[k] == ScopeLines(contents, start, |contents|, k)
  {
    hide Eligible, IsDirective, IsUncheckable;
    var lineNum := start;
    scopes := [];
    var current: seq<Line> := [];
    while lineNum < |contents|
      invariant start <= lineNum <= |contents|
      invariant forall i :: start <= i < lineNum ==> !IsUncheckable(contents[i])
      invariant |scopes| == Directives(contents, start, lineNum)
      invariant forall k :: 0 <= k < |scopes| ==> scopes[k] == ScopeLines(contents, start, lineNum, k)
      invariant current == ScopeLines(contents, start, lineNum, |scopes|)
      invariant forall k :: k > |scopes| ==> ScopeLines(contents, start, lineNum, k) == []
    {
      var line := contents[lineNum];
      lineNum := lineNum + 1;
      if IsUncheckable(line) {
        return false, [];
      }
      EligibleIsNoDirective(line);
      if IsDirective(line) {
        scopes := scopes + [current];
        current := [];
      } else if Eligible(line) {
        current := current + [Line(lineNum, line)];
      }
    }
    scopes := scopes + [current];
    checkable := true;
  }

  lemma EligibleIsNoDirective(line: string)
    ensures Eligible(line) ==> !IsDirective(line)
  {
    var s := SkipSpace(line);
    if Starts(s, "#include ") {
      assert "#include "[0] == '#' && "#include "[1] == 'i' && "#include "[2] == 'n';
      assert s[1] == 'i' && s[2] == 'n' && SkipSpace(s[1..]) == s[1..];
      var d := s[1..];
      assert "if"[1] == 'f' && "elif"[0] == 'e' && "else"[0] == 'e' && "endif"[0] == 'e';
      assert "define"[0] == 'd' && "undef"[0] == 'u';
    }
  }

  /** Each eligible line from `start` on is in the scope of the directives before it, under
      its own number, and nothing else is in a scope. */
  lemma {:induction false} ScopesHoldEligible(contents: seq<string>, start: nat, n: nat, k: nat, line: Line)
    requires n <= |contents|
    ensures line in ScopeLines(contents, start, n, k) <==>
            && start < line.num <= n && line.text == contents[line.num - 1]
            && Eligible(line.text) && Directives(contents, start, line.num - 1) == k
  {
    hide Eligible, IsDirective, Directives;
    if n <= start {
    } else {
      ScopesHoldEligible(contents, start, n - 1, k, line);
      assert line.num == n && line.text == contents[n - 1] <==> line == Line(n, contents[n - 1]);
    }
  }

  ghost predicate Ascending(s: seq<Line>, n: nat) {
    && (forall i, j :: 0 <= i < j < |s| ==> s[i].num < s[j].num)
    && (forall i :: 0 <= i < |s| ==> s[i].num <= n)
  }

  /** A scope keeps the order of the file, so no line is in it twice. */
  lemma {:induction false} ScopesInFileOrder(contents: seq<string>, start: nat, n: nat, k: nat)
    requires n <= |contents|
    ensures Ascending(ScopeLines(contents, start, n, k), n)
  {
    hide Eligible, IsDirective;
    if n <= start {
    } else {
      ScopesInFileOrder(contents, start, n - 1, k);
      var before, s := ScopeLines(contents, start, n - 1, k), ScopeLines(contents, start, n, k);
      assert s == before || s == before + [Line(n, contents[n - 1])];
    }
  }

  lemma {:induction false} DirectivesGrow(contents: seq<string>, start: nat, i: nat, n: nat)
    requires i <= n <= |contents|
    ensures Directives(contents, start, i) <= Directives(contents, start, n)
  {
    if i < n {
      DirectivesGrow(contents, start, i, n - 1);
    }
  }

  // ----- The whole file -----

  function ScopesOutcome(scopes: seq<seq<Line>>, changed: set<nat>): Outcome {
    if scopes == [] then Warnings([])
    else
      var before, last := ScopesOutcome(scopes[..|scopes| - 1], changed), ScopeOutcome(scopes[|scopes| - 1], changed);
      if before.TypeError? || last.TypeError? then TypeError else Warnings(before.lines + last.lines)
  }

  function Scopes(contents: seq<string>, start: nat): (scopes: seq<seq<Line>>)
    ensures |scopes| == Directives(contents, start, |contents|) + 1
  {
    seq(Directives(contents, start, |contents|) + 1, k requires k >= 0 => ScopeLines(contents, start, |contents|, k))
  }

  ghost function FileOutcome(contents: seq<string>, start: nat, changed: set<nat>): Outcome {
    if AnyUncheckable(contents, start) then Warnings([]) else ScopesOutcome(Scopes(contents, start), changed)
  }

  method CheckIncludeOrderInFile(f: Source, changed: set<nat>) returns (r: Outcome)
    ensures exists start: nat ::
              start <= |f.contents| && StartsAt(f, start) && r == FileOutcome(f.contents, start, changed)
  {
    hide StartsAt, ScopeOutcome, AnyUncheckable;
    var start := SkipSpecialInclude(f);
    var checkable, scopes := SplitScopes(f.contents, start);
    if !checkable {
      return Warnings([]);
    }
    assert scopes == Scopes(f.contents, start);
    var warnings: seq<nat> := [];
    for i := 0 to |scopes|
      invariant ScopesOutcome(scopes[..i], changed) == Warnings(warnings)
    {
      assert scopes[..i + 1][..i] == scopes[..i];
      var outcome := CheckIncludeOrderForScope(scopes[i], changed);
      if outcome.TypeError? {
        FailsForGood(scopes, i, changed);
        return TypeError;
      }
      warnings := warnings + outcome.lines;
    }
    assert scopes[..|scopes|] == scopes;
    r := Warnings(warnings);
  }

  lemma {:induction false} FailsForGood(scopes: seq<seq<Line>>, i: nat, changed: set<nat>)
    requires i < |scopes| && ScopeOutcome(scopes[i], changed) == TypeError
    ensures ScopesOutcome(scopes, changed) == TypeError
  {
    hide ScopeOutcome;
    var n := |scopes| - 1;
    if i < n {
      FailsForGood(scopes[..n], i, changed);
    }
  }

  lemma {:induction false} ScopesFailIff(scopes: seq<seq<Line>>, changed: set<nat>)
    ensures ScopesOutcome(scopes, changed) == TypeError <==>
            exists k :: 0 <= k < |scopes| && ScopeOutcome(scopes[k], changed) == TypeError
    ensures ScopesOutcome(scopes, changed) == Warnings([]) <==>
            forall k :: 0 <= k < |scopes| ==> ScopeOutcome(scopes[k], changed) == Warnings([])
  {
    hide ScopeOutcome;
    if scopes == [] {
    } else {
      var n := |scopes| - 1;
      ScopesFailIff(scopes[..n], changed);
      assert forall k :: 0 <= k < n ==> scopes[..n][k] == scopes[k];
    }
  }

  /** When all lines have changed, a checkable file passes exactly if every scope is well
      ordered. */
  lemma FilePassesIff(contents: seq<string>, start: nat, changed: set<nat>)
    requires !AnyUncheckable(contents, start)
    requires forall n :: 1 <= n <= |contents| ==> n in changed
    ensures FileOutcome(contents, start, changed) == Warnings([]) <==>
            forall k :: 0 <= k <= Directives(contents, start, |contents|) ==>
                          WellOrdered(ScopeLines(contents, start, |contents|, k))
  {
    hide Directives, ScopeLines, ScopeOutcome, WellOrdered, AnyUncheckable;
    var scopes := Scopes(contents, start);
    ScopesFailIff(scopes, changed);
    forall k | 0 <= k < |scopes|
      ensures ScopeOutcome(scopes[k], changed) == Warnings([]) <==>
              WellOrdered(ScopeLines(contents, start, |contents|, k))
    {
      forall line: Line | line in scopes[k] ensures line.num in changed {
        ScopesHoldEligible(contents, start, |contents|, k, line);
      }
      PassesIffWellOrdered(scopes[k], changed);
    }
    assert FileOutcome(contents, start, changed) == ScopesOutcome(scopes, changed);
    if forall k :: 0 <= k < |scopes| ==> ScopeOutcome(scopes[k], changed) == Warnings([]) {
      forall k | 0 <= k < |scopes| ensures WellOrdered(ScopeLines(contents, start, |contents|, k)) {
        assert ScopeOutcome(scopes[k], changed) == Warnings([]);
      }
    } else {
      var k :| 0 <= k < |scopes| && ScopeOutcome(scopes[k], changed) != Warnings([]);
      assert !WellOrdered(ScopeLines(contents, start, |contents|, k));
    }
  }

  /** The check of a file fails exactly if nothing in it is uncheckable and it has a
      system include that takes part and is not closed. */
  lemma FileFailsIff(contents: seq<string>, start: nat, changed: set<nat>)
    ensures FileOutcome(contents, start, changed) == TypeError <==>
            && !AnyUncheckable(contents, start)
            && exists i :: && start <= i < |contents| && Eligible(contents[i]) && IsSystem(contents[i])
                           && !Has(Included(contents[i]).value[1..], ">")
  {
    hide Directives, ScopeLines, ScopeOutcome, AnyUncheckable, Eligible, KindOf;
    var scopes := Scopes(contents, start);
    ScopesFailIff(scopes, changed);
    if k :| 0 <= k < |scopes| && ScopeOutcome(scopes[k], changed) == TypeError {
      TypeErrorIff(scopes[k], changed);
      var i :| 0 <= i < |scopes[k]| && KindOf(scopes[k][i].text) == Unclassifiable;
      var line := scopes[k][i];
      ScopesHoldEligible(contents, start, |contents|, k, line);
      OnlyOpenSystemIncludes(line.text);
      assert start <= line.num - 1 < |contents| && contents[line.num - 1] == line.text;
    }
    if i :| && start <= i < |contents| && Eligible(contents[i]) && IsSystem(contents[i])
            && !Has(Included(contents[i]).value[1..], ">") {
      OnlyOpenSystemIncludes(contents[i]);
      var k := Directives(contents, start, i);
      DirectivesGrow(contents, start, i, |contents|);
      ScopesHoldEligible(contents, start, |contents|, k, Line(i + 1, contents[i]));
      TypeErrorIff(scopes[k], changed);
      var x :| 0 <= x < |scopes[k]| && scopes[k][x] == Line(i + 1, contents[i]);
      assert KindOf(scopes[k][x].text) == Unclassifiable;
    }
  }

  /** Such a file: one include line, not closed. */
  lemma OpenIncludeFails()
    ensures FileOutcome(["#include <foo"], 0, {}) == TypeError
  {
    hide FileOutcome, Eligible, IsSystem, IsUncheckable, Has, Included;
    OpenInclude();
    FileFailsIff(["#include <foo"], 0, {});
    assert ["#include <foo"][0] == "#include <foo";
  }

  /** The warnings of all scopes, one after the other. */
  function AllWarnings(scopes: seq<seq<Line>>, changed: set<nat>): seq<nat> {
    if scopes == [] then []
    else AllWarnings(scopes[..|scopes| - 1], changed) + WarningLines(scopes[|scopes| - 1], changed)
  }

  lemma {:induction false} ScopesExact(scopes: seq<seq<Line>>, changed: set<nat>)
    requires forall k :: 0 <= k < |scopes| ==> ScopeOutcome(scopes[k], changed) != TypeError
    ensures ScopesOutcome(scopes, changed) == Warnings(AllWarnings(scopes, changed))
  {
    if scopes == [] {
    } else {
      var n := |scopes| - 1;
      assert ScopeOutcome(scopes[n], changed) != TypeError;
      OutcomeExact(scopes[n], changed);
      hide ScopeOutcome, WarningLines;
      assert forall k :: 0 <= k < n ==> scopes[..n][k] == scopes[k];
      ScopesExact(scopes[..n], changed);
    }
  }

  /** For any set of changed lines: nothing if an include is uncheckable, a type error if a
      system include that takes part is not closed, and else the warnings of the scopes. */
  lemma FileExact(contents: seq<string>, start: nat, changed: set<nat>)
    ensures FileOutcome(contents, start, changed) ==
            if AnyUncheckable(contents, start) then Warnings([])
            else if exists i :: && start <= i < |contents| && Eligible(contents[i]) && IsSystem(contents[i])
                                && !Has(Included(contents[i]).value[1..], ">") then TypeError
            else Warnings(AllWarnings(Scopes(contents, start), changed))
  {
    FileFailsIff(contents, start, changed);
    hide AnyUncheckable, Eligible, IsSystem, Has, Included, Scopes, ScopeOutcome;
    var scopes := Scopes(contents, start);
    ScopesFailIff(scopes, changed);
    if ScopesOutcome(scopes, changed) != TypeError {
      ScopesExact(scopes, changed);
    }
  }
}
