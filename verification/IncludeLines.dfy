/** The patterns of the include-order check, on single lines. */
module IncludeLines {
  import opened Wrappers

  predicate IsSpace(c: char) {
    c == ' ' || c == '\t' || c == '\n' || c == '\r' || c == '\U{0B}' || c == '\U{0C}'
  }

  function SkipSpace(s: string): string {
    if s != "" && IsSpace(s[0]) then SkipSpace(s[1..]) else s
  }

  /** A prefix of `s`, where '?' stands for any character. */
  predicate Starts(s: string, pattern: string) {
    && |pattern| <= |s|
    && forall i :: 0 <= i < |pattern| ==> pattern[i] == '?' || pattern[i] == s[i]
  }

  /** What follows the leftmost occurrence. */
  function After(s: string, pattern: string): Option<string> {
    if Starts(s, pattern) then Some(s[|pattern|..])
    else if s == "" then None
    else After(s[1..], pattern)
  }

  predicate Has(s: string, pattern: string) {
    After(s, pattern).Some?
  }

  /** What follows "#include " on an include line. */
  function Included(line: string): Option<string> {
    var s := SkipSpace(line);
    if Starts(s, "#include ") then Some(s[9..]) else None
  }

  // ----- The order check of a scope -----

  datatype Kind = CSystem | CppSystem | Custom | Unclassifiable

  function KindOf(line: string): Kind {
    var inc := Included(line);
    if inc.None? then Unclassifiable
    else if Starts(inc.value, "<") && Has(inc.value[1..], ".h>") then CSystem
    else if Starts(inc.value, "<") && Has(inc.value[1..], ">") then CppSystem
    else if Starts(inc.value, "\"") then Custom
    else Unclassifiable
  }

  // ----- The division of a file -----

  predicate IsSystem(line: string) {
    Included(line).Some? && Starts(Included(line).value, "<")
  }

  predicate IsCustom(line: string) {
    var inc := Included(line);
    inc.Some? && Starts(inc.value, "\"") && Has(inc.value[1..], "\"")
  }

  predicate IsExcluded(line: string) {
    var inc := Included(line);
    && inc.Some?
    && (|| (Starts(inc.value, "<") && Has(inc.value[1..], "/"))
        || Starts(inc.value, "<atlbase.h>")
        || Starts(inc.value, "\"build/build_config?h\""))
  }

  predicate IsDirective(line: string) {
    var s := SkipSpace(line);
    && s != "" && s[0] == '#'
    && var d := SkipSpace(s[1..]);
       || Starts(d, "if") || Starts(d, "elif") || Starts(d, "else")
       || Starts(d, "endif") || Starts(d, "define") || Starts(d, "undef")
  }

  predicate IsUncheckable(line: string) {
    var inc := Included(line);
    && inc.Some?
    && (|| (Starts(inc.value, "\"ipc/") && Has(inc.value[5..], "macros.h\""))
        || Starts(inc.value, "<windows.h>")
        || (Starts(inc.value, "\"")
            && var gl := After(inc.value[1..], "gl");
               gl.Some? && Has(gl.value, "autogen?h\"")))
  }

  /** A line that takes part in the check. */
  predicate Eligible(line: string) {
    (IsSystem(line) || IsCustom(line)) && !IsExcluded(line)
  }

  /** The scope check has no class for a system include that is not closed, and for no
      other line that takes part. */
  lemma OnlyOpenSystemIncludes(line: string)
    requires Eligible(line)
    ensures KindOf(line) == Unclassifiable <==> IsSystem(line) && !Has(Included(line).value[1..], ">")
  {
    var rest := Included(line).value;
    assert Starts(rest, "<") ==> rest[0] == '<' by { assert "<"[0] == '<'; }
    assert Starts(rest, "\"") ==> rest[0] == '"' by { assert "\""[0] == '"'; }
    if IsSystem(line) {
      HasLonger(Included(line).value[1..]);
    }
  }

  lemma {:induction false} HasLonger(s: string)
    ensures Has(s, ".h>") ==> Has(s, ">")
  {
    if s != "" && s[0] != '>' {
      HasLonger(s[1..]);
      if Starts(s, ".h>") {
        assert Starts(s[1..][1..], ">");
        HasNext(s[1..]);
      }
    }
  }

  lemma HasNext(s: string)
    requires s != "" && Has(s[1..], ">")
    ensures Has(s, ">")
  {
  }

  lemma OtherStart(s: string, pattern: string)
    requires pattern != "" && pattern[0] != '?' && (s == "" || s[0] != pattern[0])
    ensures !Starts(s, pattern)
  {
  }

  lemma {:induction false} Lacks(s: string, c: char)
    requires c !in s && c != '?'
    ensures !Has(s, [c])
  {
    OtherStart(s, [c]);
    if s == "" {
    } else {
      Lacks(s[1..], c);
    }
  }

  /** A system include that takes part and is not closed. */
  lemma OpenInclude()
    ensures var line := "#include <foo";
            && Included(line).Some? && IsSystem(line) && Eligible(line) && !IsUncheckable(line)
            && !Has(Included(line).value[1..], ">")
  {
    var line := "#include <foo";
    assert Included(line) == Some("<foo") by {
      assert SkipSpace(line) == line && Starts(line, "#include ") && line[9..] == "<foo";
    }
    assert "<foo"[1..] == "foo";
    Lacks("foo", '>');
    Lacks("foo", '/');
    hide Included, Has;
    OtherStart("<foo", "\"");
    OtherStart("<foo", "\"ipc/");
    OtherStart("<foo", "\"build/build_config?h\"");
    assert Starts("<foo", "<") && "<windows.h>"[1] == 'w' && !Starts("<foo", "<windows.h>");
    assert "<atlbase.h>"[1] == 'a' && !Starts("<foo", "<atlbase.h>");
  }
}
