/** What the patterns of the include-order check accept, as strings put together. */
module IncludeForms {
  import opened Wrappers
  import opened IncludeLines

  ghost predicate Blank(b: string) {
    forall i :: 0 <= i < |b| ==>
      b[i] == ' ' || b[i] == '\t' || b[i] == '\n' || b[i] == '\r' || b[i] == '\U{0B}' || b[i] == '\U{0C}'
  }

  /** The string `m` is `pattern`, where '?' is any character. */
  ghost predicate Fits(m: string, pattern: string) {
    |m| == |pattern| && forall i :: 0 <= i < |m| ==> pattern[i] == '?' || m[i] == pattern[i]
  }

  ghost predicate FormAt(line: string, head: string, middle: string,
                         b: string, h: string, x: string, m: string, y: string)
  {
    && line == b + "#include " + h + x + m + y
    && Blank(b) && Fits(h, head) && Fits(m, middle)
  }

  /** Blanks, "#include ", the head, anything, the middle, anything. */
  ghost predicate Form(line: string, head: string, middle: string) {
    exists b, h, x, m, y :: FormAt(line, head, middle, b, h, x, m, y)
  }

  // ----- The matching functions -----

  lemma FitsLiteral(m: string, pattern: string)
    requires '?' !in pattern
    ensures Fits(m, pattern) <==> m == pattern
  {
    if Fits(m, pattern) {
      assert forall i :: 0 <= i < |m| ==> pattern[i] in pattern;
      assert m == pattern;
    }
  }

  lemma StartsIff(s: string, pattern: string)
    ensures Starts(s, pattern) <==> |pattern| <= |s| && Fits(s[..|pattern|], pattern)
  {
  }

  lemma {:induction false} SplitBlank(line: string) returns (b: string)
    ensures Blank(b) && line == b + SkipSpace(line)
    ensures SkipSpace(line) == "" || !Blank([SkipSpace(line)[0]])
  {
    if line == "" || !IsSpace(line[0]) {
      b := "";
      assert SkipSpace(line) == line && line == "" + line;
      assert line != "" ==> [line[0]][0] == line[0];
    } else {
      var rest := SplitBlank(line[1..]);
      var first := [line[0]];
      b := first + rest;
      assert SkipSpace(line) == SkipSpace(line[1..]);
      hide SkipSpace;
      assert line == first + line[1..];
      assert first + (rest + SkipSpace(line)) == b + SkipSpace(line);
      assert Blank(first);
    }
  }

  lemma {:induction false} BlankSkips(b: string, s: string)
    requires Blank(b) && (s == "" || !IsSpace(s[0]))
    ensures SkipSpace(b + s) == s
  {
    if b == "" {
      assert b + s == s;
    } else {
      assert (b + s)[1..] == b[1..] + s;
      BlankSkips(b[1..], s);
    }
  }

  ghost predicate OccursAt(s: string, pattern: string, x: string, m: string, y: string) {
    s == x + m + y && Fits(m, pattern)
  }

  lemma {:induction false} AfterOccurs(s: string, pattern: string) returns (x: string, m: string)
    requires Has(s, pattern)
    ensures OccursAt(s, pattern, x, m, After(s, pattern).value)
  {
    if Starts(s, pattern) {
      StartsIff(s, pattern);
      x, m := "", s[..|pattern|];
      assert s == x + m + s[|pattern|..];
    } else {
      var t;
      t, m := AfterOccurs(s[1..], pattern);
      var y := After(s, pattern).value;
      assert y == After(s[1..], pattern).value;
      hide After, Starts, Fits;
      x := [s[0]] + t;
      assert s == [s[0]] + (t + m + y);
      assert [s[0]] + (t + m + y) == x + m + y;
    }
  }

  /** The leftmost occurrence leaves the longest rest. */
  lemma {:induction false} AfterLongest(s: string, pattern: string, x: string, m: string, y: string) returns (u: string)
    requires OccursAt(s, pattern, x, m, y)
    ensures Has(s, pattern) && After(s, pattern).value == u + y
  {
    if Starts(s, pattern) {
      assert |m| == |pattern|;
      u := s[|pattern|..|x| + |m|];
      assert s[|x| + |m|..] == y;
      assert s[|pattern|..] == u + y;
    } else {
      if x == "" {
        assert s[..|pattern|] == m;
        StartsIff(s, pattern);
        assert false;
      }
      assert s[1..] == x[1..] + m + y;
      u := AfterLongest(s[1..], pattern, x[1..], m, y);
    }
  }

  lemma HasIff(s: string, pattern: string)
    ensures Has(s, pattern) <==> exists x, m, y :: OccursAt(s, pattern, x, m, y)
  {
    if Has(s, pattern) {
      var x, m := AfterOccurs(s, pattern);
    }
    if x, m, y :| OccursAt(s, pattern, x, m, y) {
      var u := AfterLongest(s, pattern, x, m, y);
    }
  }

  lemma IncludedIff(line: string, rest: string)
    ensures Included(line) == Some(rest) <==> exists b :: Blank(b) && line == b + "#include " + rest
  {
    var hash := "#include ";
    FitsHash(SkipSpace(line));
    if Included(line) == Some(rest) {
      var b := SplitBlank(line);
      assert line == b + hash + rest;
    }
    if b :| Blank(b) && line == b + hash + rest {
      assert line == b + (hash + rest) && !IsSpace((hash + rest)[0]);
      BlankSkips(b, hash + rest);
      assert (hash + rest)[..9] == hash && (hash + rest)[9..] == rest;
    }
  }

  lemma FitsHash(s: string)
    ensures Starts(s, "#include ") <==> |s| >= 9 && s[..9] == "#include "
    ensures Starts(s, "#include ") ==> s == "#include " + s[9..]
  {
    StartsIff(s, "#include ");
    if |s| >= 9 {
      FitsLiteral(s[..9], "#include ");
    }
  }

  lemma Parts(h: string, x: string, m: string, y: string)
    ensures var rest := h + x + m + y;
            rest[..|h|] == h && rest[|h|..] == x + m + y
  {
  }

  lemma Joined(b: string, h: string, x: string, m: string, y: string)
    ensures b + "#include " + (h + (x + m + y)) == b + "#include " + h + x + m + y
  {
  }

  lemma FormMeans(line: string, head: string, middle: string, b: string, h: string, x: string, m: string, y: string)
    requires FormAt(line, head, middle, b, h, x, m, y)
    ensures Included(line) == Some(h + x + m + y)
    ensures Starts(h + x + m + y, head) && Has((h + x + m + y)[|head|..], middle)
  {
    var rest := h + x + m + y;
    assert |h| == |head|;
    Parts(h, x, m, y);
    Joined(b, h, x, m, y);
    assert h + (x + m + y) == rest;
    IncludedIff(line, rest);
    StartsIff(rest, head);
    HasIff(x + m + y, middle);
    hide Included, Starts, Has, Blank, Fits;
    assert OccursAt(x + m + y, middle, x, m, y);
  }

  lemma FormFound(line: string, head: string, middle: string)
    requires Included(line).Some? && Starts(Included(line).value, head) && Has(Included(line).value[|head|..], middle)
    ensures Form(line, head, middle)
  {
    var rest := Included(line).value;
    IncludedIff(line, rest);
    StartsIff(rest, head);
    var h, t := rest[..|head|], rest[|head|..];
    HasIff(t, middle);
    hide Included, Starts, Has, Blank, Fits;
    var b :| Blank(b) && line == b + "#include " + rest;
    var x, m, y :| OccursAt(t, middle, x, m, y);
    assert rest == h + t;
    Joined(b, h, x, m, y);
    assert FormAt(line, head, middle, b, h, x, m, y);
  }

  /** How the forms are recognized. */
  lemma FormIff(line: string, head: string, middle: string)
    ensures Form(line, head, middle) <==>
            && Included(line).Some? && Starts(Included(line).value, head)
            && Has(Included(line).value[|head|..], middle)
  {
    hide Included, Has, FormAt;
    if b, h, x, m, y :| FormAt(line, head, middle, b, h, x, m, y) {
      FormMeans(line, head, middle, b, h, x, m, y);
    }
    if && Included(line).Some? && Starts(Included(line).value, head)
       && Has(Included(line).value[|head|..], middle)
    {
      FormFound(line, head, middle);
    }
  }

  lemma AnythingHasEmpty(s: string)
    ensures Has(s, "")
  {
  }

  // ----- The classes of lines -----

  /** A C system include is closed after ".h"; any other closed system include is a C++ one;
      a custom include has a quotation mark; and no other line has a class. */
  lemma KindIff(line: string)
    ensures KindOf(line) == CSystem <==> Form(line, "<", ".h>")
    ensures KindOf(line) == CppSystem <==> Form(line, "<", ">") && !Form(line, "<", ".h>")
    ensures KindOf(line) == Custom <==> Form(line, "\"", "")
  {
    FormIff(line, "<", ".h>");
    FormIff(line, "<", ">");
    FormIff(line, "\"", "");
    var inc := Included(line);
    if inc.Some? {
      OneHead(inc.value);
      if Starts(inc.value, "\"") {
        AnythingHasEmpty(inc.value[1..]);
      }
    }
    hide Included, Starts, Has, Form;
  }

  lemma OneHead(rest: string)
    ensures !(Starts(rest, "<") && Starts(rest, "\""))
  {
    assert "<"[0] == '<' && "\""[0] == '"';
  }

  lemma SystemIff(line: string)
    ensures IsSystem(line) <==> Form(line, "<", "")
  {
    FormIff(line, "<", "");
    StartsShort(line, 1, "<");
    hide Included, Starts, Form;
    if IsSystem(line) {
      AnythingHasEmpty(Included(line).value[1..]);
    }
  }

  lemma CustomIff(line: string)
    ensures IsCustom(line) <==> Form(line, "\"", "\"")
  {
    FormIff(line, "\"", "\"");
  }

  /** The excluded includes: a system include with a slash, <atlbase.h>, and the build
      configuration, where any character may stand for the full stop. */
  lemma ExcludedIff(line: string)
    ensures IsExcluded(line) <==>
            || Form(line, "<", "/") || Form(line, "<atlbase.h>", "") || Form(line, "\"build/build_config?h\"", "")
  {
    FormIff(line, "<", "/");
    FormIff(line, "<atlbase.h>", "");
    FormIff(line, "\"build/build_config?h\"", "");
    assert |"<atlbase.h>"| == 11 && |"\"build/build_config?h\""| == 22;
    hide Included, Starts, Form;
    if Included(line).Some? {
      forall k | 0 <= k <= |Included(line).value| ensures Has(Included(line).value[k..], "") {
        AnythingHasEmpty(Included(line).value[k..]);
      }
    }
    hide Has;
    StartsShort(line, 11, "<atlbase.h>");
    StartsShort(line, 22, "\"build/build_config?h\"");
  }

  lemma StartsShort(line: string, n: nat, head: string)
    requires |head| == n
    ensures Included(line).Some? && Starts(Included(line).value, head) ==> n <= |Included(line).value|
  {
  }

  /** The lines that take part. */
  lemma EligibleIff(line: string)
    ensures Eligible(line) <==>
            && (Form(line, "<", "") || Form(line, "\"", "\""))
            && !Form(line, "<", "/") && !Form(line, "<atlbase.h>", "") && !Form(line, "\"build/build_config?h\"", "")
  {
    SystemIff(line);
    CustomIff(line);
    ExcludedIff(line);
    hide Form, IsSystem, IsCustom, IsExcluded;
  }

  // ----- Uncheckable includes -----

  ghost predicate GlAt(s: string, x: string, y: string, m: string, z: string) {
    s == x + "gl" + y + m + z && Fits(m, "autogen?h\"")
  }

  lemma GlIff(s: string)
    ensures After(s, "gl").Some? && Has(After(s, "gl").value, "autogen?h\"") <==>
            exists x, y, m, z :: GlAt(s, x, y, m, z)
  {
    var pattern := "autogen?h\"";
    if After(s, "gl").Some? && Has(After(s, "gl").value, pattern) {
      var t := After(s, "gl").value;
      var x, gl := AfterOccurs(s, "gl");
      FitsLiteral(gl, "gl");
      HasIff(t, pattern);
      hide Has, After, Fits;
      var y, m, z :| OccursAt(t, pattern, y, m, z);
      assert s == x + "gl" + y + m + z;
      assert GlAt(s, x, y, m, z);
    }
    if x, y, m, z :| GlAt(s, x, y, m, z) {
      var t := y + m + z;
      assert s == x + "gl" + t;
      FitsLiteral("gl", "gl");
      var u := AfterLongest(s, "gl", x, "gl", t);
      assert u + t == (u + y) + m + z;
      assert OccursAt(u + t, pattern, u + y, m, z);
      HasIff(u + t, pattern);
      hide Has, After, Fits;
    }
  }

  /** Blanks, #include, a quotation mark, anything, "gl", anything, and then "autogen", any
      character and "h" with a closing quotation mark. */
  ghost predicate GlForm(line: string) {
    exists b, s, x, y, m, z :: Blank(b) && line == b + "#include " + ("\"" + s) && GlAt(s, x, y, m, z)
  }

  lemma GlFormIff(line: string)
    ensures GlForm(line) <==>
            var inc := Included(line);
            && inc.Some? && Starts(inc.value, "\"")
            && After(inc.value[1..], "gl").Some? && Has(After(inc.value[1..], "gl").value, "autogen?h\"")
  {
    if b, s, x, y, m, z :| Blank(b) && line == b + "#include " + ("\"" + s) && GlAt(s, x, y, m, z) {
      var rest := "\"" + s;
      IncludedIff(line, rest);
      assert rest[1..] == s && Starts(rest, "\"");
      GlIff(s);
      hide Included, After, Has, Starts;
    }
    var inc := Included(line);
    if && inc.Some? && Starts(inc.value, "\"")
       && After(inc.value[1..], "gl").Some? && Has(After(inc.value[1..], "gl").value, "autogen?h\"")
    {
      var s := inc.value[1..];
      IncludedIff(line, inc.value);
      assert inc.value == "\"" + s by { assert "\""[0] == '"'; }
      GlIff(s);
      hide Included, After, Has, Starts;
      var b :| Blank(b) && line == b + "#include " + inc.value;
      var x, y, m, z :| GlAt(s, x, y, m, z);
    }
  }

  lemma UncheckableIff(line: string)
    ensures IsUncheckable(line) <==>
            Form(line, "\"ipc/", "macros.h\"") || Form(line, "<windows.h>", "") || GlForm(line)
  {
    FormIff(line, "\"ipc/", "macros.h\"");
    FormIff(line, "<windows.h>", "");
    GlFormIff(line);
    assert |"\"ipc/"| == 5 && |"<windows.h>"| == 11;
    StartsShort(line, 11, "<windows.h>");
    hide Included, Starts, Form, GlForm, After;
    if Included(line).Some? && Starts(Included(line).value, "<windows.h>") {
      AnythingHasEmpty(Included(line).value[11..]);
    }
    hide Has;
  }

  // ----- Directives -----

  ghost predicate Keyword(word: string) {
    word == "if" || word == "elif" || word == "else" || word == "endif" || word == "define" || word == "undef"
  }

  ghost predicate DirectiveAt(line: string, b: string, c: string, word: string, y: string) {
    line == b + "#" + c + word + y && Blank(b) && Blank(c) && Keyword(word)
  }

  lemma KeywordIff(d: string)
    ensures (|| Starts(d, "if") || Starts(d, "elif") || Starts(d, "else")
             || Starts(d, "endif") || Starts(d, "define") || Starts(d, "undef")) <==>
            exists word, y :: Keyword(word) && d == word + y
  {
    var words := ["if", "elif", "else", "endif", "define", "undef"];
    forall k | 0 <= k < |words| ensures Starts(d, words[k]) <==> exists y :: d == words[k] + y {
      StartsLiteral(d, words[k]);
    }
    hide Starts;
    assert words[0] == "if" && words[1] == "elif" && words[2] == "else";
    assert words[3] == "endif" && words[4] == "define" && words[5] == "undef";
    if word, y :| Keyword(word) && d == word + y {
      assert exists k :: 0 <= k < |words| && words[k] == word;
    }
    if k :| 0 <= k < |words| && Starts(d, words[k]) {
      var y :| d == words[k] + y;
      assert Keyword(words[k]);
    }
  }

  lemma StartsLiteral(s: string, p: string)
    requires '?' !in p
    ensures Starts(s, p) <==> exists y :: s == p + y
  {
    StartsIff(s, p);
    if |p| <= |s| {
      FitsLiteral(s[..|p|], p);
    }
    if Starts(s, p) {
      assert s == p + s[|p|..];
    }
    if y :| s == p + y {
      assert s[..|p|] == p;
    }
  }

  /** Blanks, a number sign, blanks, one of the six words, anything. */
  lemma DirectiveIff(line: string)
    ensures IsDirective(line) <==> exists b, c, word, y :: DirectiveAt(line, b, c, word, y)
  {
    if IsDirective(line) {
      var b, c, word, y := DirectiveMeans(line);
    }
    if b, c, word, y :| DirectiveAt(line, b, c, word, y) {
      DirectiveFound(line, b, c, word, y);
    }
  }

  lemma DirectiveMeans(line: string) returns (b: string, c: string, word: string, y: string)
    requires IsDirective(line)
    ensures DirectiveAt(line, b, c, word, y)
  {
    var s := SkipSpace(line);
    var d := SkipSpace(s[1..]);
    KeywordIff(d);
    hide Starts, SkipSpace, Blank, Keyword;
    b := SplitBlank(line);
    c := SplitBlank(s[1..]);
    word, y :| Keyword(word) && d == word + y;
    assert s == "#" + s[1..];
    JoinedDirective(b, c, word, y);
  }

  lemma JoinedDirective(b: string, c: string, word: string, y: string)
    ensures b + ("#" + (c + (word + y))) == b + "#" + c + word + y
  {
  }

  lemma DirectiveFound(line: string, b: string, c: string, word: string, y: string)
    requires DirectiveAt(line, b, c, word, y)
    ensures IsDirective(line)
  {
    var d := word + y;
    var s := "#" + (c + d);
    assert line == b + s;
    assert s[0] == '#' && s[1..] == c + d && d[0] == word[0];
    BlankSkips(b, s);
    BlankSkips(c, d);
    KeywordIff(d);
    hide Starts, SkipSpace, Blank;
  }
}
