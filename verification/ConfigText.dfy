/** The config file: how the archived variables are printed, and what their lines are read back as. */
module ConfigText {
  import opened Wrappers
  import opened CommandText

  const BUFFER: nat := 8192

  /** A variable, with its values as they are printed; the latched one is empty if there is none. */
  datatype Cvar = Cvar(name: string, archived: bool, value: string, latched: string)
  {
    /** The value that is written. */
    function Shown(): string {
      if latched != "" then latched else value
    }

    predicate Written() {
      archived && |name| + |Shown()| + 10 <= BUFFER
    }
  }

  // ---------------------------------------------------------------- printing

  function Line(name: string, value: string): (s: string)
    ensures |s| == |name| + |value| + 9
  {
    "seta " + name + " \"" + value + "\"\n"
  }

  /** The text written for the variables. */
  function ConfigOf(vars: seq<Cvar>): string {
    if vars == [] then "" else
    ConfigOf(vars[..|vars| - 1]) + if vars[|vars| - 1].Written() then Line(vars[|vars| - 1].name, vars[|vars| - 1].Shown()) else ""
  }

  /** Writes the archived variables. */
  method WriteVariables(vars: seq<Cvar>) returns (file: string)
    ensures file == ConfigOf(vars)
  {
    file := "";
    for n := 0 to |vars|
      invariant file == ConfigOf(vars[..n])
    {
      assert vars[..n + 1][..n] == vars[..n];
      var v := vars[n];
      if v.archived {
        var bufferval, bufferlatch := v.value, v.latched;
        if bufferlatch != "" {
          if |v.name| + |bufferlatch| + 10 > BUFFER {
            continue;
          }
          file := file + Line(v.name, bufferlatch);
        } else {
          if |v.name| + |bufferval| + 10 > BUFFER {
            continue;
          }
          file := file + Line(v.name, bufferval);
        }
      }
    }
    assert vars[..|vars|] == vars;
  }

  // ---------------------------------------------------------------- reading

  /** The commands in a text: the tokens of each of its lines. */
  function TokensOfEach(lines: seq<string>): seq<seq<string>> {
    if lines == [] then [] else [Tokens(lines[0], 0, false, 0, TOKEN_BUFFER)] + TokensOfEach(lines[1..])
  }

  function Commands(text: string): seq<seq<string>> {
    TokensOfEach(Lines(text, false, false))
  }

  predicate NameChar(c: char) {
    'a' <= c <= 'z' || 'A' <= c <= 'Z' || '0' <= c <= '9' || c == '_'
  }

  predicate IsName(s: string) {
    s != "" && forall k :: 0 <= k < |s| ==> NameChar(s[k])
  }

  /** No NUL: a string of C. */
  predicate IsText(s: string) {
    forall k :: 0 <= k < |s| ==> s[k] != '\0'
  }

  /** No quotation mark and no line break. */
  predicate IsClean(s: string) {
    forall k :: 0 <= k < |s| ==> s[k] != '"' && s[k] != '\n' && s[k] != '\r'
  }

  /** A character that does not end a line and opens nothing. */
  predicate IsPlain(c: char) {
    c != '"' && c != '\n' && c != '\r' && c != ';' && c != '/'
  }

  lemma NameIsPlain(c: char)
    requires NameChar(c)
    ensures IsPlain(c) && c > ' ' && c != '\0'
  {}

  // -- where a line ends

  lemma {:induction false} FindPastPlain(text: string, i: nat, p: nat)
    requires i <= p <= |text| && forall k :: i <= k < p ==> IsPlain(text[k])
    ensures Find(text, i, 0, false, false) == Find(text, p, 0, false, false)
    decreases p - i
  {
    if i < p {
      assert IsPlain(text[i]);
      FindPastPlain(text, i + 1, p);
    }
  }

  lemma {:induction false} FindPastQuoted(text: string, i: nat, p: nat)
    requires i <= p <= |text| && forall k :: i <= k < p ==> text[k] != '"' && text[k] != '\n' && text[k] != '\r'
    ensures Find(text, i, 1, false, false) == Find(text, p, 1, false, false)
    decreases p - i
  {
    if i < p {
      assert text[i] != '"' && text[i] != '\n' && text[i] != '\r';
      FindPastQuoted(text, i + 1, p);
    }
  }

  /** The part of a line before the value: the opening quotation mark is its last character. */
  function Head(name: string): (s: string)
    ensures |s| == |name| + 7
  {
    "seta " + name + " \""
  }

  lemma HeadChars(name: string)
    requires IsName(name)
    ensures Head(name)[0] == 's' && Head(name)[1] == 'e' && Head(name)[2] == 't' && Head(name)[3] == 'a' && Head(name)[4] == ' '
    ensures Head(name)[5..5 + |name|] == name && Head(name)[|name| + 5] == ' ' && Head(name)[|name| + 6] == '"'
    ensures forall k :: 5 <= k < 5 + |name| ==> NameChar(Head(name)[k])
    ensures forall k :: 0 <= k < |name| + 6 ==> IsPlain(Head(name)[k])
  {
    var h := Head(name);
    forall k | 5 <= k < 5 + |name| ensures NameChar(h[k]) {
      assert h[k] == name[k - 5];
    }
    forall k | 0 <= k < |name| + 6 ensures IsPlain(h[k]) {
      if 5 <= k < 5 + |name| { NameIsPlain(h[k]); }
    }
  }

  /** The scan reaches the start of the value inside quotation marks and with no comment open. */
  lemma FindFromValue(name: string, rest: string)
    requires IsName(name)
    ensures var text := Head(name) + rest; Find(text, 0, 0, false, false) == Find(text, |name| + 7, 1, false, false)
  {
    hide Head;
    HeadChars(name);
    var text := Head(name) + rest;
    forall k | 0 <= k < |name| + 6 ensures IsPlain(text[k]) {
      assert text[k] == Head(name)[k];
    }
    FindPastPlain(text, 0, |name| + 6);
    assert text[|name| + 6] == '"';
  }

  /** Inside quotation marks, a line break ends the line. */
  lemma FindInsideBreak(text: string, i: nat)
    requires i < |text| && (text[i] == '\n' || text[i] == '\r')
    ensures Find(text, i, 1, false, false) == Scan(i, false, false)
  {}

  /** At the closing quotation mark of a line and its line break. */
  lemma FindClosing(text: string, i: nat)
    requires i + 1 < |text| && text[i] == '"' && text[i + 1] == '\n'
    ensures Find(text, i, 1, false, false) == Scan(i + 1, false, false)
  {}

  /** A printed line is split off whole whatever a clean value contains, and leaves no comment open. */
  lemma PrintedLineIsSplitOff(name: string, value: string, rest: string)
    requires IsName(name) && IsClean(value) && |name| + |value| + 10 <= BUFFER
    ensures var text := Line(name, value) + rest;
      Lines(text, false, false) == [Line(name, value)[..|name| + |value| + 8]] + Lines(rest, false, false)
  {
    hide Find, Lines, Head, IsName;
    var text := Line(name, value) + rest;
    var p := |name| + 7;
    assert text == Head(name) + (value + "\"\n" + rest) by { LineSplits(name, value, rest); }
    FindFromValue(name, value + "\"\n" + rest);
    forall k | p <= k < p + |value| ensures text[k] != '"' && text[k] != '\n' && text[k] != '\r' {
      assert text[k] == value[k - p];
    }
    FindPastQuoted(text, p, p + |value|);
    FindClosing(text, p + |value|);
    FirstLine(text, false, false);
    assert text[..p + |value| + 1] == Line(name, value)[..p + |value| + 1];
    assert text[p + |value| + 2..] == rest;
  }

  lemma LineSplits(name: string, value: string, rest: string)
    ensures Line(name, value) + rest == Head(name) + (value + "\"\n" + rest)
    ensures |name| + |value| + 8 <= |Line(name, value)| && Line(name, value)[..|name| + |value| + 8] == Head(name) + (value + "\"")
  {}

  // -- the tokens of a line

  lemma {:induction false} WordRuns(text: string, i: nat, p: nat, avail: int)
    requires i <= p < |text| && text[p] == ' ' && avail > p - i + 1
    requires forall k :: i <= k < p ==> text[k] > ' ' && IsPlain(text[k])
    ensures WordEnd(text, i, avail, false) == p
    decreases p - i
  {
    if i < p {
      assert text[i] > ' ' && IsPlain(text[i]);
      WordRuns(text, i + 1, p, avail - 1);
    }
  }

  /** A word that a blank follows becomes a token. */
  lemma ReadWord(text: string, i: nat, j: nat, p: nat, argc: nat, avail: int)
    requires i <= j <= i + 1 && j < p < |text| && text[p] == ' ' && avail > p - j + 2 && argc < MAX_STRING_TOKENS
    requires j > i ==> text[i] == ' '
    requires forall k :: j <= k < p ==> text[k] > ' ' && IsPlain(text[k])
    ensures Tokens(text, i, false, argc, avail) == [text[j..p]] + Tokens(text, p, false, argc + 1, avail - (p - j) - 1)
  {
    hide Tokens, WordEnd;
    assert NextToken(text, i) == (true, j) by {
      assert text[j] > ' ' && IsPlain(text[j]);
      assert SkipWhite(text, j) == j && SkipWhite(text, i) == j;
    }
    WordRuns(text, j, p, avail);
    WordToken(text, i, false, argc, avail);
  }

  lemma {:induction false} QuotedRuns(text: string, i: nat, p: nat, avail: int)
    requires i <= p <= |text| && (p == |text| || text[p] == '"') && avail > p - i + 1
    requires forall k :: i <= k < p ==> text[k] != '\0' && text[k] != '"'
    ensures QuotedEnd(text, i, avail) == p
    decreases p - i
  {
    if i < p {
      assert text[i] != '\0' && text[i] != '"';
      QuotedRuns(text, i + 1, p, avail - 1);
    }
  }

  /** A quoted text up to `p`: a quotation mark closes it, or the line ends. */
  lemma ReadQuoted(text: string, i: nat, p: nat, argc: nat, avail: int)
    requires i + 2 <= p <= |text| && (p < |text| ==> text[p] == '"') && text[i] == ' ' && text[i + 1] == '"'
    requires avail > p - i + 1 && argc < MAX_STRING_TOKENS
    requires forall k :: i + 2 <= k < p ==> text[k] != '\0' && text[k] != '"'
    ensures Tokens(text, i, false, argc, avail) ==
      [text[i + 2..p]] + if p == |text| then [] else Tokens(text, p + 1, false, argc + 1, avail - (p - i - 2) - 1)
  {
    hide Tokens, QuotedEnd;
    assert SkipWhite(text, i + 1) == i + 1 == SkipWhite(text, i);
    QuotedRuns(text, i + 2, p, avail);
    QuotedToken(text, i, argc, avail);
  }

  lemma NothingLeft(text: string, argc: nat, avail: int)
    ensures Tokens(text, |text|, false, argc, avail) == []
  {}

  /** The characters of a line up to its value. */
  predicate Begins(text: string, name: string) {
    |text| >= |name| + 7
    && text[..4] == "seta" && text[4] == ' ' && text[5..5 + |name|] == name && text[5 + |name|] == ' ' && text[6 + |name|] == '"'
    && (forall k :: 0 <= k < 4 ==> text[k] > ' ' && IsPlain(text[k]))
    && forall k :: 5 <= k < 5 + |name| ==> text[k] > ' ' && IsPlain(text[k])
  }

  lemma HeadBegins(name: string, rest: string)
    requires IsName(name)
    ensures Begins(Head(name) + rest, name)
  {
    hide Head, IsName;
    HeadChars(name);
    var text := Head(name) + rest;
    assert forall k :: 0 <= k < |name| + 7 ==> text[k] == Head(name)[k];
    assert text[..4] == "seta";
    forall k | 5 <= k < 5 + |name| ensures text[k] > ' ' && IsPlain(text[k]) {
      assert NameChar(Head(name)[k]);
      NameIsPlain(text[k]);
    }
    assert text[5..5 + |name|] == name;
  }

  /** The command and the name are the first two tokens, whatever follows. */
  lemma HeadTokens(name: string, text: string)
    requires Begins(text, name) && name != "" && |name| + 10 <= BUFFER
    ensures Tokens(text, 0, false, 0, TOKEN_BUFFER) == ["seta", name] + Tokens(text, 5 + |name|, false, 2, TOKEN_BUFFER - |name| - 6)
  {
    hide Tokens, IsPlain;
    ReadWord(text, 0, 0, 4, 0, TOKEN_BUFFER);
    ReadWord(text, 4, 5, 5 + |name|, 1, TOKEN_BUFFER - 5);
    var rest := Tokens(text, 5 + |name|, false, 2, TOKEN_BUFFER - |name| - 6);
    assert [text[0..4]] + ([text[5..5 + |name|]] + rest) == ["seta", name] + rest;
  }

  lemma NamesArePresent(name: string)
    requires IsName(name)
    ensures name != ""
  {}

  /** A line up to `p`, where its value is closed or the line ends, is read back as far as it goes. */
  lemma LineTokens(name: string, text: string, p: nat)
    requires IsName(name) && Begins(text, name)
    requires |name| + 7 <= p <= |text| <= p + 1 && p + 3 <= BUFFER && (p < |text| ==> text[p] == '"')
    requires forall k :: |name| + 7 <= k < p ==> text[k] != '\0' && text[k] != '"'
    ensures Tokens(text, 0, false, 0, TOKEN_BUFFER) == ["seta", name, text[|name| + 7..p]]
  {
    hide Tokens, IsName, IsPlain;
    NamesArePresent(name);
    HeadTokens(name, text);
    ReadQuoted(text, |name| + 5, p, 2, TOKEN_BUFFER - |name| - 6);
    NothingLeft(text, 3, TOKEN_BUFFER - p);
    assert ["seta", name] + [text[|name| + 7..p]] == ["seta", name, text[|name| + 7..p]];
  }

  /** A value without quotation marks is read back, closed or not. */
  lemma ValueTokens(name: string, value: string, closing: string)
    requires IsName(name) && IsText(value) && |name| + |value| + 10 <= BUFFER && (closing == "" || closing == "\"")
    requires forall k :: 0 <= k < |value| ==> value[k] != '"'
    ensures Tokens(Head(name) + (value + closing), 0, false, 0, TOKEN_BUFFER) == ["seta", name, value]
  {
    hide Tokens, Head, IsName, IsPlain, NameChar, Begins;
    HeadBegins(name, value + closing);
    var text := Head(name) + (value + closing);
    var p := |name| + 7;
    forall k | p <= k < p + |value| ensures text[k] != '\0' && text[k] != '"' {
      assert text[k] == value[k - p];
    }
    assert text[p..p + |value|] == value;
    LineTokens(name, text, p + |value|);
  }

  // ---------------------------------------------------------------- the round trip

  /** What the variables' lines should be read back as. */
  function Expected(vars: seq<Cvar>): seq<seq<string>> {
    if vars == [] then [] else
    Expected(vars[..|vars| - 1]) + if vars[|vars| - 1].Written() then [["seta", vars[|vars| - 1].name, vars[|vars| - 1].Shown()]] else []
  }

  /** The variables written have names of letters, digits and underscores, and their values are strings. */
  predicate Named(vars: seq<Cvar>) {
    forall n :: 0 <= n < |vars| && vars[n].Written() ==> IsName(vars[n].name) && IsText(vars[n].Shown())
  }

  predicate AllClean(vars: seq<Cvar>) {
    forall n :: 0 <= n < |vars| && vars[n].Written() ==> IsClean(vars[n].Shown())
  }

  /** A printed line, and what comes after it. */
  lemma PrintedLineIsRead(name: string, value: string, rest: string)
    requires IsName(name) && IsText(value) && IsClean(value) && |name| + |value| + 10 <= BUFFER
    ensures Commands(Line(name, value) + rest) == [["seta", name, value]] + Commands(rest)
  {
    hide Tokens, Head, Lines, IsName, Line;
    PrintedLineIsSplitOff(name, value, rest);
    LineSplits(name, value, rest);
    ValueTokens(name, value, "\"");
  }

  /** The config of the variables, followed by any other text. */
  lemma {:induction false} ConfigIsRead(vars: seq<Cvar>, rest: string)
    requires Named(vars) && AllClean(vars)
    ensures Commands(ConfigOf(vars) + rest) == Expected(vars) + Commands(rest)
    decreases |vars|
  {
    hide Commands, Line, IsName, IsText, IsClean;
    if vars == [] {
      assert ConfigOf(vars) + rest == rest;
      assert Expected(vars) + Commands(rest) == Commands(rest);
    } else {
      var most, v := vars[..|vars| - 1], vars[|vars| - 1];
      if v.Written() {
        var line := Line(v.name, v.Shown());
        assert ConfigOf(vars) + rest == ConfigOf(most) + (line + rest);
        ConfigIsRead(most, line + rest);
        PrintedLineIsRead(v.name, v.Shown(), rest);
        assert Expected(most) + ([["seta", v.name, v.Shown()]] + Commands(rest)) == Expected(vars) + Commands(rest);
      } else {
        assert ConfigOf(vars) == ConfigOf(most) && Expected(vars) == Expected(most);
        ConfigIsRead(most, rest);
      }
    }
  }

  // -- which values survive

  /** No token contains a quotation mark. */
  lemma {:induction false} TokensHaveNoQuotes(text: string, i: nat, argc: nat, avail: int)
    requires i <= |text|
    ensures forall n :: 0 <= n < |Tokens(text, i, false, argc, avail)| ==> '"' !in Tokens(text, i, false, argc, avail)[n]
    decreases |text| - i
  {
    hide Tokens, NextToken, WordEnd, QuotedEnd;
    if argc == MAX_STRING_TOKENS || !NextToken(text, i).0 {
      NoToken(text, i, false, argc, avail);
    } else {
      var j := NextToken(text, i).1;
      if text[j] == '"' {
        QuotedToken(text, i, argc, avail);
        var k := QuotedEnd(text, j + 1, avail);
        QuotedHasNoQuotes(text, j + 1, avail);
        if k < |text| { TokensHaveNoQuotes(text, k + 1, argc + 1, avail - (k - (j + 1)) - 1); }
      } else {
        WordToken(text, i, false, argc, avail);
        var k := WordEnd(text, j, avail, false);
        WordHasNoQuotes(text, j, avail);
        if k > i { TokensHaveNoQuotes(text, k, argc + 1, avail - (k - j) - 1); }
      }
    }
  }

  lemma {:induction false} QuotedHasNoQuotes(text: string, i: nat, avail: int)
    requires i <= |text|
    ensures '"' !in text[i..QuotedEnd(text, i, avail)]
    decreases |text| - i
  {
    var k := QuotedEnd(text, i, avail);
    if k > i {
      QuotedHasNoQuotes(text, i + 1, avail - 1);
      assert text[i..k] == [text[i]] + text[i + 1..k];
    }
  }

  lemma {:induction false} WordHasNoQuotes(text: string, i: nat, avail: int)
    requires i <= |text|
    ensures '"' !in text[i..WordEnd(text, i, avail, false)]
    decreases |text| - i
  {
    var k := WordEnd(text, i, avail, false);
    if k > i {
      WordHasNoQuotes(text, i + 1, avail - 1);
      assert text[i..k] == [text[i]] + text[i + 1..k];
    }
  }

  lemma {:induction false} EachHasNoQuotes(lines: seq<string>, n: nat, m: nat)
    requires n < |TokensOfEach(lines)| && m < |TokensOfEach(lines)[n]|
    ensures '"' !in TokensOfEach(lines)[n][m]
    decreases lines
  {
    hide Tokens;
    if n == 0 {
      TokensHaveNoQuotes(lines[0], 0, 0, TOKEN_BUFFER);
    } else {
      EachHasNoQuotes(lines[1..], n - 1, m);
    }
  }

  /** The first line break in a text that contains one. */
  lemma {:induction false} FirstBreak(value: string) returns (p: nat)
    requires exists k :: 0 <= k < |value| && (value[k] == '\n' || value[k] == '\r')
    ensures p < |value| && (value[p] == '\n' || value[p] == '\r')
    ensures forall k :: 0 <= k < p ==> value[k] != '\n' && value[k] != '\r'
  {
    if value[0] == '\n' || value[0] == '\r' {
      p := 0;
    } else {
      var k :| 0 <= k < |value| && (value[k] == '\n' || value[k] == '\r');
      assert value[1..][k - 1] == value[k];
      p := FirstBreak(value[1..]);
      p := p + 1;
      forall k | 0 <= k < p ensures value[k] != '\n' && value[k] != '\r' {
        if k > 0 { assert value[k] == value[1..][k - 1]; }
      }
    }
  }

  /** A line break in a value cuts its line short. */
  lemma BrokenValueIsCut(name: string, value: string, p: nat, rest: string)
    requires IsName(name) && IsText(value) && |name| + |value| + 10 <= BUFFER
    requires p < |value| && (value[p] == '\n' || value[p] == '\r') && IsClean(value[..p])
    ensures var commands := Commands(Line(name, value) + rest); commands != [] && commands[0] == ["seta", name, value[..p]]
  {
    hide Tokens, Head, Lines, IsName, Line, Find, IsClean;
    var text, q := Line(name, value) + rest, |name| + 7;
    CleanStart(name, value, p, rest);
    FindInsideBreak(text, q + p);
    FirstLine(text, false, false);
    assert IsText(value[..p]);
    ValueTokens(name, value[..p], "");
  }

  /** The scan of a printed line gets as far as its value is clean. */
  lemma CleanStart(name: string, value: string, p: nat, rest: string)
    requires IsName(name) && p < |value| && IsClean(value[..p])
    ensures var text, q := Line(name, value) + rest, |name| + 7;
      && Find(text, 0, 0, false, false) == Find(text, q + p, 1, false, false) && text[q + p] == value[p]
      && text[..q + p] == Head(name) + (value[..p] + "")
    ensures forall k :: 0 <= k < p ==> value[k] != '"'
  {
    hide Head, IsName, Line, Find;
    var text, q := Line(name, value) + rest, |name| + 7;
    LineSplits(name, value, rest);
    FindFromValue(name, value + "\"\n" + rest);
    forall k | q <= k < q + p ensures text[k] != '"' && text[k] != '\n' && text[k] != '\r' {
      assert text[k] == value[k - q] == value[..p][k - q];
    }
    forall k | 0 <= k < p ensures value[k] != '"' {
      assert value[k] == value[..p][k];
    }
    FindPastQuoted(text, q, q + p);
  }

  /** Whatever follows a printed line, its variable is read back first exactly if its value has no quotation mark and no line break. */
  lemma ReadIffClean(name: string, value: string, rest: string)
    requires IsName(name) && IsText(value) && |name| + |value| + 10 <= BUFFER
    ensures [["seta", name, value]] <= Commands(Line(name, value) + rest) <==> IsClean(value)
  {
    hide Tokens, Lines, IsName, Line;
    var commands := Commands(Line(name, value) + rest);
    if IsClean(value) {
      PrintedLineIsRead(name, value, rest);
    } else if [["seta", name, value]] <= commands {
      assert commands[0] == ["seta", name, value];
      EachHasNoQuotes(Lines(Line(name, value) + rest, false, false), 0, 2);
      assert forall k :: 0 <= k < |value| ==> value[k] in value;
      var p := FirstBreak(value);
      BrokenValueIsCut(name, value, p, rest);
    }
  }

  /** The same of a single line. */
  lemma SurvivesIffClean(name: string, value: string)
    requires IsName(name) && IsText(value) && |name| + |value| + 10 <= BUFFER
    ensures Commands(Line(name, value)) == [["seta", name, value]] <==> IsClean(value)
  {
    hide Tokens, Lines, IsName, Line, IsClean;
    ReadIffClean(name, value, "");
    assert Line(name, value) + "" == Line(name, value);
    if IsClean(value) {
      PrintedLineIsRead(name, value, "");
      NoLines(false, false);
    }
  }

  /** The commands of the variables come first in what is read exactly if all values written are clean. */
  lemma {:induction false} ConfigIsReadIff(vars: seq<Cvar>, rest: string)
    requires Named(vars)
    ensures Expected(vars) <= Commands(ConfigOf(vars) + rest) <==> AllClean(vars)
    decreases |vars|
  {
    hide Commands, Line, IsName, IsText, IsClean;
    if vars != [] {
      var most, v := vars[..|vars| - 1], vars[|vars| - 1];
      if v.Written() {
        var line := Line(v.name, v.Shown());
        assert ConfigOf(vars) + rest == ConfigOf(most) + (line + rest);
        ConfigIsReadIff(most, line + rest);
        assert Expected(vars) == Expected(most) + [["seta", v.name, v.Shown()]];
        if AllClean(most) {
          ConfigIsRead(most, line + rest);
          ReadIffClean(v.name, v.Shown(), rest);
          PrefixOfRest(Expected(most), [["seta", v.name, v.Shown()]], Commands(line + rest));
          assert AllClean(vars) <==> IsClean(v.Shown());
        } else {
          assert Expected(most) <= Expected(vars);
        }
      } else {
        assert ConfigOf(vars) == ConfigOf(most) && Expected(vars) == Expected(most);
        ConfigIsReadIff(most, rest);
      }
    }
  }

  lemma PrefixOfRest(a: seq<seq<string>>, b: seq<seq<string>>, c: seq<seq<string>>)
    ensures a + b <= a + c <==> b <= c
  {
    assert (a + b)[|a|..] == b && (a + c)[|a|..] == c;
    if a + b <= a + c {
      assert forall i :: 0 <= i < |b| ==> b[i] == (a + b)[|a| + i] == (a + c)[|a| + i] == c[i];
    }
  }

  /** The file is read back as one command for each written variable, in order, exactly if all values written are clean. */
  lemma ConfigRoundTrip(vars: seq<Cvar>)
    requires Named(vars)
    ensures Commands(ConfigOf(vars)) == Expected(vars) <==> AllClean(vars)
  {
    hide Expected, ConfigOf, Named, AllClean;
    assert ConfigOf(vars) + "" == ConfigOf(vars);
    ConfigIsReadIff(vars, "");
    if AllClean(vars) {
      ConfigIsRead(vars, "");
      assert Commands("") == [];
      assert Expected(vars) + [] == Expected(vars);
    }
  }

  /** A value with a quotation mark is read back as three words. */
  lemma QuotedValueIsSplit()
    ensures Commands(Line("n", "a\"b")) == [["seta", "n", "a", "b", ""]]
  {
    hide Find, Lines, Tokens, WordEnd, QuotedEnd, IsPlain;
    var text := Line("n", "a\"b");
    assert text == "seta n \"a\"b\"\n";
    QuotedLineEnds(text);
    FirstLine(text, false, false);
    NoLines(false, false);
    var line := "seta n \"a\"b\"";
    assert text[..12] == line && text[13..] == "";
    assert Lines(text, false, false) == [line];
    assert line == Head("n") + "a\"b\"";
    HeadBegins("n", "a\"b\"");
    HeadTokens("n", line);
    ReadQuoted(line, 6, 9, 2, TOKEN_BUFFER - 7);
    assert line[8..9] == "a";
    LastTokens(line);
    assert ["seta", "n"] + (["a"] + ["b", ""]) == ["seta", "n", "a", "b", ""];
    assert TokensOfEach([line]) == [Tokens(line, 0, false, 0, TOKEN_BUFFER)] + TokensOfEach([]);
  }

  /** The line's own quotation marks pair up, and its line break ends it. */
  lemma QuotedLineEnds(text: string)
    requires text == "seta n \"a\"b\"\n"
    ensures Find(text, 0, 0, false, false) == Scan(12, false, false)
  {
    FindPastPlain(text, 0, 7);
    FindPastQuoted(text, 8, 9);
    assert Find(text, 9, 1, false, false) == Find(text, 10, 2, false, false);
    assert Find(text, 10, 2, false, false) == Find(text, 11, 2, false, false) == Find(text, 12, 3, false, false);
  }

  lemma LastTokens(line: string)
    requires line == "seta n \"a\"b\""
    ensures Tokens(line, 10, false, 3, TOKEN_BUFFER - 9) == ["b", ""]
  {
    hide Tokens;
    assert NextToken(line, 10) == (true, 10);
    assert WordEnd(line, 10, TOKEN_BUFFER - 9, false) == 11;
    WordToken(line, 10, false, 3, TOKEN_BUFFER - 9);
    assert line[10..11] == "b";
    assert NextToken(line, 11) == (true, 11);
    assert QuotedEnd(line, 12, TOKEN_BUFFER - 11) == 12;
    QuotedToken(line, 11, 4, TOKEN_BUFFER - 11);
    assert line[12..12] == "";
  }

  // ---------------------------------------------------------------- how long the tokens are

  /** The length of the tokens, each with something that ends it. */
  function Span(tokens: seq<string>): nat {
    if tokens == [] then 0 else |tokens[0]| + 1 + Span(tokens[1..])
  }

  /** No word goes on at `i`. */
  predicate WordStops(text: string, i: nat) {
    i < |text| && (text[i] <= ' ' || text[i] == '"' || (text[i] == '/' && (At(text, i + 1) == '/' || At(text, i + 1) == '*')))
  }

  lemma {:induction false} WordEndStops(text: string, i: nat, avail: int)
    requires i <= |text|
    ensures var k := WordEnd(text, i, avail, false); k < |text| && avail - (k - i) > 1 ==> WordStops(text, k)
    decreases |text| - i
  {
    if WordEnd(text, i, avail, false) > i { WordEndStops(text, i + 1, avail - 1); }
  }

  /** The tokens from `i` on are no longer than the text there. */
  lemma {:induction false} TokensAreNoLonger(text: string, i: nat, argc: nat, avail: int)
    requires i <= |text|
    ensures Span(Tokens(text, i, false, argc, avail)) <= |text| - i + if WordStops(text, i) then 0 else 1
    decreases |text| - i
  {
    hide Tokens, NextToken, WordEnd, QuotedEnd;
    if argc == MAX_STRING_TOKENS || !NextToken(text, i).0 {
      NoToken(text, i, false, argc, avail);
    } else {
      var j := NextToken(text, i).1;
      if text[j] == '"' {
        QuotedToken(text, i, argc, avail);
        var k := QuotedEnd(text, j + 1, avail);
        if k < |text| { TokensAreNoLonger(text, k + 1, argc + 1, avail - (k - (j + 1)) - 1); }
      } else {
        WordToken(text, i, false, argc, avail);
        var k := WordEnd(text, j, avail, false);
        WordEndStops(text, j, avail);
        if k > i { TokensAreNoLonger(text, k, argc + 1, avail - (k - j) - 1); }
      }
    }
  }

  // ---------------------------------------------------------------- setting

  /**
   * The variable and value that a set command gives. An argument is measured from its second character on; `beyond` is what is
   * measured after an empty one.
   */
  method SetArguments(argv: seq<string>, beyond: seq<nat>) returns (r: Option<(string, string)>)
    requires |beyond| == |argv|
    ensures |argv| < 3 <==> r == None
    ensures |argv| >= 3 ==> r.value.0 == argv[1]
    ensures |argv| == 3 && |argv[2]| < BUFFER - 1 ==> r == Some((argv[1], argv[2]))
    ensures |argv| >= 3 && Length(argv, beyond, |argv|) < BUFFER - 2 ==> r.value.1 == Joined(argv, |argv|)
    ensures |argv| >= 3 ==> |r.value.1| <= |Joined(argv, |argv|)|
    ensures |argv| >= 3 ==> exists n :: 2 <= n <= |argv| && r.value.1 == Joined(argv, n) && FitsUpTo(argv, beyond, n)
  {
    hide Joined, Length, FitsUpTo;
    if |argv| < 3 {
      return None;
    }
    var combined, l := "", 0;
    NothingJoined(argv, beyond);
    var n := |argv|;
    for i := 2 to |argv|
      invariant combined == Joined(argv, i) && l == Length(argv, beyond, i) && n == |argv| && (i > 2 ==> l < BUFFER - 2)
    {
      OneMoreArgument(argv, beyond, i);
      var len := if argv[i] == "" then beyond[i] else |argv[i]| - 1;
      if l + len >= BUFFER - 2 {
        n := i;
        break;
      }
      combined := combined + argv[i];
      if i != |argv| - 1 {
        combined := combined + " ";
      }
      l := l + len;
    }
    WhatIsSet(argv, beyond, n);
    return Some((argv[1], combined));
  }

  lemma NothingJoined(argv: seq<string>, beyond: seq<nat>)
    requires |argv| == |beyond| > 2
    ensures Joined(argv, 2) == "" && Length(argv, beyond, 2) == 0
  {}

  lemma OneMoreArgument(argv: seq<string>, beyond: seq<nat>, i: nat)
    requires 2 <= i < |argv| == |beyond|
    ensures Joined(argv, i + 1) == Joined(argv, i) + argv[i] + if i != |argv| - 1 then " " else ""
    ensures Length(argv, beyond, i + 1) == Length(argv, beyond, i) + if argv[i] == "" then beyond[i] else |argv[i]| - 1
  {}

  /** The arguments before number `n` are joined: all of them if their measured length is accepted. */
  lemma WhatIsSet(argv: seq<string>, beyond: seq<nat>, n: nat)
    requires |argv| == |beyond| > 2 && 2 <= n <= |argv|
    requires (n > 2 ==> Length(argv, beyond, n) < BUFFER - 2) && (n < |argv| ==> Length(argv, beyond, n + 1) >= BUFFER - 2)
    ensures FitsUpTo(argv, beyond, n) && |Joined(argv, n)| <= |Joined(argv, |argv|)|
    ensures Length(argv, beyond, |argv|) < BUFFER - 2 ==> n == |argv|
    ensures |argv| == 3 && |argv[2]| < BUFFER - 1 ==> Joined(argv, n) == argv[2]
  {
    hide Joined, Length;
    JoinedGrows(argv, n, |argv|);
    if n < |argv| { LengthGrows(argv, beyond, n + 1, |argv|); }
    NothingJoined(argv, beyond);
    OneMoreArgument(argv, beyond, 2);
  }

  /** The arguments before the one with number `n` have a measured length that is accepted; with it they do not. */
  predicate FitsUpTo(argv: seq<string>, beyond: seq<nat>, n: nat)
    requires 2 <= n <= |argv| == |beyond|
  {
    (n > 2 ==> Length(argv, beyond, n) < BUFFER - 2) && (n < |argv| ==> Length(argv, beyond, n + 1) >= BUFFER - 2)
  }

  /** The arguments from the third on, with blanks between them. */
  function Joined(argv: seq<string>, i: nat): string
    requires 2 <= i <= |argv|
  {
    if i == 2 then "" else Joined(argv, i - 1) + argv[i - 1] + if i != |argv| then " " else ""
  }

  function Length(argv: seq<string>, beyond: seq<nat>, i: nat): nat
    requires 2 <= i <= |argv| && |beyond| == |argv|
  {
    if i == 2 then 0 else Length(argv, beyond, i - 1) + if argv[i - 1] == "" then beyond[i - 1] else |argv[i - 1]| - 1
  }

  lemma {:induction false} LengthGrows(argv: seq<string>, beyond: seq<nat>, i: nat, j: nat)
    requires 2 <= i <= j <= |argv| && |beyond| == |argv|
    ensures Length(argv, beyond, i) <= Length(argv, beyond, j)
    decreases j
  {
    if i < j { LengthGrows(argv, beyond, i, j - 1); }
  }

  lemma {:induction false} JoinedGrows(argv: seq<string>, i: nat, j: nat)
    requires 2 <= i <= j <= |argv|
    ensures |Joined(argv, i)| <= |Joined(argv, j)|
    decreases j
  {
    if i < j { JoinedGrows(argv, i, j - 1); }
  }

  /** The joined arguments are as long as the tokens from the third on, with one blank between two. */
  lemma {:induction false} JoinedLength(argv: seq<string>, i: nat)
    requires 2 <= i <= |argv|
    ensures |Joined(argv, i)| + Span(argv[i..]) + (if i == |argv| > 2 then 1 else 0) == Span(argv[2..])
    decreases i
  {
    if i > 2 {
      JoinedLength(argv, i - 1);
      assert argv[i - 1..][1..] == argv[i..];
    }
  }

  /** Whatever line was executed, the joined arguments and the zero byte after them fit a buffer of `BUFFER` bytes. */
  lemma ArgumentsFit(line: string, avail: int)
    requires |line| < MAX_CMD_LINE
    ensures var argv := Tokens(line, 0, false, 0, avail); |argv| >= 3 ==> |Joined(argv, |argv|)| + 1 <= BUFFER
  {
    var argv := Tokens(line, 0, false, 0, avail);
    hide Tokens;
    if |argv| >= 3 {
      TokensAreNoLonger(line, 0, 0, avail);
      JoinedLength(argv, |argv|);
      assert argv[1..][1..] == argv[2..];
      assert Span(argv) == |argv[0]| + 1 + (|argv[1]| + 1 + Span(argv[2..]));
    }
  }
}
