/** How the command buffer splits text into lines, and how a line is split into tokens. */
module CommandText {
  import opened Wrappers

  const MAX_CMD_LINE: nat := 8192
  const MAX_STRING_TOKENS: nat := 1024
  const TOKEN_BUFFER: nat := 9216

  // ---------------------------------------------------------------- the end of a line

  /** Where a line ends, and which kind of comment goes on after it. */
  datatype Scan = Scan(i: nat, star: bool, slash: bool)

  /** Goes on from character `i` with `quotes` quotation marks met; comments may be open. */
  function Find(text: string, i: nat, quotes: nat, star: bool, slash: bool): (s: Scan)
    requires i <= |text|
    ensures s.i <= |text|
    decreases |text| - i
  {
    if i == |text| then Scan(i, star, slash)
    else
      var q := if text[i] == '"' then quotes + 1 else quotes;
      var open := q % 2 == 0;
      var pair := open && i + 1 < |text|;
      var slash1 := slash || (pair && !star && text[i] == '/' && text[i + 1] == '/');
      var starts := pair && !(!star && text[i] == '/' && text[i + 1] == '/') && !slash && text[i] == '/' && text[i + 1] == '*';
      var ends := pair && !(!star && text[i] == '/' && text[i + 1] == '/') && !starts && star && text[i] == '*' && text[i + 1] == '/';
      var star1 := star || starts;
      if ends then Scan(i + 1, false, slash)
      else if open && !slash1 && !star1 && text[i] == ';' then Scan(i, star1, slash1)
      else if !star1 && (text[i] == '\n' || text[i] == '\r') then Scan(i, star1, false)
      else Find(text, i + 1, q, star1, slash1)
  }

  /** The lines that are executed for the text, the comments given being open at its start. */
  function Lines(text: string, star: bool, slash: bool): seq<string>
    decreases |text|
  {
    if text == "" then []
    else
      var s := Find(text, 0, 0, star, slash);
      var i := Min(s.i, MAX_CMD_LINE - 1);
      [text[..i]] + if i == |text| then [] else Lines(text[i + 1..], s.star, s.slash)
  }

  lemma NoLines(star: bool, slash: bool)
    ensures Lines("", star, slash) == []
  {}

  /** The first line, and the rest. */
  lemma FirstLine(text: string, star: bool, slash: bool)
    requires text != ""
    ensures var s := Find(text, 0, 0, star, slash);
      var i := Min(s.i, MAX_CMD_LINE - 1);
      i <= |text| && Lines(text, star, slash) == [text[..i]] + Lines(if i == |text| then "" else text[i + 1..], s.star, s.slash)
  {
    hide Find;
  }

  // ---------------------------------------------------------------- where a line ends, by the text

  /** An even number of quotation marks stands before character `k`. */
  ghost predicate Outside(text: string, k: nat) {
    |Marks(text, k)| % 2 == 0
  }

  ghost function Marks(text: string, k: nat): set<nat> {
    set i: nat | i < k && i < |text| && text[i] == '"'
  }

  /** A slash followed by `c`, outside quotation marks. */
  ghost predicate Opening(text: string, k: nat, c: char) {
    k + 1 < |text| && text[k] == '/' && text[k + 1] == c && Outside(text, k)
  }

  /** The first comment of either kind begins at character `k`. */
  ghost predicate Begins(text: string, k: nat, c: char) {
    Opening(text, k, c) && forall j: nat :: j < k ==> !Opening(text, j, '/') && !Opening(text, j, '*')
  }

  /** A comment that a star and a slash end is open before character `k`. */
  ghost predicate InStar(text: string, k: nat, star: bool, slash: bool) {
    star || (!slash && exists j: nat :: j < k && Begins(text, j, '*'))
  }

  /** A comment that goes on to the end of the line is open before character `k`. */
  ghost predicate InSlash(text: string, k: nat, star: bool, slash: bool) {
    slash || (!star && exists j: nat :: j < k && Begins(text, j, '/'))
  }

  /**
   A line ends at a line break that is not in a starred comment, at a semicolon that is neither in a
   comment nor quoted, and at the end of a starred comment.
   */
  ghost predicate EndsAt(text: string, k: nat, star: bool, slash: bool)
    requires k < |text|
  {
    || ((text[k] == '\n' || text[k] == '\r') && !InStar(text, k, star, slash))
    || (text[k] == ';' && Outside(text, k) && !InStar(text, k, star, slash) && !InSlash(text, k, star, slash))
    || ClosesAt(text, k, star, slash)
  }

  /** A star and a slash that end a comment end there. */
  ghost predicate ClosesAt(text: string, k: nat, star: bool, slash: bool)
    requires k < |text|
  {
    k > 0 && text[k - 1] == '*' && text[k] == '/' && Outside(text, k - 1) && InStar(text, k - 1, star, slash)
  }

  /** The first line ends at character `e`, or with the text. */
  ghost predicate IsLineEnd(text: string, e: nat, star: bool, slash: bool) {
    && e <= |text| && (e < |text| ==> EndsAt(text, e, star, slash))
    && forall k: nat :: k < e ==> !EndsAt(text, k, star, slash)
  }

  lemma MarksStep(text: string, k: nat)
    requires k < |text|
    ensures Outside(text, k + 1) <==> if text[k] == '"' then !Outside(text, k) else Outside(text, k)
  {
    assert Marks(text, k + 1) == if text[k] == '"' then Marks(text, k) + {k} else Marks(text, k);
  }

  /** At most one comment is open. */
  lemma StillOneKind(text: string, k: nat, star: bool, slash: bool)
    requires !(star && slash)
    ensures !(InStar(text, k, star, slash) && InSlash(text, k, star, slash))
  {
    hide Begins;
    OneKind(text);
  }

  /** If comments begin before `k` one of them is the first. */
  lemma {:induction false} SomeComment(text: string, k: nat, star: bool, slash: bool)
    requires !star && !slash
    ensures (InStar(text, k, star, slash) || InSlash(text, k, star, slash)) <==> exists j: nat :: j < k && (Opening(text, j, '/') || Opening(text, j, '*'))
  {
    hide Opening;
    if k > 0 {
      SomeComment(text, k - 1, star, slash);
      if j: nat :| j < k && (Opening(text, j, '/') || Opening(text, j, '*')) {
        if forall i: nat :: i < k - 1 ==> !Opening(text, i, '/') && !Opening(text, i, '*') {
          assert Begins(text, j, '/') || Begins(text, j, '*');
        }
      }
    }
  }

  /** What character `k` opens. */
  lemma CommentStep(text: string, k: nat, star: bool, slash: bool)
    requires !(star && slash)
    ensures InStar(text, k + 1, star, slash) <==> InStar(text, k, star, slash) || (!InSlash(text, k, star, slash) && Opening(text, k, '*'))
    ensures InSlash(text, k + 1, star, slash) <==> InSlash(text, k, star, slash) || (!InStar(text, k, star, slash) && Opening(text, k, '/'))
    ensures !(InStar(text, k, star, slash) && InSlash(text, k, star, slash))
  {
    hide Outside;
    if !star && !slash {
      SomeComment(text, k, star, slash);
      OneKind(text);
      assert Opening(text, k, '*') && !InStar(text, k, star, slash) && !InSlash(text, k, star, slash) ==> Begins(text, k, '*');
      assert Opening(text, k, '/') && !InStar(text, k, star, slash) && !InSlash(text, k, star, slash) ==> Begins(text, k, '/');
    }
  }

  /** The first comment is of one kind only. */
  lemma OneKind(text: string)
    ensures forall i: nat, j: nat :: !(Begins(text, i, '*') && Begins(text, j, '/'))
  {
    hide Outside;
    forall i: nat, j: nat
      ensures !(Begins(text, i, '*') && Begins(text, j, '/'))
    {}
  }

  /** The automaton that looks for the end of a line finds it, and knows which comment is open at the end of the text. */
  lemma {:induction false} FindsFrom(text: string, i: nat, quotes: nat, star: bool, slash: bool)
    requires i <= |text| && !(star && slash) && (quotes % 2 == 0 <==> Outside(text, i))
    requires forall k: nat :: k < i ==> !EndsAt(text, k, star, slash)
    requires i < |text| ==> !ClosesAt(text, i, star, slash)
    ensures var s := Find(text, i, quotes, InStar(text, i, star, slash), InSlash(text, i, star, slash));
      && IsLineEnd(text, s.i, star, slash)
      && (s.i < |text| ==> !s.star && !s.slash)
      && (s.i == |text| ==> s.star == InStar(text, |text|, star, slash) && s.slash == InSlash(text, |text|, star, slash))
    decreases |text| - i
  {
    if i < |text| {
      CommentStep(text, i, star, slash);
      MarksStep(text, i);
      var st, sl := InStar(text, i, star, slash), InSlash(text, i, star, slash);
      var q := if text[i] == '"' then quotes + 1 else quotes;
      hide Outside, InStar, InSlash;
      if st && i + 1 < |text| && q % 2 == 0 && text[i] == '*' && text[i + 1] == '/' {
        assert EndsAt(text, i + 1, star, slash);
      } else if !EndsAt(text, i, star, slash) {
        FindsFrom(text, i + 1, q, star, slash);
      }
    }
  }

  /** Where `Find` ends a line. */
  lemma FindsLineEnd(text: string, star: bool, slash: bool)
    requires !(star && slash)
    ensures var s := Find(text, 0, 0, star, slash);
      && IsLineEnd(text, s.i, star, slash)
      && s.star == (s.i == |text| && InStar(text, |text|, star, slash))
      && s.slash == (s.i == |text| && InSlash(text, |text|, star, slash))
  {
    assert Marks(text, 0) == {};
    FindsFrom(text, 0, 0, star, slash);
  }

  /** The text is cut into lines where the text says that they end, or where the line buffer is full. */
  lemma LinesEndWhereTheyEnd(text: string, star: bool, slash: bool, e: nat)
    requires text != "" && !(star && slash) && IsLineEnd(text, e, star, slash)
    ensures var i := Min(e, MAX_CMD_LINE - 1);
      Lines(text, star, slash) == [text[..i]] +
        if i == |text| then []
        else Lines(text[i + 1..], e == |text| && InStar(text, e, star, slash), e == |text| && InSlash(text, e, star, slash))
  {
    hide Find, EndsAt, InStar, InSlash;
    FindsLineEnd(text, star, slash);
    FirstLine(text, star, slash);
    NoLines(star, slash);
    var s := Find(text, 0, 0, star, slash);
    OneLineEnd(text, s.i, e, star, slash);
    NoLines(s.star, s.slash);
  }

  /** A line ends at one place only. */
  lemma OneLineEnd(text: string, d: nat, e: nat, star: bool, slash: bool)
    requires IsLineEnd(text, d, star, slash) && IsLineEnd(text, e, star, slash)
    ensures d == e
  {
    hide EndsAt;
  }

  // ---------------------------------------------------------------- waiting

  /** What executing the buffer once does: the lines executed, the text left, and the frames still to wait. */
  datatype Frame = Frame(lines: seq<string>, text: string, wait: nat)

  /** `waits` is what a line sets the number of frames to wait to, if it does. */
  function Run(waits: string -> Option<nat>, text: string, star: bool, slash: bool, wait: nat): (f: Frame)
    ensures |f.text| <= |text| && (text != "" && wait == 0 ==> |f.text| < |text|)
    decreases |text|
  {
    if text == "" then Frame([], text, wait)
    else if wait > 0 then Frame([], text, wait - 1)
    else
      var s := Find(text, 0, 0, star, slash);
      var i := Min(s.i, MAX_CMD_LINE - 1);
      var w := waits(text[..i]);
      var f := Run(waits, if i == |text| then "" else text[i + 1..], s.star, s.slash, if w.Some? then w.value else wait);
      f.(lines := [text[..i]] + f.lines)
  }

  /** The lines executed in all, the buffer being executed once a frame. */
  function Frames(waits: string -> Option<nat>, text: string, wait: nat): seq<string>
    decreases |text|, wait
  {
    if text == "" then []
    else if wait > 0 then Frames(waits, text, wait - 1)
    else
      var f := Run(waits, text, false, false, wait);
      f.lines + Frames(waits, f.text, f.wait)
  }

  /** No line is too long for the line buffer. */
  predicate Short(text: string, star: bool, slash: bool)
    decreases |text|
  {
    text != "" ==>
      var s := Find(text, 0, 0, star, slash);
      s.i < MAX_CMD_LINE && (s.i < |text| ==> Short(text[s.i + 1..], s.star, s.slash))
  }

  /** The first line of a frame, and the rest of the frame. */
  lemma RunStep(waits: string -> Option<nat>, text: string, star: bool, slash: bool, wait: nat)
    ensures text == "" ==> Run(waits, text, star, slash, wait) == Frame([], "", wait)
    ensures text != "" && wait > 0 ==> Run(waits, text, star, slash, wait) == Frame([], text, wait - 1)
    ensures text != "" && wait == 0 ==>
      var s := Find(text, 0, 0, star, slash);
      var i := Min(s.i, MAX_CMD_LINE - 1);
      var w := waits(text[..i]);
      var f := Run(waits, if i == |text| then "" else text[i + 1..], s.star, s.slash, if w.Some? then w.value else 0);
      Run(waits, text, star, slash, wait) == Frame([text[..i]] + f.lines, f.text, f.wait)
  {
    hide Find;
  }

  lemma ShortStep(text: string, star: bool, slash: bool)
    requires Short(text, star, slash) && text != ""
    ensures var s := Find(text, 0, 0, star, slash);
      Min(s.i, MAX_CMD_LINE - 1) == s.i && Short(if s.i == |text| then "" else text[s.i + 1..], s.star, s.slash)
  {
    hide Find;
  }

  lemma ShortAnyway(star: bool, slash: bool)
    ensures Short("", star, slash)
  {}

  /** A line that ends before the text does leaves no comment open. */
  lemma {:induction false} LineClosesComments(text: string, i: nat, quotes: nat, star: bool, slash: bool)
    requires i <= |text| && !(star && slash)
    ensures var s := Find(text, i, quotes, star, slash); s.i < |text| ==> !s.star && !s.slash
    decreases |text| - i
  {
    var s := Find(text, i, quotes, star, slash);
    if i < |text| {
      var q := if text[i] == '"' then quotes + 1 else quotes;
      var pair := q % 2 == 0 && i + 1 < |text|;
      var slash1 := slash || (pair && !star && text[i] == '/' && text[i + 1] == '/');
      var star1 := star || (pair && !(!star && text[i] == '/' && text[i + 1] == '/') && !slash && text[i] == '/' && text[i + 1] == '*');
      if s == Find(text, i + 1, q, star1, slash1) {
        LineClosesComments(text, i + 1, q, star1, slash1);
      }
    }
  }

  /** No wait takes effect while a comment is open. */
  predicate Resumable(waits: string -> Option<nat>, text: string, star: bool, slash: bool, wait: nat)
    decreases |text|, wait
  {
    text != "" ==>
      if wait > 0 then !star && !slash && Resumable(waits, text, false, false, 0)
      else
        var s := Find(text, 0, 0, star, slash);
        var i := Min(s.i, MAX_CMD_LINE - 1);
        var w := waits(text[..i]);
        Resumable(waits, if i == |text| then "" else text[i + 1..], s.star, s.slash, if w.Some? then w.value else 0)
  }

  lemma ResumableStep(waits: string -> Option<nat>, text: string, star: bool, slash: bool, wait: nat)
    requires Resumable(waits, text, star, slash, wait) && text != ""
    ensures wait > 0 ==> !star && !slash && Resumable(waits, text, false, false, wait - 1)
    ensures wait == 0 ==>
      var s := Find(text, 0, 0, star, slash);
      var i := Min(s.i, MAX_CMD_LINE - 1);
      var w := waits(text[..i]);
      Resumable(waits, if i == |text| then "" else text[i + 1..], s.star, s.slash, if w.Some? then w.value else 0)
  {
    hide Find;
  }

  lemma FramesStep(waits: string -> Option<nat>, text: string, wait: nat)
    ensures text == "" ==> Frames(waits, text, wait) == []
    ensures text != "" && wait > 0 ==> Frames(waits, text, wait) == Frames(waits, text, wait - 1)
    ensures text != "" && wait == 0 ==>
      var f := Run(waits, text, false, false, wait); Frames(waits, text, wait) == f.lines + Frames(waits, f.text, f.wait)
  {
    hide Run;
  }

  /** One frame and those after it execute the lines of the text. */
  lemma {:induction false} RunThenFrames(waits: string -> Option<nat>, text: string, star: bool, slash: bool, wait: nat)
    requires Resumable(waits, text, star, slash, wait)
    ensures var f := Run(waits, text, star, slash, wait); f.lines + Frames(waits, f.text, f.wait) == Lines(text, star, slash)
    decreases |text|, wait, 1
  {
    hide Find, Run, Lines, Frames, Resumable;
    RunStep(waits, text, star, slash, wait);
    NoLines(star, slash);
    if text == "" {
      FramesStep(waits, text, wait);
    } else {
      ResumableStep(waits, text, star, slash, wait);
      if wait > 0 {
        FramesExecuteAll(waits, text, wait - 1);
      } else {
        FirstLine(text, star, slash);
        var s := Find(text, 0, 0, star, slash);
        var i := Min(s.i, MAX_CMD_LINE - 1);
        var w := waits(text[..i]);
        var rest := if i == |text| then "" else text[i + 1..];
        var next := if w.Some? then w.value else 0;
        RunThenFrames(waits, rest, s.star, s.slash, next);
        var f := Run(waits, rest, s.star, s.slash, next);
        assert ([text[..i]] + f.lines) + Frames(waits, f.text, f.wait) == [text[..i]] + (f.lines + Frames(waits, f.text, f.wait));
      }
    }
  }

  /** Waiting delays lines and loses none, however often commands ask for it, unless a comment is open. */
  lemma {:induction false} FramesExecuteAll(waits: string -> Option<nat>, text: string, wait: nat)
    requires Resumable(waits, text, false, false, wait)
    ensures Frames(waits, text, wait) == Lines(text, false, false)
    decreases |text|, wait, 2
  {
    hide Find, Run, Lines, Frames, Resumable;
    FramesStep(waits, text, wait);
    NoLines(false, false);
    if text != "" {
      if wait > 0 {
        ResumableStep(waits, text, false, false, wait);
        FramesExecuteAll(waits, text, wait - 1);
      } else {
        RunThenFrames(waits, text, false, false, 0);
      }
    }
  }

  /** If all lines fit the line buffer no comment is open where a line ends. */
  lemma {:induction false} ShortIsResumable(waits: string -> Option<nat>, text: string, star: bool, slash: bool, wait: nat)
    requires Short(text, star, slash) && !(star && slash) && (wait > 0 && text != "" ==> !star && !slash)
    ensures Resumable(waits, text, star, slash, wait)
    decreases |text|, wait
  {
    if text != "" {
      if wait > 0 {
        ShortIsResumable(waits, text, false, false, 0);
      } else {
        hide Find;
        var s := Find(text, 0, 0, star, slash);
        LineClosesComments(text, 0, 0, star, slash);
        ShortStep(text, star, slash);
        if s.i < |text| {
          var w := waits(text[..s.i]);
          ShortIsResumable(waits, text[s.i + 1..], s.star, s.slash, if w.Some? then w.value else 0);
        }
      }
    }
  }

  /** An open comment that nothing closes goes on to the end. */
  lemma {:induction false} FindInComment(text: string, i: nat, quotes: nat)
    requires i <= |text| && forall k :: i <= k < |text| ==> text[k] != '"' && text[k] != '*'
    ensures Find(text, i, quotes, true, false) == Scan(|text|, true, false)
    decreases |text| - i
  {
    if i < |text| {
      assert text[i] != '"' && text[i] != '*';
      FindInComment(text, i + 1, quotes);
    }
  }

  /** A comment opens at the start of the text. */
  lemma FindOpensComment(text: string)
    requires |text| > 2 && text[0] == '/' && text[1] == '*' && text[2] != '/'
    ensures Find(text, 0, 0, false, false) == Find(text, 2, 0, true, false)
  {
    assert Find(text, 1, 0, true, false) == Find(text, 2, 0, true, false);
  }

  /** A comment that is longer than the line buffer, and what a wait after its first part leaves. */
  lemma LongComment(text: string, waits: string -> Option<nat>)
    requires |text| == 8194 && text[0] == '/' && text[1] == '*' && text[8192..] == ";a" && waits(text[..8191]) == Some(1)
    requires forall k :: 2 <= k < |text| ==> text[k] != '"' && text[k] != '*' && text[k] != '/'
    ensures Lines(text, false, false) == [text[..8191], ";a"]
    ensures Frames(waits, text, 0) == [text[..8191]] + Frames(waits, ";a", 0)
  {
    hide Find, Run, Lines, Frames;
    FindOpensComment(text);
    FindInComment(text, 2, 0);
    FindInComment(";a", 0, 0);
    FirstLine(text, false, false);
    FirstLine(";a", true, false);
    NoLines(true, false);
    assert ";a"[..2] == ";a";
    assert [text[..8191]] + [";a"] == [text[..8191], ";a"] && [text[..8191]] + [] == [text[..8191]];
    RunStep(waits, text, false, false, 0);
    RunStep(waits, ";a", true, false, 1);
    FramesStep(waits, text, 0);
  }

  /** A wait after a comment too long for the line buffer: what is left is split as if no comment were open. */
  lemma WaitForgetsComment()
    ensures var text, waits := "/*" + seq(8190, i => 'a') + ";a", (line: string) => Some(1);
      Frames(waits, text, 0) != Lines(text, false, false)
  {
    var text, waits := "/*" + seq(8190, i => 'a') + ";a", (line: string) => Some(1);
    hide Find, Run, Lines, Frames;
    assert text[8192..] == ";a";
    LongComment(text, waits);
    SplitRest(waits, ";a");
    assert Lines(text, false, false)[1] == ";a" && Frames(waits, text, 0)[1] == "";
  }

  lemma SplitRest(waits: string -> Option<nat>, rest: string)
    requires rest == ";a"
    ensures |Frames(waits, rest, 0)| > 0 && Frames(waits, rest, 0)[0] == ""
  {
    assert Find(rest, 0, 0, false, false) == Scan(0, false, false);
    hide Run, Frames;
    RunStep(waits, rest, false, false, 0);
    FramesStep(waits, rest, 0);
  }

  /** What is left of the text, and to be waited, after `k` frames, and the lines executed by then. */
  function After(waits: string -> Option<nat>, text: string, wait: nat, k: nat): Frame
    decreases k
  {
    if k == 0 then Frame([], text, wait)
    else
      var f := Run(waits, text, false, false, wait);
      var g := After(waits, f.text, f.wait, k - 1);
      g.(lines := f.lines + g.lines)
  }

  lemma AfterStep(waits: string -> Option<nat>, text: string, wait: nat, k: nat)
    ensures After(waits, text, wait, 0) == Frame([], text, wait)
    ensures text != "" && wait > 0 && k > 0 ==> After(waits, text, wait, k) == After(waits, text, wait - 1, k - 1)
    ensures text != "" && wait == 0 ==> |After(waits, text, wait, 1).lines| > 0
  {
    hide Run;
    RunStep(waits, text, false, false, wait);
  }

  /** A wait lasts as many frames as it says: nothing is executed in them, and then the next line is. */
  lemma {:induction false} WaitLasts(waits: string -> Option<nat>, text: string, wait: nat, k: nat)
    requires text != "" && k <= wait
    ensures After(waits, text, wait, k) == Frame([], text, wait - k)
    ensures |After(waits, text, wait, wait + 1).lines| > 0
    decreases wait
  {
    hide Run, After;
    AfterStep(waits, text, wait, k);
    AfterStep(waits, text, wait, wait + 1);
    if wait > 0 {
      WaitLasts(waits, text, wait - 1, if k > 0 then k - 1 else 0);
    }
  }

  /** A line that sets the wait counter ends the frame, with one frame of the wait over. */
  lemma WaitEndsFrame(waits: string -> Option<nat>, text: string, star: bool, slash: bool)
    requires text != ""
    ensures var s := Find(text, 0, 0, star, slash);
      var i := Min(s.i, MAX_CMD_LINE - 1);
      var rest := if i == |text| then "" else text[i + 1..];
      waits(text[..i]).Some? && waits(text[..i]).value > 0 && rest != "" ==>
        Run(waits, text, star, slash, 0) == Frame([text[..i]], rest, waits(text[..i]).value - 1)
  {
    hide Find, Run;
    RunStep(waits, text, star, slash, 0);
    var s := Find(text, 0, 0, star, slash);
    var i := Min(s.i, MAX_CMD_LINE - 1);
    var rest := if i == |text| then "" else text[i + 1..];
    RunStep(waits, rest, s.star, s.slash, if waits(text[..i]).Some? then waits(text[..i]).value else 0);
  }

  /** Without a wait one frame executes all lines. */
  lemma {:induction false} RunWithoutWait(waits: string -> Option<nat>, text: string, star: bool, slash: bool)
    requires forall line :: waits(line) == None
    ensures Run(waits, text, star, slash, 0) == Frame(Lines(text, star, slash), "", 0)
    decreases |text|
  {
    hide Find, Run, Lines;
    RunStep(waits, text, star, slash, 0);
    NoLines(star, slash);
    if text != "" {
      FirstLine(text, star, slash);
      var s := Find(text, 0, 0, star, slash);
      var i := Min(s.i, MAX_CMD_LINE - 1);
      RunWithoutWait(waits, if i == |text| then "" else text[i + 1..], s.star, s.slash);
    }
  }

  class CommandBuffer {
    /** What a line sets the number of frames to wait to, if it is a wait command. */
    const waits: string -> Option<nat>
    var text: string
    var wait: nat
    /** The lines handed on for execution, in order. */
    var executed: seq<string>

    constructor (text: string, waits: string -> Option<nat>)
      ensures this.text == text && this.waits == waits && wait == 0 && executed == []
    {
      this.text := text;
      this.waits := waits;
      wait := 0;
      executed := [];
    }

    /** Looks for the end of the first line. */
    method FindBreak(star: bool, slash: bool) returns (i: nat, star': bool, slash': bool)
      requires !(star && slash)
      ensures Scan(i, star', slash') == Find(text, 0, 0, star, slash) && i <= |text|
      ensures IsLineEnd(text, i, star, slash) && !(star' && slash')
    {
      FindsLineEnd(text, star, slash);
      StillOneKind(text, |text|, star, slash);
      hide IsLineEnd, InStar, InSlash;
      var quotes := 0;
      i, star', slash' := 0, star, slash;
      while i < |text|
        invariant i <= |text| && quotes >= 0
        invariant Find(text, i, quotes, star', slash') == Find(text, 0, 0, star, slash)
        decreases |text| - i
      {
        if text[i] == '"' {
          quotes := quotes + 1;
        }
        if quotes % 2 == 0 {
          if i < |text| - 1 {
            if !star' && text[i] == '/' && text[i + 1] == '/' {
              slash' := true;
            } else if !slash' && text[i] == '/' && text[i + 1] == '*' {
              star' := true;
            } else if star' && text[i] == '*' && text[i + 1] == '/' {
              star' := false;
              i := i + 1;
              break;
            }
          }
          if !slash' && !star' && text[i] == ';' {
            break;
          }
        }
        if !star' && (text[i] == '\n' || text[i] == '\r') {
          slash' := false;
          break;
        }
        i := i + 1;
      }
    }

    /** Executes the text line by line, until it is used up or a wait is met. */
    method Execute()
      modifies this
      ensures var f := Run(waits, old(text), false, false, old(wait));
        executed == old(executed) + f.lines && text == f.text && wait == f.wait
    {
      hide Find, Run;
      var star, slash := false, false;
      while text != ""
        invariant var f, g := Run(waits, old(text), false, false, old(wait)), Run(waits, text, star, slash, wait);
          executed + g.lines == old(executed) + f.lines && g.text == f.text && g.wait == f.wait
        invariant !(star && slash)
        decreases |text|
      {
        RunStep(waits, text, star, slash, wait);
        if wait > 0 {
          wait := wait - 1;
          return;
        }
        ghost var done := executed;
        var i, star', slash' := FindBreak(star, slash);
        if i >= MAX_CMD_LINE - 1 {
          i := MAX_CMD_LINE - 1;
        }
        var line := text[..i];
        if i == |text| {
          text := "";
        } else {
          i := i + 1;
          text := text[i..];
        }
        executed := executed + [line];
        var w := waits(line);
        if w.Some? {
          wait := w.value;
        }
        star, slash := star', slash';
        OneLineMore(done, line, Run(waits, text, star, slash, wait).lines);
      }
      RunStep(waits, text, star, slash, wait);
    }
  }

  lemma OneLineMore(done: seq<string>, line: string, rest: seq<string>)
    ensures done + ([line] + rest) == (done + [line]) + rest
  {}

  // ---------------------------------------------------------------- the tokens of a line

  /** Character `i` of a text that ends with a NUL. */
  function At(text: string, i: nat): char {
    if i < |text| then text[i] else '\0'
  }

  function SkipWhite(text: string, i: nat): (j: nat)
    ensures i <= |text| ==> i <= j <= |text|
    ensures j < |text| ==> text[j] == '\0' || text[j] > ' '
    decreases |text| - i
  {
    if i < |text| && text[i] != '\0' && text[i] <= ' ' then SkipWhite(text, i + 1) else i
  }

  /** The end of a comment from `i` on, or the end of the text. */
  function SkipStar(text: string, i: nat): (j: nat)
    ensures i <= |text| ==> i <= j <= |text|
    decreases |text| - i
  {
    if i < |text| && text[i] != '\0' && (text[i] != '*' || At(text, i + 1) != '/') then SkipStar(text, i + 1) else i
  }

  /** The start of the next token, or nothing if there is none. */
  function NextToken(text: string, i: nat): (r: (bool, nat))
    requires i <= |text|
    ensures r.0 ==> i <= r.1 < |text| && text[r.1] > ' ' && !(text[r.1] == '/' && (At(text, r.1 + 1) == '/' || At(text, r.1 + 1) == '*'))
    decreases |text| - i
  {
    var j := SkipWhite(text, i);
    if At(text, j) == '\0' then (false, j)
    else if At(text, j) == '/' && At(text, j + 1) == '/' then (false, j)
    else if At(text, j) == '/' && At(text, j + 1) == '*' then
      var k := SkipStar(text, j);
      if At(text, k) == '\0' || k + 2 > |text| then (false, k) else NextToken(text, k + 2)
    else (true, j)
  }

  /** The end of a quoted token's text, with room for `avail` characters. */
  function QuotedEnd(text: string, i: nat, avail: int): (j: nat)
    ensures i <= |text| ==> i <= j <= |text|
    decreases |text| - i
  {
    if i < |text| && text[i] != '\0' && text[i] != '"' && avail > 1 then QuotedEnd(text, i + 1, avail - 1) else i
  }

  function WordEnd(text: string, i: nat, avail: int, ignoreQuotes: bool): (j: nat)
    ensures i <= |text| ==> i <= j <= |text|
    decreases |text| - i
  {
    if i < |text| && text[i] > ' ' && avail > 1 && !(!ignoreQuotes && text[i] == '"')
       && !(text[i] == '/' && At(text, i + 1) == '/') && !(text[i] == '/' && At(text, i + 1) == '*')
    then WordEnd(text, i + 1, avail - 1, ignoreQuotes) else i
  }

  /** The tokens from character `i` on, `argc` tokens having been found and `avail` bytes being left for their text. */
  function Tokens(text: string, i: nat, ignoreQuotes: bool, argc: nat, avail: int): seq<string>
    requires i <= |text|
    decreases |text| - i
  {
    if argc == MAX_STRING_TOKENS then []
    else
      var start := NextToken(text, i);
      if !start.0 then []
      else
        var j := start.1;
        if !ignoreQuotes && text[j] == '"' then
          var k := QuotedEnd(text, j + 1, avail);
          var left := avail - (k - (j + 1)) - 1;
          if left < 2 then []
          else [text[j + 1..k]] + if At(text, k) == '\0' then [] else Tokens(text, k + 1, ignoreQuotes, argc + 1, left)
        else
          var k := WordEnd(text, j, avail, ignoreQuotes);
          var left := avail - (k - j) - 1;
          if left < 2 then []
          else [text[j..k]] + if At(text, k) == '\0' then [] else Tokens(text, k, ignoreQuotes, argc + 1, left)
  }

  // ---------------------------------------------------------------- where tokens begin and end, by the text

  /** A comment stretches from `a` to `b`: its first star and slash are its last two characters. */
  ghost predicate CommentAt(text: string, a: nat, b: nat) {
    && a + 2 < b <= |text| && text[a] == '/' && text[a + 1] == '*' && text[b - 2] == '*' && text[b - 1] == '/'
    && forall c :: a <= c < b - 2 ==> text[c] != '\0' && !(text[c] == '*' && text[c + 1] == '/')
  }

  /** All from `i` to `j` is blank or inside comments. */
  ghost predicate NoText(text: string, i: nat, j: nat) {
    forall m: nat :: i <= m < j && m < |text| ==>
      (text[m] != '\0' && text[m] <= ' ') || exists a: nat, b: nat :: i <= a <= m < b <= j && CommentAt(text, a, b)
  }

  /** A comment that nothing ends. */
  ghost predicate OpenComment(text: string, a: nat) {
    && At(text, a) == '/' && At(text, a + 1) == '*'
    && forall c :: a <= c < |text| && (forall d :: a <= d < c ==> text[d] != '\0') ==> !(text[c] == '*' && At(text, c + 1) == '/')
  }

  /** Character `j` begins a comment of either kind. */
  predicate CommentMark(text: string, j: nat) {
    At(text, j) == '/' && (At(text, j + 1) == '/' || At(text, j + 1) == '*')
  }

  lemma {:induction false} SkippedWhite(text: string, i: nat)
    requires i <= |text|
    ensures var j := SkipWhite(text, i);
      forall m :: i <= m < j ==> text[m] != '\0' && text[m] <= ' '
    decreases |text| - i
  {
    if i < |text| && text[i] != '\0' && text[i] <= ' ' {
      SkippedWhite(text, i + 1);
    }
  }

  lemma {:induction false} SkippedStar(text: string, i: nat)
    requires i <= |text|
    ensures var k := SkipStar(text, i);
      && (At(text, k) != '\0' ==> text[k] == '*' && At(text, k + 1) == '/')
      && forall c :: i <= c < k ==> text[c] != '\0' && !(text[c] == '*' && At(text, c + 1) == '/')
    decreases |text| - i
  {
    if i < |text| && text[i] != '\0' && (text[i] != '*' || At(text, i + 1) != '/') {
      SkippedStar(text, i + 1);
    }
  }

  /** What the search for a token meets first. */
  lemma NextTokenStep(text: string, i: nat)
    requires i <= |text|
    ensures var j, r := SkipWhite(text, i), NextToken(text, i);
      && i <= j <= |text|
      && (!(At(text, j) == '/' && At(text, j + 1) == '*') ==> r == (At(text, j) != '\0' && !CommentMark(text, j), j))
      && (At(text, j) == '/' && At(text, j + 1) == '*' ==>
            var k := SkipStar(text, j); j <= k <= |text| && r == if At(text, k) == '\0' || k + 2 > |text| then (false, k) else NextToken(text, k + 2))
  {
    hide SkipWhite, SkipStar;
  }

  /** There is no token from `i` on: the text ends, or a comment goes on to its end. */
  ghost predicate NoTokenFrom(text: string, i: nat) {
    exists j: nat :: i <= j && NoText(text, i, j) && Stop(text, j)
  }

  ghost predicate Stop(text: string, j: nat) {
    At(text, j) == '\0' || (CommentMark(text, j) && (At(text, j + 1) == '/' || OpenComment(text, j)))
  }

  ghost predicate TokenAt(text: string, i: nat, j: nat) {
    i <= j < |text| && NoText(text, i, j) && text[j] > ' ' && !CommentMark(text, j)
  }

  /**
   A token begins at the first visible character that is in no comment; there is none if the text ends
   before, or a comment that goes on to its end comes first.
   */
  lemma {:induction false} TokenBegins(text: string, i: nat)
    requires i <= |text|
    ensures NextToken(text, i).0 ==> TokenAt(text, i, NextToken(text, i).1)
    ensures !NextToken(text, i).0 ==> NoTokenFrom(text, i)
    decreases |text| - i
  {
    hide NextToken, SkipWhite, SkipStar, CommentAt, OpenComment, NoText, Stop;
    NextTokenStep(text, i);
    BlanksSkipped(text, i);
    var j := SkipWhite(text, i);
    if At(text, j) == '/' && At(text, j + 1) == '*' {
      var k := SkipStar(text, j);
      CommentSkipped(text, j);
      if !(At(text, k) == '\0' || k + 2 > |text|) {
        TokenBegins(text, k + 2);
        NoTextJoins(text, i, j, k + 2);
      }
    }
  }

  lemma BlanksSkipped(text: string, i: nat)
    requires i <= |text|
    ensures var j := SkipWhite(text, i);
      && NoText(text, i, j) && (j < |text| ==> text[j] == '\0' || text[j] > ' ')
      && (At(text, j) == '\0' || (CommentMark(text, j) && At(text, j + 1) == '/') ==> Stop(text, j))
  {
    SkippedWhite(text, i);
  }

  lemma CommentSkipped(text: string, j: nat)
    requires j <= |text| && At(text, j) == '/' && At(text, j + 1) == '*'
    ensures var k := SkipStar(text, j);
      j <= k <= |text| && if At(text, k) == '\0' || k + 2 > |text| then Stop(text, j) else CommentAt(text, j, k + 2)
  {
    SkippedStar(text, j);
  }

  /** Blanks, a comment, and whatever without text follows. */
  lemma NoTextJoins(text: string, i: nat, a: nat, b: nat)
    requires i <= a < b && NoText(text, i, a) && CommentAt(text, a, b)
    ensures forall j: nat :: b <= j && NoText(text, b, j) ==> NoText(text, i, j)
  {
    hide CommentAt;
  }

  /** A word goes on to the first character that is not visible, a quotation mark, or a comment, as far as there is room. */
  ghost predicate InWord(text: string, m: nat, ignoreQuotes: bool)
    requires m < |text|
  {
    text[m] > ' ' && (ignoreQuotes || text[m] != '"') && !CommentMark(text, m)
  }

  lemma {:induction false} WordEnds(text: string, j: nat, avail: int, ignoreQuotes: bool)
    requires j <= |text|
    ensures var k := WordEnd(text, j, avail, ignoreQuotes);
      && (forall m :: j <= m < k ==> InWord(text, m, ignoreQuotes)) && (k > j ==> k - j < avail)
      && (k == |text| || !InWord(text, k, ignoreQuotes) || k - j + 1 >= avail)
    decreases |text| - j
  {
    if j < |text| && InWord(text, j, ignoreQuotes) && avail > 1 {
      WordEnds(text, j + 1, avail - 1, ignoreQuotes);
    }
  }

  /** A quoted token goes on to the next quotation mark, as far as there is room. */
  lemma {:induction false} QuotedEnds(text: string, j: nat, avail: int)
    requires j <= |text|
    ensures var k := QuotedEnd(text, j, avail);
      && (forall m :: j <= m < k ==> text[m] != '\0' && text[m] != '"') && (k > j ==> k - j < avail)
      && (At(text, k) == '\0' || text[k] == '"' || k - j + 1 >= avail)
    decreases |text| - j
  {
    if j < |text| && text[j] != '\0' && text[j] != '"' && avail > 1 {
      QuotedEnds(text, j + 1, avail - 1);
    }
  }

  lemma NoToken(text: string, i: nat, ignoreQuotes: bool, argc: nat, avail: int)
    requires i <= |text| && (argc == MAX_STRING_TOKENS || !NextToken(text, i).0)
    ensures Tokens(text, i, ignoreQuotes, argc, avail) == []
  {}

  lemma QuotedToken(text: string, i: nat, argc: nat, avail: int)
    requires i <= |text| && argc != MAX_STRING_TOKENS && NextToken(text, i).0 && text[NextToken(text, i).1] == '"'
    ensures var j := NextToken(text, i).1;
      var k := QuotedEnd(text, j + 1, avail);
      var left := avail - (k - (j + 1)) - 1;
      j + 1 <= k <= |text| && Tokens(text, i, false, argc, avail) ==
        if left < 2 then [] else [text[j + 1..k]] + if At(text, k) == '\0' then [] else Tokens(text, k + 1, false, argc + 1, left)
  {
    hide NextToken, SkipWhite, SkipStar, WordEnd, QuotedEnd;
    assert |text| >= NextToken(text, i).1 + 1;
  }

  lemma WordToken(text: string, i: nat, ignoreQuotes: bool, argc: nat, avail: int)
    requires i <= |text| && argc != MAX_STRING_TOKENS && NextToken(text, i).0 && (ignoreQuotes || text[NextToken(text, i).1] != '"')
    ensures var j := NextToken(text, i).1;
      var k := WordEnd(text, j, avail, ignoreQuotes);
      var left := avail - (k - j) - 1;
      j <= k <= |text| && (left >= 2 ==> k > j) && Tokens(text, i, ignoreQuotes, argc, avail) ==
        if left < 2 then [] else [text[j..k]] + if At(text, k) == '\0' then [] else Tokens(text, k, ignoreQuotes, argc + 1, left)
  {
    hide NextToken, SkipWhite, SkipStar;
    WordAdvances(text, NextToken(text, i).1, avail, ignoreQuotes);
  }

  /** A word that starts at a visible character has text if there is room for it. */
  lemma WordAdvances(text: string, j: nat, avail: int, ignoreQuotes: bool)
    requires j < |text| && text[j] > ' ' && (ignoreQuotes || text[j] != '"')
    requires !(text[j] == '/' && (At(text, j + 1) == '/' || At(text, j + 1) == '*'))
    ensures avail > 1 ==> WordEnd(text, j, avail, ignoreQuotes) > j
  {}

  class Tokenizer {
    /** The tokens found so far, and the bytes left for their text. */
    var argv: seq<string>
    var availableBuf: int

    constructor (availableBuf: int)
      ensures argv == [] && this.availableBuf == availableBuf
    {
      argv := [];
      this.availableBuf := availableBuf;
    }

    /** Splits a line into tokens. */
    method TokenizeString(text: string, ignoreQuotes: bool)
      requires |argv| <= MAX_STRING_TOKENS
      modifies this
      ensures argv == old(argv) + Tokens(text, 0, ignoreQuotes, old(|argv|), old(availableBuf)) && |argv| <= MAX_STRING_TOKENS
    {
      hide NextToken, QuotedEnd, WordEnd, Tokens, SkipWhite, SkipStar;
      var i: nat := 0;
      while true
        invariant i <= |text| && |argv| <= MAX_STRING_TOKENS
        invariant argv + Tokens(text, i, ignoreQuotes, |argv|, availableBuf) ==
                  old(argv) + Tokens(text, 0, ignoreQuotes, old(|argv|), old(availableBuf))
        decreases |text| - i, MAX_STRING_TOKENS - |argv|
      {
        if |argv| == MAX_STRING_TOKENS {
          NoToken(text, i, ignoreQuotes, |argv|, availableBuf);
          return;
        }
        var found, j := SkipBlank(text, i);
        if !found {
          NoToken(text, i, ignoreQuotes, |argv|, availableBuf);
          return;
        }
        var more;
        more, i := TakeToken(text, i, j, ignoreQuotes);
        if !more {
          return;
        }
      }
    }

    /** Takes the token that starts at `j`; tells whether there may be more, and where. */
    method TakeToken(text: string, i: nat, j: nat, ignoreQuotes: bool) returns (more: bool, next: nat)
      requires i <= |text| && NextToken(text, i) == (true, j) && |argv| < MAX_STRING_TOKENS
      modifies this
      ensures more ==> i <= next <= |text| && |argv| == old(|argv|) + 1
      ensures |argv| <= MAX_STRING_TOKENS
      ensures argv + (if more then Tokens(text, next, ignoreQuotes, |argv|, availableBuf) else []) ==
              old(argv) + Tokens(text, i, ignoreQuotes, old(|argv|), old(availableBuf))
    {
      hide NextToken, QuotedEnd, WordEnd, Tokens, SkipWhite, SkipStar;
      var token;
      if !ignoreQuotes && text[j] == '"' {
        QuotedToken(text, i, |argv|, availableBuf);
        token, next := Quoted(text, j + 1);
      } else {
        WordToken(text, i, ignoreQuotes, |argv|, availableBuf);
        token, next := Word(text, j, ignoreQuotes);
      }
      if availableBuf < 2 {
        return false, next;
      }
      argv := argv + [token];
      if At(text, next) == '\0' {
        return false, next;
      }
      if !ignoreQuotes && text[j] == '"' {
        next := next + 1;
      }
      return true, next;
    }

    /** Skips blanks and comments. */
    method SkipBlank(text: string, start: nat) returns (found: bool, i: nat)
      requires start <= |text|
      ensures (found, i) == NextToken(text, start)
    {
      i := start;
      while true
        invariant i <= |text| && NextToken(text, i) == NextToken(text, start)
        decreases |text| - i
      {
        ghost var i0 := i;
        while At(text, i) != '\0' && At(text, i) <= ' '
          invariant i0 <= i <= |text| && SkipWhite(text, i) == SkipWhite(text, i0)
          decreases |text| - i
        {
          i := i + 1;
        }
        if At(text, i) == '\0' {
          return false, i;
        }
        if At(text, i) == '/' && At(text, i + 1) == '/' {
          return false, i;
        }
        if At(text, i) == '/' && At(text, i + 1) == '*' {
          ghost var i1 := i;
          while At(text, i) != '\0' && (At(text, i) != '*' || At(text, i + 1) != '/')
            invariant i1 <= i <= |text| && SkipStar(text, i) == SkipStar(text, i1)
            decreases |text| - i
          {
            i := i + 1;
          }
          if At(text, i) == '\0' {
            return false, i;
          }
          i := i + 2;
        } else {
          return true, i;
        }
      }
    }

    /** Copies the text of a quoted token. */
    method Quoted(text: string, start: nat) returns (token: string, i: nat)
      requires start <= |text|
      modifies this`availableBuf
      ensures i == QuotedEnd(text, start, old(availableBuf)) && start <= i <= |text| && token == text[start..i]
      ensures availableBuf == old(availableBuf) - (i - start) - 1
    {
      i, token := start, "";
      while At(text, i) != '\0' && At(text, i) != '"' && availableBuf > 1
        invariant start <= i <= |text| && token == text[start..i] && availableBuf == old(availableBuf) - (i - start)
        invariant QuotedEnd(text, i, availableBuf) == QuotedEnd(text, start, old(availableBuf))
        decreases |text| - i
      {
        token := token + [text[i]];
        i := i + 1;
        availableBuf := availableBuf - 1;
      }
      availableBuf := availableBuf - 1;
    }

    /** Copies the text of a token that is not quoted. */
    method Word(text: string, start: nat, ignoreQuotes: bool) returns (token: string, i: nat)
      requires start <= |text|
      modifies this`availableBuf
      ensures i == WordEnd(text, start, old(availableBuf), ignoreQuotes) && start <= i <= |text| && token == text[start..i]
      ensures availableBuf == old(availableBuf) - (i - start) - 1
    {
      i, token := start, "";
      while At(text, i) > ' ' && availableBuf > 1
        invariant start <= i <= |text| && token == text[start..i] && availableBuf == old(availableBuf) - (i - start)
        invariant WordEnd(text, i, availableBuf, ignoreQuotes) == WordEnd(text, start, old(availableBuf), ignoreQuotes)
        decreases |text| - i
      {
        if !ignoreQuotes && At(text, i) == '"' {
          break;
        }
        if At(text, i) == '/' && At(text, i + 1) == '/' {
          break;
        }
        if At(text, i) == '/' && At(text, i + 1) == '*' {
          break;
        }
        token := token + [text[i]];
        i := i + 1;
        availableBuf := availableBuf - 1;
      }
      availableBuf := availableBuf - 1;
    }
  }
}
