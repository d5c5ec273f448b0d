/** RemoveComments (main.go): strip block comments, then cut every line at its
    last line-comment marker, trim it, and drop the lines that end up empty. */
module Comments {
  import opened GoStrings
  import opened GoStringFacts
  import opened Outcome

  /** The test that guards the block-comment loop: both markers occur. */
  predicate HasBothMarkers(s: string) {
    Contains(s, "/*") && Contains(s, "*/")
  }

  /** One round of the block-comment loop: cut from the first opening marker to
      two past the first closing marker of the WHOLE text, which may lie before
      the opening one. */
  function BlockStep(s: string): string
    requires Contains(s, "/*")
  {
    s[..Index(s, "/*")] + s[Index(s, "*/") + 2..]
  }

  /** The round makes the text shorter: the rounds in which the loop makes
      progress. */
  predicate Shrinks(s: string)
    requires Contains(s, "/*")
  {
    Index(s, "*/") + 2 > Index(s, "/*")
  }

  /** The block-comment loop, run until no opening marker is left. It fails with
      MalformedComment at the first round that would not shorten the text:
      from such a round on, the loop of the source never ends
      (SourceLoopDiverges). */
  function StripBlocks(s: string): Result<string>
    decreases |s|
  {
    if !Contains(s, "/*") then Ok(s)
    else if !Shrinks(s) then Err(MalformedComment)
    else StripBlocks(BlockStep(s))
  }

  /** The block-comment stage: the loop runs only when both markers occur. */
  function BlockStage(s: string): (r: Result<string>)
    ensures !Contains(s, "/*") ==> r == Ok(s)
  {
    if HasBothMarkers(s) then StripBlocks(s) else Ok(s)
  }

  /** One line of the line pass: trimmed, cut at the last "//", trimmed again. */
  function CleanLine(line: string): string {
    var t := TrimSpace(line);
    if Contains(t, "//") then TrimSpace(t[..LastIndex(t, "//")]) else t
  }

  /** The line pass: the cleaned lines that are not empty, in order. */
  function CleanLines(lines: seq<string>): seq<string> {
    if lines == [] then []
    else
      var kept := CleanLines(lines[..|lines| - 1]);
      var t := CleanLine(lines[|lines| - 1]);
      if t == [] then kept else kept + [t]
  }

  /** What RemoveComments computes, or the error that replaces the source's
      endless loop. */
  function StripComments(content: string): Result<string> {
    match BlockStage(content)
    case Err(e) => Err(e)
    case Ok(t) => Ok(Join(CleanLines(Split(t, '\n')), '\n'))
  }

  /** The first loop of RemoveComments: the block-comment rounds, with the
      text reassigned each time. */
  method RemoveBlockComments(content: string) returns (r: Result<string>)
    ensures r == BlockStage(content)
  {
    var text := content;
    if Contains(text, "/*") && Contains(text, "*/") {
      var open := Index(text, "/*");
      while open >= 0
        invariant open == Index(text, "/*")
        invariant StripBlocks(text) == StripBlocks(content)
        decreases |text|
      {
        var close := Index(text, "*/");
        if close + 2 <= open {
          return Err(MalformedComment);
        }
        text := text[..open] + text[close + 2..];
        open := Index(text, "/*");
      }
    }
    r := Ok(text);
  }

  /** RemoveComments: the block-comment rounds, then the loop over the lines
      that collects the cleaned, non-empty ones. */
  method RemoveComments(content: string) returns (r: Result<string>)
    ensures r == StripComments(content)
  {
    var stage := RemoveBlockComments(content);
    if stage.Err? {
      return Err(stage.error);
    }
    var text := stage.value;
    var lines := Split(text, '\n');
    var res: seq<string> := [];
    for i := 0 to |lines|
      invariant res == CleanLines(lines[..i])
    {
      CleanLinesStep(lines, i);
      var trimmed := TrimSpace(lines[i]);
      if Contains(trimmed, "//") {
        LastIndexFound(trimmed, "//");
        trimmed := TrimSpace(trimmed[..LastIndex(trimmed, "//")]);
      }
      assert trimmed == CleanLine(lines[i]);
      if trimmed == [] {
        continue;
      }
      res := res + [trimmed];
    }
    assert lines[..|lines|] == lines;
    r := Ok(Join(res, '\n'));
  }

  lemma CleanLinesStep(lines: seq<string>, i: nat)
    requires i < |lines|
    ensures CleanLines(lines[..i + 1]) ==
      if CleanLine(lines[i]) == [] then CleanLines(lines[..i]) else CleanLines(lines[..i]) + [CleanLine(lines[i])]
  {
    assert lines[..i + 1][..i] == lines[..i];
  }

  lemma LastIndexFound(s: string, pat: string)
    requires Contains(s, pat)
    ensures LastIndex(s, pat) >= 0
  {
  }

  /** Every line the line pass keeps is non-empty, its own trim, and holds no
      character its input lines did not; it keeps at most as many lines. */
  lemma {:induction false} CleanLinesShape(lines: seq<string>)
    requires forall i :: 0 <= i < |lines| ==> '\n' !in lines[i]
    ensures |CleanLines(lines)| <= |lines|
    ensures forall i :: 0 <= i < |CleanLines(lines)| ==> CleanLineOk(CleanLines(lines)[i])
  {
    if lines != [] {
      var front := lines[..|lines| - 1];
      CleanLinesShape(front);
      CleanLineShape(lines[|lines| - 1]);
    }
  }

  /** A kept line: non-empty, its own trim, no newline inside. */
  predicate CleanLineOk(t: string) {
    t != [] && TrimSpace(t) == t && '\n' !in t
  }

  lemma CleanLineShape(line: string)
    requires '\n' !in line
    ensures CleanLine(line) == [] || CleanLineOk(CleanLine(line))
  {
    var t := TrimSpace(line);
    TrimmedOk(line);
    if Contains(t, "//") {
      CutOk(t);
      TrimmedOk(t[..LastIndex(t, "//")]);
    }
  }

  /** Cutting a line at its last marker keeps it free of newlines. */
  lemma CutOk(t: string)
    requires '\n' !in t && Contains(t, "//")
    ensures 0 <= LastIndex(t, "//") <= |t| && '\n' !in t[..LastIndex(t, "//")]
  {
    var k := LastIndex(t, "//");
    SliceChars(t, 0, k);
  }

  /** A trimmed piece of a line is empty or clean. */
  lemma TrimmedOk(x: string)
    requires '\n' !in x
    ensures TrimSpace(x) == [] || CleanLineOk(TrimSpace(x))
  {
  }

  /** A round that shortens the text deletes one span, so it adds no newline. */
  lemma BlockStepNewlines(s: string)
    requires Contains(s, "/*") && Shrinks(s)
    ensures |BlockStep(s)| < |s|
    ensures Count(BlockStep(s), '\n') <= Count(s, '\n')
  {
    CountDelete(s, Index(s, "/*"), Index(s, "*/") + 2, '\n');
  }

  /** When the block loop succeeds, no opening marker is left and no newline was added. */
  lemma {:induction false} StripBlocksOk(s: string)
    requires StripBlocks(s).Ok?
    ensures !Contains(StripBlocks(s).value, "/*")
    ensures Count(StripBlocks(s).value, '\n') <= Count(s, '\n')
  {
    if Contains(s, "/*") {
      BlockStepNewlines(s);
      StripBlocksOk(BlockStep(s));
    }
  }

  /** With both markers present and the loop succeeding, no opening marker remains after
      the block-comment stage. */
  lemma BlockStageClearsOpeners(content: string)
    requires HasBothMarkers(content)
    requires BlockStage(content).Ok?
    ensures !Contains(BlockStage(content).value, "/*")
  {
    StripBlocksOk(content);
  }

  /** Text with properly paired block comments: gaps[0], then for each i an
      opening marker, bodies[i], a closing marker and gaps[i + 1]. */
  function Commented(gaps: seq<string>, bodies: seq<string>): string
    requires |gaps| == |bodies| + 1
    decreases |bodies|
  {
    if bodies == [] then gaps[0]
    else gaps[0] + "/*" + bodies[0] + "*/" + Commented(gaps[1..], bodies[1..])
  }

  /** The pieces of a commented text are paired the way the loop reads them:
      no '*' in the gaps or the comment bodies, and no body starting with '/'
      (an opening marker followed by '/' is also a closing marker, since the
      source searches for the closer from the start of the text). */
  predicate ProperlyPaired(gaps: seq<string>, bodies: seq<string>) {
    && |gaps| == |bodies| + 1
    && (forall i :: 0 <= i < |gaps| ==> '*' !in gaps[i])
    && (forall i :: 0 <= i < |bodies| ==> '*' !in bodies[i] && (bodies[i] == [] || bodies[i][0] != '/'))
  }

  /** The text outside the comments. */
  function Concat(xs: seq<string>): string {
    if xs == [] then [] else xs[0] + Concat(xs[1..])
  }

  /** Properly paired comments are all removed, and nothing else is: the block
      stage succeeds with exactly the gaps, in order. */
  lemma BlockStagePaired(gaps: seq<string>, bodies: seq<string>)
    requires ProperlyPaired(gaps, bodies)
    ensures BlockStage(Commented(gaps, bodies)) == Ok(Concat(gaps))
  {
    var s := Commented(gaps, bodies);
    StripPaired([], gaps, bodies);
    assert [] + s == s;
    assert [] + Concat(gaps) == Concat(gaps);
    if bodies != [] {
      BothMarkers(gaps[0], bodies[0], Commented(gaps[1..], bodies[1..]));
    }
  }

  /** A text holding a whole comment holds both markers. */
  lemma BothMarkers(a: string, c: string, rest: string)
    ensures HasBothMarkers(a + "/*" + c + "*/" + rest)
  {
    var s := a + "/*" + c + "*/" + rest;
    var n, m := |a|, |a| + 2 + |c|;
    assert s[n] == '/' && s[n + 1] == '*' && s[m] == '*' && s[m + 1] == '/';
    OccursAt2(s, "/*", n);
    OccursAt2(s, "*/", m);
  }

  /** StripBlocks after a star-free prefix, one comment at a time. */
  lemma {:induction false} StripPaired(pre: string, gaps: seq<string>, bodies: seq<string>)
    requires '*' !in pre && ProperlyPaired(gaps, bodies)
    ensures StripBlocks(pre + Commented(gaps, bodies)) == Ok(pre + Concat(gaps))
    decreases |bodies|
  {
    if bodies == [] {
      NoStarClean(pre, gaps);
    } else {
      var a := pre + gaps[0];
      var rest := Commented(gaps[1..], bodies[1..]);
      FirstGap(pre, gaps, bodies);
      FirstCommentText(pre, gaps, bodies);
      PairedTail(gaps, bodies);
      PairStep(a, bodies[0], rest);
      StripPaired(a, gaps[1..], bodies[1..]);
    }
  }

  /** The first gap and body of a paired text satisfy PairStep. */
  lemma FirstGap(pre: string, gaps: seq<string>, bodies: seq<string>)
    requires '*' !in pre && ProperlyPaired(gaps, bodies) && bodies != []
    ensures '*' !in pre + gaps[0] && '*' !in bodies[0] && (bodies[0] == [] || bodies[0][0] != '/')
  {
  }

  /** The first comment of a commented text, with its gap moved into the prefix. */
  lemma FirstCommentText(pre: string, gaps: seq<string>, bodies: seq<string>)
    requires |gaps| == |bodies| + 1 && bodies != []
    ensures pre + Commented(gaps, bodies)
      == pre + gaps[0] + "/*" + bodies[0] + "*/" + Commented(gaps[1..], bodies[1..])
    ensures pre + Concat(gaps) == pre + gaps[0] + Concat(gaps[1..])
  {
  }

  /** With no comment left, the star-free text is kept. */
  lemma NoStarClean(pre: string, gaps: seq<string>)
    requires |gaps| == 1 && '*' !in pre + gaps[0]
    ensures StripBlocks(pre + Commented(gaps, [])) == Ok(pre + Concat(gaps))
  {
    var t := pre + gaps[0];
    assert Commented(gaps, []) == gaps[0];
    assert Concat(gaps[1..]) == [];
    assert Concat(gaps) == gaps[0];
    NoStarNoOpener(t);
    IndexNone(t, "/*");
    assert StripBlocks(t) == Ok(t);
  }

  /** The pieces after the first comment are properly paired too. */
  lemma PairedTail(gaps: seq<string>, bodies: seq<string>)
    requires ProperlyPaired(gaps, bodies) && bodies != []
    ensures ProperlyPaired(gaps[1..], bodies[1..])
  {
    forall i | 0 <= i < |gaps| - 1 ensures '*' !in gaps[1..][i] {
      assert gaps[1..][i] == gaps[i + 1];
    }
    forall i | 0 <= i < |bodies| - 1
      ensures '*' !in bodies[1..][i] && (bodies[1..][i] == [] || bodies[1..][i][0] != '/')
    {
      assert bodies[1..][i] == bodies[i + 1];
    }
  }

  /** One round on a star-free prefix followed by a comment removes exactly
      that comment. */
  lemma PairStep(a: string, c: string, rest: string)
    requires '*' !in a && '*' !in c && (c == [] || c[0] != '/')
    ensures StripBlocks(a + "/*" + c + "*/" + rest) == StripBlocks(a + rest)
  {
    var s := a + "/*" + c + "*/" + rest;
    var n, m := |a|, |a| + 2 + |c|;
    assert forall i :: 0 <= i < n ==> s[i] == a[i];
    assert forall i :: 0 <= i < |c| ==> s[n + 2 + i] == c[i];
    assert s[n] == '/' && s[n + 1] == '*' && s[m] == '*' && s[m + 1] == '/';
    forall j | 0 <= j < n ensures !OccursAt(s, "/*", j) {
      OccursAt2(s, "/*", j);
    }
    OccursAt2(s, "/*", n);
    IndexIs(s, "/*", n);
    forall j | 0 <= j < m ensures !OccursAt(s, "*/", j) {
      OccursAt2(s, "*/", j);
      if j == n + 1 && c != [] {
        assert s[j + 1] == c[0];
      }
    }
    OccursAt2(s, "*/", m);
    IndexIs(s, "*/", m);
    assert s[..n] + s[m + 2..] == a + rest;
  }

  /** An opening marker followed by '/' closes at once: the opener's star starts
      the first closer, so the rest of the intended comment stays in the text. */
  lemma SlashStarSlash(s: string, t: string)
    requires s == "/*/ x */" && t == " x */"
    ensures BlockStage(s) == Ok(t)
  {
    OccursAt2(s, "/*", 0);
    IndexIs(s, "/*", 0);
    OccursAt2(s, "*/", 0);
    OccursAt2(s, "*/", 1);
    IndexIs(s, "*/", 1);
    assert BlockStep(s) == t;
    forall j ensures !OccursAt(t, "/*", j) {
      OccursAt2(t, "/*", j);
    }
    IndexNone(t, "/*");
    assert StripBlocks(t) == Ok(t);
    assert HasBothMarkers(s) && Shrinks(s);
  }

  /** The lines of RemoveComments' output are non-empty and trimmed, and there
      are no more of them than the input has lines. */
  lemma StripCommentsLines(content: string)
    requires StripComments(content).Ok?
    ensures var out := StripComments(content).value;
      && (out == [] || forall i :: 0 <= i < |Split(out, '\n')| ==>
            Split(out, '\n')[i] != [] && TrimSpace(Split(out, '\n')[i]) == Split(out, '\n')[i])
      && |Split(out, '\n')| <= |Split(content, '\n')|
  {
    var t := BlockStage(content).value;
    if HasBothMarkers(content) {
      StripBlocksOk(content);
    }
    assert Count(t, '\n') <= Count(content, '\n');
    var lines := Split(t, '\n');
    var kept := CleanLines(lines);
    CleanLinesShape(lines);
    SplitCount(t, '\n');
    SplitCount(content, '\n');
    if kept != [] {
      SplitJoin(kept, '\n');
    }
  }

  /** The source's loop run for at most `n` rounds: it stops once no opening marker
      is left. */
  function Iterate(s: string, n: nat): string
    decreases n
  {
    if n == 0 || !Contains(s, "/*") then s else Iterate(BlockStep(s), n - 1)
  }

  /** When StripBlocks succeeds, the source's loop stops with the same text. */
  lemma {:induction false} StripBlocksMatchesLoop(s: string, n: nat)
    requires StripBlocks(s).Ok?
    requires n >= |s|
    ensures Iterate(s, n) == StripBlocks(s).value
    ensures !Contains(Iterate(s, n), "/*")
  {
    StripBlocksOk(s);
    if Contains(s, "/*") {
      OccursAt2(s, "/*", Index(s, "/*"));
      BlockStepNewlines(s);
      StripBlocksMatchesLoop(BlockStep(s), n - 1);
    }
  }

  /** A round that does not shorten the text is followed by another such
      round, and an opening marker stays in the text. */
  lemma StallPersists(s: string)
    requires Contains(s, "/*") && !Shrinks(s)
    ensures Contains(BlockStep(s), "/*") && !Shrinks(BlockStep(s))
  {
    var o := Index(s, "/*");
    var c := Index(s, "*/");
    var t := BlockStep(s);
    OccursAt2(s, "/*", o);
    if c + 2 == o {
      assert t == s[..o] + s[o..] == s;
    } else if c >= 0 {
      // the kept prefix still holds the same first closing marker
      assert t[..o] == s[..o];
      OccursAt2(s, "*/", c);
      OccursAt2(t, "*/", c);
      forall j | 0 <= j < c ensures !OccursAt(t, "*/", j) {
        OccursAt2(s, "*/", j);
        OccursAt2(t, "*/", j);
      }
      IndexIs(t, "*/", c);
      // the old opening marker reappears in the copied tail
      var p := o + (o - c - 2);
      assert t[p] == s[o] && t[p + 1] == s[o + 1];
      OccursAt2(t, "/*", p);
      forall j | 0 <= j < c + 2 ensures !OccursAt(t, "/*", j) {
        OccursAt2(s, "/*", j);
        OccursAt2(t, "/*", j);
      }
    } else {
      // no closing marker at all: the text becomes s[..o] + s[1..] with o >= 2
      assert t[..o] == s[..o];
      forall j ensures !OccursAt(t, "*/", j) {
        OccursAt2(t, "*/", j);
        if 0 <= j && j + 2 <= |t| {
          if j + 2 <= o {
            OccursAt2(s, "*/", j);
          } else if j >= o {
            assert t[j] == s[j - o + 1] && t[j + 1] == s[j - o + 2];
            OccursAt2(s, "*/", j - o + 1);
          } else {
            OccursAt2(s, "*/", o - 1);
          }
        }
      }
      IndexNone(t, "*/");
      var p := o + o - 1;
      assert t[p] == s[o] && t[p + 1] == s[o + 1];
      OccursAt2(t, "/*", p);
      OccursAt2(s, "/*", 0);
      OccursAt2(t, "/*", 0);
    }
  }

  /** Once StripBlocks fails, the source's loop never finds the text free of
      the opener, however many rounds it runs. */
  lemma {:induction false} SourceLoopDiverges(s: string, n: nat)
    requires StripBlocks(s).Err?
    ensures Contains(Iterate(s, n), "/*")
  {
    if n > 0 {
      if Shrinks(s) {
        SourceLoopDiverges(BlockStep(s), n - 1);
      } else {
        StalledLoopDiverges(s, n);
      }
    }
  }

  lemma {:induction false} StalledLoopDiverges(s: string, n: nat)
    requires Contains(s, "/*") && !Shrinks(s)
    ensures Contains(Iterate(s, n), "/*")
    decreases n
  {
    if n > 0 {
      StallPersists(s);
      StalledLoopDiverges(BlockStep(s), n - 1);
    }
  }

  /** A single line without an opening marker goes through the line pass only. */
  lemma StripSingleLine(s: string)
    requires '\n' !in s
    requires forall j :: !OccursAt(s, "/*", j)
    ensures StripComments(s) == Ok(CleanLine(s))
  {
    IndexNone(s, "/*");
    assert BlockStage(s) == Ok(s);
    SplitNoSep(s, '\n');
    var lines := [s];
    assert lines[..0] == [];
    assert CleanLines(lines) == if CleanLine(s) == [] then [] else [CleanLine(s)];
  }

  lemma NoStarNoOpener(s: string)
    requires '*' !in s
    ensures forall j :: !OccursAt(s, "/*", j)
  {
    forall j ensures !OccursAt(s, "/*", j) {
      OccursAt2(s, "/*", j);
    }
  }

  /** A trimmed line with no '/' after its last "//" is cut there. */
  lemma CleanLineCut(line: string, pre: string, post: string)
    requires line == pre + "//" + post && '/' !in post
    requires !IsSpace(line[0]) && !IsSpace(line[|line| - 1])
    ensures CleanLine(line) == TrimSpace(pre)
  {
    var n := |pre|;
    assert line[n..n + 2] == "//";
    assert OccursAt(line, "//", n);
    forall j | j > n ensures !OccursAt(line, "//", j) {
      OccursAt2(line, "//", j);
      if 0 <= j && j + 2 <= |line| {
        assert line[j + 1] == post[j + 1 - n - 2];
      }
    }
    assert LastIndex(line, "//") == n;
    assert line[..n] == pre;
  }

  /** Trimming a text that has one trailing space and no other ones. */
  lemma TrimOneSpace(w: string)
    requires w != [] && !IsSpace(w[0]) && !IsSpace(w[|w| - 1])
    ensures TrimSpace(w + " ") == w
  {
    assert (w + " ")[..|w|] == w;
    assert TrimRightSpace(w + " ") == TrimRightSpace(w);
  }

  /** A line "w //post" with no '/' in `post` is cleaned to `w`. */
  lemma CleanLineCutTrim(line: string, w: string, post: string)
    requires line == w + " //" + post && '/' !in post
    requires w != [] && !IsSpace(w[0]) && !IsSpace(w[|w| - 1]) && !IsSpace(line[|line| - 1])
    ensures CleanLine(line) == w
  {
    assert line == (w + " ") + "//" + post;
    assert line[0] == w[0];
    CleanLineCut(line, w + " ", post);
    TrimOneSpace(w);
  }

  /** Of two markers, the line pass cuts at the last one. */
  lemma CleanLineTwoMarkers(s: string, u: string)
    requires s == "a // b // c" && u == "a // b"
    ensures CleanLine(s) == u
  {
    CleanLineCutTrim(s, u, " c");
  }

  lemma CleanLineOneMarker(u: string, v: string)
    requires u == "a // b" && v == "a"
    ensures CleanLine(u) == v
  {
    CleanLineCutTrim(u, v, " b");
  }

  /** Cutting at the last line-comment marker leaves the earlier ones, so a
      second pass over the output changes it again: stripping is not
      idempotent. */
  lemma LineCutNotIdempotent(s: string, u: string)
    requires s == "a // b // c" && u == "a // b"
    ensures StripComments(s) == Ok(u)
    ensures StripComments(u) == Ok("a")
  {
    assert '\n' !in s && '*' !in s;
    NoStarNoOpener(s);
    NoStarNoOpener(u);
    StripSingleLine(s);
    StripSingleLine(u);
    CleanLineTwoMarkers(s, u);
    CleanLineOneMarker(u, "a");
  }

  /** A closing marker before the first opening one makes the first round
      copy text instead of cutting it: "*/ /*" is reported malformed, and the
      source's loop runs forever on it. */
  lemma MisorderedMarkersFail(s: string)
    requires s == "*/ /*"
    ensures StripComments(s) == Err(MalformedComment)
    ensures forall n: nat :: Contains(Iterate(s, n), "/*")
  {
    OccursAt2(s, "*/", 0);
    OccursAt2(s, "/*", 0);
    OccursAt2(s, "/*", 1);
    OccursAt2(s, "/*", 2);
    OccursAt2(s, "/*", 3);
    assert Index(s, "*/") == 0;
    assert Index(s, "/*") == 3;
    assert !Shrinks(s);
    forall n: nat ensures Contains(Iterate(s, n), "/*") {
      SourceLoopDiverges(s, n);
    }
  }
}
