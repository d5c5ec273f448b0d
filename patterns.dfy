/** The fixed regular expressions of main.go. Each is given as a predicate on
    the text a match covers (what the pattern means) and, where the source uses
    the matched text, as a scanner that finds the leftmost match the way Go's
    regexp package does (leftmost start, then the greedy choice). */
module Patterns {
  import opened GoStrings
  import opened GoStringFacts
  import opened Outcome

  /** RE2's `\s`: the class [\t\n\f\r ]. */
  predicate IsRegexSpace(c: char) {
    c == '\t' || c == '\n' || c == '\U{C}' || c == '\r' || c == ' '
  }

  /** RE2's `\w`: the class [0-9A-Za-z_]. */
  predicate IsWordChar(c: char) {
    ('0' <= c <= '9') || ('A' <= c <= 'Z') || ('a' <= c <= 'z') || c == '_'
  }

  predicate AllRegexSpace(s: string) {
    forall i :: 0 <= i < |s| ==> IsRegexSpace(s[i])
  }

  predicate AllWord(s: string) {
    forall i :: 0 <= i < |s| ==> IsWordChar(s[i])
  }

  /** The end of the longest run of `\s` that starts at `i`. */
  function SpaceRunEnd(s: string, i: nat): (r: nat)
    requires i <= |s|
    decreases |s| - i
    ensures i <= r <= |s| && AllRegexSpace(s[i..r]) && (r == |s| || !IsRegexSpace(s[r]))
  {
    if i < |s| && IsRegexSpace(s[i]) then
      SpaceRunEnd(s, i + 1)
    else i
  }

  /** The end of the longest run of `\w` that starts at `i`. */
  function WordRunEnd(s: string, i: nat): (r: nat)
    requires i <= |s|
    decreases |s| - i
    ensures i <= r <= |s| && AllWord(s[i..r]) && (r == |s| || !IsWordChar(s[r]))
  {
    if i < |s| && IsWordChar(s[i]) then
      WordRunEnd(s, i + 1)
    else i
  }

  /** A run of `\s` that cannot be extended is the longest one. */
  lemma {:induction false} SpaceRunIs(s: string, i: nat, j: nat)
    requires i <= j <= |s| && AllRegexSpace(s[i..j]) && (j == |s| || !IsRegexSpace(s[j]))
    ensures SpaceRunEnd(s, i) == j
    decreases j - i
  {
    if i < j {
      assert s[i] == s[i..j][0];
      assert s[i + 1..j] == s[i..j][1..];
      SpaceRunIs(s, i + 1, j);
    }
  }

  /** A run of `\w` that cannot be extended is the longest one. */
  lemma {:induction false} WordRunIs(s: string, i: nat, j: nat)
    requires i <= j <= |s| && AllWord(s[i..j]) && (j == |s| || !IsWordChar(s[j]))
    ensures WordRunEnd(s, i) == j
    decreases j - i
  {
    if i < j {
      assert s[i] == s[i..j][0];
      assert s[i + 1..j] == s[i..j][1..];
      WordRunIs(s, i + 1, j);
    }
  }

  /** A slice of a slice is a slice of the whole text. */
  lemma SliceOfSlice(s: string, p: nat, q: nat, i: nat, j: nat)
    requires p <= q <= |s| && i <= j <= q - p
    ensures s[p..q][i..j] == s[p + i..p + j]
  {
    var u := s[p + i..p + j];
    var v := s[p..q][i..j];
    assert |u| == |v|;
    forall k | 0 <= k < |u| ensures u[k] == v[k] {
    }
  }

  /** A run of `\s` inside a slice is a run of the whole text. */
  lemma SpaceSlice(s: string, p: nat, q: nat, i: nat, j: nat)
    requires p <= q <= |s| && i <= j <= q - p
    requires AllRegexSpace(s[p..q][i..j])
    ensures AllRegexSpace(s[p + i..p + j])
  {
    var u := s[p + i..p + j];
    var v := s[p..q][i..j];
    forall k | 0 <= k < |u| ensures IsRegexSpace(u[k]) {
      assert u[k] == v[k];
    }
  }

  // ---------------------------------------------------------------------
  // type\s+<Name>\s+struct\s+{   (FindStructBlock)

  /** A name that the pattern matches literally: FindStructBlock pastes the
      name into the pattern unescaped, so it must hold no metacharacter, and no
      `\s` (so that the runs of `\s` around it are the longest ones). */
  predicate LiteralName(name: string) {
    |name| > 0 &&
    forall k :: 0 <= k < |name| ==> !IsRegexSpace(name[k]) && name[k] !in "\\.+*?()|[]{}^$"
  }

  /** `t` is "type", `\s+`, the name, `\s+`, "struct", `\s+`, "{", with the
      first two runs of `\s` ending at `a` and `b`. */
  predicate HeaderSplit(t: string, name: string, a: int, b: int) {
    && 4 < a && a + |name| < b && b + 6 < |t| - 1
    && t[..4] == "type" && AllRegexSpace(t[4..a])
    && t[a..a + |name|] == name && AllRegexSpace(t[a + |name|..b])
    && t[b..b + 6] == "struct" && AllRegexSpace(t[b + 6..|t| - 1])
    && t[|t| - 1] == '{'
  }

  /** `t` is a whole match of the header pattern for `name`. */
  predicate IsHeaderMatch(t: string, name: string) {
    exists a, b :: 0 <= a <= |t| && 0 <= b <= |t| && HeaderSplit(t, name, a, b)
  }

  /** The end of the header match that starts at `p`, if one does. */
  function HeaderEndAt(s: string, p: nat, name: string): Option<nat>
    requires p <= |s|
  {
    if !OccursAt(s, "type", p) then None
    else
      var a := SpaceRunEnd(s, p + 4);
      if a == p + 4 || !OccursAt(s, name, a) then None
      else
        var b := SpaceRunEnd(s, a + |name|);
        if b == a + |name| || !OccursAt(s, "struct", b) then None
        else
          var d := SpaceRunEnd(s, b + 6);
          if d == b + 6 || d == |s| || s[d] != '{' then None
          else Some(d + 1)
  }

  /** What the scanner finds is a match. */
  lemma HeaderEndSound(s: string, p: nat, name: string)
    requires p <= |s| && HeaderEndAt(s, p, name).Some?
    ensures p < HeaderEndAt(s, p, name).value <= |s|
    ensures IsHeaderMatch(s[p..HeaderEndAt(s, p, name).value], name)
  {
    var a := SpaceRunEnd(s, p + 4);
    assert OccursAt(s, "type", p) && p + 4 < a && OccursAt(s, name, a);
    var b := SpaceRunEnd(s, a + |name|);
    assert a + |name| < b && OccursAt(s, "struct", b);
    var d := SpaceRunEnd(s, b + 6);
    assert b + 6 < d < |s| && s[d] == '{';
    assert HeaderEndAt(s, p, name) == Some(d + 1);
    HeaderPieces(s, p, d + 1, name, a, b);
    assert 0 <= a - p <= d + 1 - p && 0 <= b - p <= d + 1 - p;
  }

  /** The pieces of a header laid out in `s` from `p` to `q` make a match. */
  lemma HeaderPieces(s: string, p: nat, q: nat, name: string, a: nat, b: nat)
    requires p + 4 < a && a + |name| < b && b + 6 < q - 1 && q <= |s|
    requires OccursAt(s, "type", p) && AllRegexSpace(s[p + 4..a])
    requires OccursAt(s, name, a) && AllRegexSpace(s[a + |name|..b])
    requires OccursAt(s, "struct", b) && AllRegexSpace(s[b + 6..q - 1]) && s[q - 1] == '{'
    ensures HeaderSplit(s[p..q], name, a - p, b - p)
  {
    var t := s[p..q];
    var a', b' := a - p, b - p;
    SliceOfSlice(s, p, q, 0, 4);
    assert t[..4] == t[0..4];
    SpaceUnslice(s, p, q, 4, a');
    SliceOfSlice(s, p, q, a', a' + |name|);
    SpaceUnslice(s, p, q, a' + |name|, b');
    SliceOfSlice(s, p, q, b', b' + 6);
    SpaceUnslice(s, p, q, b' + 6, |t| - 1);
    assert t[|t| - 1] == s[q - 1];
  }

  /** A run of `\s` in the whole text is a run inside the slice. */
  lemma SpaceUnslice(s: string, p: nat, q: nat, i: nat, j: nat)
    requires p <= q <= |s| && i <= j <= q - p
    requires AllRegexSpace(s[p + i..p + j])
    ensures AllRegexSpace(s[p..q][i..j])
  {
    SliceOfSlice(s, p, q, i, j);
  }

  /** The scanner finds the header whose runs of `\s` end at `a`, `b` and
      `q - 1` when each run is one that cannot be extended. */
  lemma HeaderEndFrom(s: string, p: nat, q: nat, name: string, a: nat, b: nat)
    requires |name| > 0 && !IsRegexSpace(name[0])
    requires p + 4 < a && a + |name| < b && b + 6 < q - 1 && q <= |s|
    requires OccursAt(s, "type", p) && AllRegexSpace(s[p + 4..a])
    requires OccursAt(s, name, a) && AllRegexSpace(s[a + |name|..b])
    requires OccursAt(s, "struct", b) && AllRegexSpace(s[b + 6..q - 1]) && s[q - 1] == '{'
    ensures HeaderEndAt(s, p, name) == Some(q)
  {
    assert !IsRegexSpace(s[a]) by {
      assert s[a] == s[a..a + |name|][0] == name[0];
    }
    SpaceRunIs(s, p + 4, a);
    assert !IsRegexSpace(s[b]) by {
      assert s[b] == s[b..b + 6][0] == 's';
    }
    SpaceRunIs(s, a + |name|, b);
    SpaceRunIs(s, b + 6, q - 1);
    HeaderEndOfRuns(s, p, q, name, a, b);
  }

  /** The scanner's result once the ends of the three runs are known. */
  lemma HeaderEndOfRuns(s: string, p: nat, q: nat, name: string, a: nat, b: nat)
    requires p + 4 < a && a + |name| < b && b + 6 < q - 1 && q <= |s|
    requires OccursAt(s, "type", p) && SpaceRunEnd(s, p + 4) == a && OccursAt(s, name, a)
    requires SpaceRunEnd(s, a + |name|) == b && OccursAt(s, "struct", b)
    requires SpaceRunEnd(s, b + 6) == q - 1 && s[q - 1] == '{'
    ensures HeaderEndAt(s, p, name) == Some(q)
  {
  }

  /** Every match starting at `p` is the one the scanner finds. */
  lemma HeaderEndComplete(s: string, p: nat, q: nat, name: string)
    requires |name| > 0 && !IsRegexSpace(name[0])
    requires p <= q <= |s| && IsHeaderMatch(s[p..q], name)
    ensures HeaderEndAt(s, p, name) == Some(q)
  {
    var t := s[p..q];
    var a, b :| 0 <= a <= |t| && 0 <= b <= |t| && HeaderSplit(t, name, a, b);
    PiecesOfHeader(s, p, q, name, a, b);
    HeaderEndFrom(s, p, q, name, p + a, p + b);
  }

  /** A match in s[p..q] lays its pieces out in `s`. */
  lemma PiecesOfHeader(s: string, p: nat, q: nat, name: string, a: nat, b: nat)
    requires p <= q <= |s| && HeaderSplit(s[p..q], name, a, b)
    ensures p + 4 < p + a && p + a + |name| < p + b && p + b + 6 < q - 1
    ensures OccursAt(s, "type", p) && AllRegexSpace(s[p + 4..p + a])
    ensures OccursAt(s, name, p + a) && AllRegexSpace(s[p + a + |name|..p + b])
    ensures OccursAt(s, "struct", p + b) && AllRegexSpace(s[p + b + 6..q - 1]) && s[q - 1] == '{'
  {
    var t := s[p..q];
    SliceOfSlice(s, p, q, 0, 4);
    assert t[..4] == t[0..4];
    SpaceSlice(s, p, q, 4, a);
    SliceOfSlice(s, p, q, a, a + |name|);
    SpaceSlice(s, p, q, a + |name|, b);
    SliceOfSlice(s, p, q, b, b + 6);
    SpaceSlice(s, p, q, b + 6, |t| - 1);
    assert s[q - 1] == t[|t| - 1];
  }

  /** The leftmost header match at or after `p`: its start and end. */
  function FirstHeaderFrom(s: string, name: string, p: nat): (r: Option<(nat, nat)>)
    requires p <= |s|
    decreases |s| - p
    ensures r.Some? ==> p <= r.value.0 < r.value.1 <= |s| && HeaderEndAt(s, r.value.0, name) == Some(r.value.1)
    ensures r.Some? ==> forall j :: p <= j < r.value.0 ==> HeaderEndAt(s, j, name).None?
    ensures r.None? ==> forall j :: p <= j <= |s| ==> HeaderEndAt(s, j, name).None?
  {
    match HeaderEndAt(s, p, name)
    case Some(q) => HeaderEndSound(s, p, name); Some((p, q))
    case None => if p == |s| then None else FirstHeaderFrom(s, name, p + 1)
  }

  /** regexp's FindString for the header pattern, as start and end. */
  function FirstHeader(s: string, name: string): Option<(nat, nat)> {
    FirstHeaderFrom(s, name, 0)
  }

  /** FirstHeader is the leftmost match of the header pattern, its end is the
      only end a match from there can have, and it finds none exactly when
      the text holds no match. */
  lemma FirstHeaderIsLeftmost(s: string, name: string)
    requires LiteralName(name)
    ensures FirstHeader(s, name).None? <==>
      forall p, q :: 0 <= p <= q <= |s| ==> !IsHeaderMatch(s[p..q], name)
    ensures FirstHeader(s, name).Some? ==>
      var (p, q) := FirstHeader(s, name).value;
      && p <= q <= |s| && IsHeaderMatch(s[p..q], name)
      && (forall p', q' :: 0 <= p' < p && p' <= q' <= |s| ==> !IsHeaderMatch(s[p'..q'], name))
      && (forall q' :: p <= q' <= |s| && IsHeaderMatch(s[p..q'], name) ==> q' == q)
  {
    match FirstHeader(s, name)
    case None =>
      forall p, q | 0 <= p <= q <= |s| ensures !IsHeaderMatch(s[p..q], name) {
        if IsHeaderMatch(s[p..q], name) { HeaderEndComplete(s, p, q, name); }
      }
    case Some((p, q)) =>
      HeaderEndSound(s, p, name);
      forall p', q' | 0 <= p' < p && p' <= q' <= |s| ensures !IsHeaderMatch(s[p'..q'], name) {
        if IsHeaderMatch(s[p'..q'], name) { HeaderEndComplete(s, p', q', name); }
      }
      forall q' | p <= q' <= |s| && IsHeaderMatch(s[p..q'], name) ensures q' == q {
        HeaderEndComplete(s, p, q', name);
      }
  }

  // ---------------------------------------------------------------------
  // type\s+\w+\s+struct   (the struct-name line in ParseStructBlock)

  /** `t` is "type", `\s+`, `\w+`, `\s+`, "struct", the identifier being
      t[a..b]. */
  predicate StructLineSplit(t: string, a: int, b: int, d: int) {
    && 4 < a < b < d && d + 6 == |t|
    && t[..4] == "type" && AllRegexSpace(t[4..a]) && AllWord(t[a..b])
    && AllRegexSpace(t[b..d]) && t[d..] == "struct"
  }

  predicate IsStructLineMatch(t: string) {
    exists a, b, d :: 0 <= a <= |t| && 0 <= b <= |t| && 0 <= d <= |t| && StructLineSplit(t, a, b, d)
  }

  /** A struct-line match: where the identifier starts and ends, and where
      the match ends. */
  datatype NameHit = NameHit(lo: nat, hi: nat, end: nat)

  function StructLineAt(s: string, p: nat): Option<NameHit>
    requires p <= |s|
  {
    if !OccursAt(s, "type", p) then None
    else
      var a := SpaceRunEnd(s, p + 4);
      var b := WordRunEnd(s, a);
      var d := SpaceRunEnd(s, b);
      if a == p + 4 || b == a || d == b || !OccursAt(s, "struct", d) then None
      else Some(NameHit(a, b, d + 6))
  }

  lemma StructLineSound(s: string, p: nat)
    requires p <= |s| && StructLineAt(s, p).Some?
    ensures var h := StructLineAt(s, p).value;
      p + 4 < h.lo < h.hi < h.end <= |s| && StructLineSplit(s[p..h.end], h.lo - p, h.hi - p, h.end - 6 - p)
  {
    var h := StructLineAt(s, p).value;
    var t := s[p..h.end];
    var d := h.end - 6;
    SliceOfSlice(s, p, h.end, 0, 4);
    assert t[..4] == t[0..4];
    SliceOfSlice(s, p, h.end, 4, h.lo - p);
    SliceOfSlice(s, p, h.end, h.lo - p, h.hi - p);
    SliceOfSlice(s, p, h.end, h.hi - p, d - p);
    SliceOfSlice(s, p, h.end, d - p, h.end - p);
    assert t[d - p..] == t[d - p..h.end - p];
  }

  lemma StructLineComplete(s: string, p: nat, q: nat, a: nat, b: nat, d: nat)
    requires p <= q <= |s| && StructLineSplit(s[p..q], a, b, d)
    ensures StructLineAt(s, p) == Some(NameHit(p + a, p + b, q))
  {
    PiecesOfStructLine(s, p, q, a, b, d);
    StructLineFrom(s, p, p + a, p + b, p + d);
  }

  /** A struct-line match in s[p..q] lays its pieces out in `s`. */
  lemma PiecesOfStructLine(s: string, p: nat, q: nat, a: nat, b: nat, d: nat)
    requires p <= q <= |s| && StructLineSplit(s[p..q], a, b, d)
    ensures p + 4 < p + a < p + b < p + d && p + d + 6 == q
    ensures OccursAt(s, "type", p) && AllRegexSpace(s[p + 4..p + a]) && AllWord(s[p + a..p + b])
    ensures AllRegexSpace(s[p + b..p + d]) && OccursAt(s, "struct", p + d)
  {
    var t := s[p..q];
    SliceOfSlice(s, p, q, 0, 4);
    assert t[..4] == t[0..4];
    SpaceSlice(s, p, q, 4, a);
    SliceOfSlice(s, p, q, a, b);
    SpaceSlice(s, p, q, b, d);
    SliceOfSlice(s, p, q, d, d + 6);
    assert t[d..] == t[d..d + 6];
  }

  /** The scanner finds the struct line whose runs are the longest ones. */
  lemma StructLineFrom(s: string, p: nat, a: nat, b: nat, d: nat)
    requires p + 4 < a < b < d && d + 6 <= |s|
    requires OccursAt(s, "type", p) && AllRegexSpace(s[p + 4..a]) && AllWord(s[a..b])
    requires AllRegexSpace(s[b..d]) && OccursAt(s, "struct", d)
    ensures StructLineAt(s, p) == Some(NameHit(a, b, d + 6))
  {
    assert !IsRegexSpace(s[a]) by {
      assert s[a] == s[a..b][0];
    }
    SpaceRunIs(s, p + 4, a);
    assert !IsWordChar(s[b]) by {
      assert s[b] == s[b..d][0];
    }
    WordRunIs(s, a, b);
    assert !IsRegexSpace(s[d]) by {
      assert s[d] == s[d..d + 6][0] == 's';
    }
    SpaceRunIs(s, b, d);
    StructLineOfRuns(s, p, a, b, d);
  }

  /** The scanner's result once the ends of the three runs are known. */
  lemma StructLineOfRuns(s: string, p: nat, a: nat, b: nat, d: nat)
    requires p + 4 < a < b < d <= |s|
    requires OccursAt(s, "type", p) && SpaceRunEnd(s, p + 4) == a
    requires WordRunEnd(s, a) == b && SpaceRunEnd(s, b) == d && OccursAt(s, "struct", d)
    ensures StructLineAt(s, p) == Some(NameHit(a, b, d + 6))
  {
  }

  /** The leftmost struct-line match at or after `p`. */
  function FirstStructLineFrom(s: string, p: nat): (r: Option<(nat, NameHit)>)
    requires p <= |s|
    decreases |s| - p
    ensures r.Some? ==> p <= r.value.0 <= |s| && StructLineAt(s, r.value.0) == Some(r.value.1)
    ensures r.Some? ==> forall j :: p <= j < r.value.0 ==> StructLineAt(s, j).None?
    ensures r.None? ==> forall j :: p <= j <= |s| ==> StructLineAt(s, j).None?
  {
    match StructLineAt(s, p)
    case Some(h) => Some((p, h))
    case None => if p == |s| then None else FirstStructLineFrom(s, p + 1)
  }

  /** regexp's FindString for the struct-line pattern. */
  function FirstStructLine(s: string): Option<(nat, NameHit)> {
    FirstStructLineFrom(s, 0)
  }

  /** FirstStructLine is the leftmost match of the struct-line pattern, and
      finds none exactly when the line holds no match. */
  lemma FirstStructLineIsLeftmost(s: string)
    ensures FirstStructLine(s).None? <==>
      forall p, q :: 0 <= p <= q <= |s| ==> !IsStructLineMatch(s[p..q])
    ensures FirstStructLine(s).Some? ==>
      var (p, h) := FirstStructLine(s).value;
      && p <= h.end <= |s| && IsStructLineMatch(s[p..h.end])
      && (forall p', q' :: 0 <= p' < p && p' <= q' <= |s| ==> !IsStructLineMatch(s[p'..q']))
  {
    match FirstStructLine(s)
    case None =>
      forall p, q | 0 <= p <= q <= |s| ensures !IsStructLineMatch(s[p..q]) {
        if IsStructLineMatch(s[p..q]) {
          var t := s[p..q];
          var a, b, d :| 0 <= a <= |t| && 0 <= b <= |t| && 0 <= d <= |t| && StructLineSplit(t, a, b, d);
          StructLineComplete(s, p, q, a, b, d);
        }
      }
    case Some((p, h)) =>
      StructLineSound(s, p);
      assert StructLineSplit(s[p..h.end], h.lo - p, h.hi - p, h.end - 6 - p);
      forall p', q' | 0 <= p' < p && p' <= q' <= |s| ensures !IsStructLineMatch(s[p'..q']) {
        if IsStructLineMatch(s[p'..q']) {
          var t := s[p'..q'];
          var a, b, d :| 0 <= a <= |t| && 0 <= b <= |t| && 0 <= d <= |t| && StructLineSplit(t, a, b, d);
          StructLineComplete(s, p', q', a, b, d);
        }
      }
  }

  /** A one-character pattern occurs exactly where its character does. */
  lemma OccursAt1(s: string, pat: string, j: int)
    requires |pat| == 1
    ensures OccursAt(s, pat, j) <==> 0 <= j < |s| && s[j] == pat[0]
  {
    if 0 <= j < |s| && s[j] == pat[0] {
      assert s[j..j + 1] == pat;
    }
  }

  // ---------------------------------------------------------------------
  // The struct name: TrimSpace(TrimLeft(TrimRight(m, "struct"), "type"))

  lemma {:induction false} TrimRightSetDrops(x: string, y: string, cut: set<char>)
    requires forall k :: 0 <= k < |y| ==> y[k] in cut
    requires x == [] || x[|x| - 1] !in cut
    ensures TrimRightSet(x + y, cut) == x
    decreases |y|
  {
    if y == [] {
      assert x + y == x;
    } else {
      var y' := y[..|y| - 1];
      assert (x + y)[..|x + y| - 1] == x + y';
      TrimRightSetDrops(x, y', cut);
    }
  }

  lemma {:induction false} TrimLeftSetDrops(y: string, x: string, cut: set<char>)
    requires forall k :: 0 <= k < |y| ==> y[k] in cut
    requires x == [] || x[0] !in cut
    ensures TrimLeftSet(y + x, cut) == x
    decreases |y|
  {
    if y == [] {
      assert y + x == x;
    } else {
      assert (y + x)[0] == y[0];
      assert (y + x)[1..] == y[1..] + x;
      TrimLeftSetDrops(y[1..], x, cut);
    }
  }

  lemma {:induction false} TrimRightSpaceDrops(x: string, y: string)
    requires AllSpace(y) && (x == [] || !IsSpace(x[|x| - 1]))
    ensures TrimRightSpace(x + y) == x
    decreases |y|
  {
    if y == [] {
      assert x + y == x;
    } else {
      var y' := y[..|y| - 1];
      assert (x + y)[..|x + y| - 1] == x + y';
      TrimRightSpaceDrops(x, y');
    }
  }

  lemma {:induction false} TrimLeftSpaceDrops(y: string, x: string)
    requires AllSpace(y) && (x == [] || !IsSpace(x[0]))
    ensures TrimLeftSpace(y + x) == x
    decreases |y|
  {
    if y == [] {
      assert y + x == x;
    } else {
      assert (y + x)[0] == y[0];
      assert (y + x)[1..] == y[1..] + x;
      TrimLeftSpaceDrops(y[1..], x);
    }
  }

  /** TrimSpace removes exactly the white space around a word. */
  lemma TrimSpacePadded(a: string, w: string, b: string)
    requires AllSpace(a) && AllSpace(b) && w != [] && !IsSpace(w[0]) && !IsSpace(w[|w| - 1])
    ensures TrimSpace(a + w + b) == w
  {
    var x := a + w;
    assert x[|x| - 1] == w[|w| - 1];
    TrimRightSpaceDrops(x, b);
    TrimLeftSpaceDrops(a, w);
    assert TrimRightSpace(a + w + b) == x;
  }

  lemma RegexSpaceIsSpace(s: string)
    requires AllRegexSpace(s)
    ensures AllSpace(s)
  {
  }

  /** The cutsets of strings.TrimRight(_, "struct") and strings.TrimLeft(_, "type"). */
  const StructCut: set<char> := {'s', 't', 'r', 'u', 'c'}
  const TypeCut: set<char> := {'t', 'y', 'p', 'e'}

  /** The struct name main.go reads off the text of a struct-line match. */
  function NameOfMatch(m: string): string {
    TrimSpace(TrimLeftSet(TrimRightSet(m, StructCut), TypeCut))
  }

  /** The three trims take "type", the runs of white space and "struct" off
      an identifier. */
  lemma NameOfParts(sp1: string, w: string, sp2: string)
    requires sp1 != [] && AllRegexSpace(sp1) && w != [] && AllWord(w) && sp2 != [] && AllRegexSpace(sp2)
    ensures NameOfMatch("type" + sp1 + w + sp2 + "struct") == w
  {
    var y := sp1 + w + sp2;
    var x := "type" + y;
    assert x + "struct" == "type" + sp1 + w + sp2 + "struct";
    assert x[|x| - 1] == sp2[|sp2| - 1];
    TrimRightSetDrops(x, "struct", StructCut);
    assert y[0] == sp1[0];
    TrimLeftSetDrops("type", y, TypeCut);
    RegexSpaceIsSpace(sp1);
    RegexSpaceIsSpace(sp2);
    assert IsWordChar(w[0]) && IsWordChar(w[|w| - 1]);
    TrimSpacePadded(sp1, w, sp2);
  }

  lemma CutFive(s: string, i: nat, j: nat, k: nat, l: nat, m: nat, n: nat)
    requires i <= j <= k <= l <= m <= n <= |s|
    ensures s[i..n] == s[i..j] + s[j..k] + s[k..l] + s[l..m] + s[m..n]
  {
    CutTwo(s, i, j, n);
    CutTwo(s, j, k, n);
    CutTwo(s, k, l, n);
    CutTwo(s, l, m, n);
  }

  lemma CutTwo(s: string, i: nat, j: nat, n: nat)
    requires i <= j <= n <= |s|
    ensures s[i..n] == s[i..j] + s[j..n]
  {
  }

  /** The three trims of a struct-line match leave exactly its identifier. */
  lemma NameOfMatchIsIdentifier(s: string, p: nat)
    requires p <= |s| && StructLineAt(s, p).Some?
    ensures var h := StructLineAt(s, p).value;
      h.lo < h.hi <= |s| && NameOfMatch(s[p..h.end]) == s[h.lo..h.hi]
  {
    var h := StructLineAt(s, p).value;
    var d := h.end - 6;
    assert p + 4 < h.lo < h.hi < d && h.end <= |s|;
    assert s[p..p + 4] == "type";
    assert s[d..h.end] == "struct";
    CutFive(s, p, p + 4, h.lo, h.hi, d, h.end);
    NameOfParts(s[p + 4..h.lo], s[h.lo..h.hi], s[h.hi..d]);
  }

  // ---------------------------------------------------------------------
  // `.*`   (the backtick tag of a field line)

  /** `t` is a whole match of the tag pattern: backtick, anything but a line
      break, backtick. */
  predicate IsTagMatch(t: string) {
    |t| >= 2 && t[0] == '`' && t[|t| - 1] == '`' && '\n' !in t
  }

  /** The leftmost match of the tag pattern in a line, as start and end: on a
      line without line breaks, from the first backtick to the last one. */
  function TagSpan(line: string): Option<(nat, nat)>
    requires '\n' !in line
  {
    var f := Index(line, "`");
    var l := LastIndex(line, "`");
    if 0 <= f < l then Some((f, l + 1)) else None
  }

  /** TagSpan is the leftmost match of the tag pattern and the longest one from
      there, the way the greedy `.*` chooses, and finds none exactly when the
      line holds no match. */
  lemma TagSpanIsLeftmostLongest(line: string)
    requires '\n' !in line
    ensures TagSpan(line).None? <==>
      forall p, q :: 0 <= p <= q <= |line| ==> !IsTagMatch(line[p..q])
    ensures TagSpan(line).Some? ==>
      var (p, q) := TagSpan(line).value;
      && p < q <= |line| && IsTagMatch(line[p..q])
      && (forall p', q' :: 0 <= p' < p && p' <= q' <= |line| ==> !IsTagMatch(line[p'..q']))
      && (forall q' :: q < q' <= |line| ==> !IsTagMatch(line[p..q']))
  {
    var f := Index(line, "`");
    var l := LastIndex(line, "`");
    forall j | 0 <= j < |line| && line[j] == '`' ensures f != -1 && f <= j && l != -1 && j <= l {
      OccursAt1(line, "`", j);
    }
    if f != -1 {
      OccursAt1(line, "`", f);
    }
    if l != -1 {
      OccursAt1(line, "`", l);
    }
    forall p, q | 0 <= p <= q <= |line| && IsTagMatch(line[p..q])
      ensures 0 <= f <= p && q - 1 <= l && f < l
    {
      assert line[p] == line[p..q][0];
      assert line[q - 1] == line[p..q][q - p - 1];
    }
    if 0 <= f < l {
      var t := line[f..l + 1];
      assert t[0] == line[f] && t[|t| - 1] == line[l];
      assert '\n' !in t;
    }
  }

  /** The tag of a field line, or "" when it has none. */
  function Tag(line: string): (r: string)
    requires '\n' !in line
    ensures r == [] || IsTagMatch(r)
  {
    match TagSpan(line)
    case Some((p, q)) => TagSpanIsLeftmostLongest(line); line[p..q]
    case None => []
  }

  lemma {:induction false} RemoveAllAbsent(s: string, pat: string)
    requires |pat| > 0 && pat[0] !in s
    ensures RemoveAll(s, pat) == s
    decreases |s|
  {
    if |s| >= |pat| {
      assert s[..|pat|][0] == s[0];
      assert pat[0] !in s[1..];
      RemoveAllAbsent(s[1..], pat);
      assert [s[0]] + s[1..] == s;
    }
  }

  lemma {:induction false} RemoveAllFirst(a: string, pat: string, b: string)
    requires |pat| > 0 && pat[0] !in a
    ensures RemoveAll(a + pat + b, pat) == a + RemoveAll(b, pat)
    decreases |a|
  {
    if a == [] {
      assert a + pat + b == pat + b;
      RemoveAllHere(pat, b);
    } else {
      var rest := a[1..] + pat + b;
      calc {
        RemoveAll(a + pat + b, pat);
        { assert a + pat + b == [a[0]] + rest; }
        RemoveAll([a[0]] + rest, pat);
        { RemoveAllSkip(a[0], rest, pat); }
        [a[0]] + RemoveAll(rest, pat);
        { assert pat[0] !in a[1..]; RemoveAllFirst(a[1..], pat, b); }
        [a[0]] + (a[1..] + RemoveAll(b, pat));
        { assert [a[0]] + a[1..] == a; }
        a + RemoveAll(b, pat);
      }
    }
  }

  /** RemoveAll deletes an occurrence at the front. */
  lemma RemoveAllHere(pat: string, b: string)
    requires |pat| > 0
    ensures RemoveAll(pat + b, pat) == RemoveAll(b, pat)
  {
    var s := pat + b;
    assert s[..|pat|] == pat;
    assert s[|pat|..] == b;
  }

  /** RemoveAll keeps a front character that cannot start the pattern. */
  lemma RemoveAllSkip(c: char, rest: string, pat: string)
    requires |pat| > 0 && c != pat[0]
    ensures RemoveAll([c] + rest, pat) == [c] + RemoveAll(rest, pat)
  {
    var s := [c] + rest;
    assert s[1..] == rest;
    if |s| >= |pat| {
      assert s[..|pat|][0] == c;
    }
  }

  /** No character before the first occurrence of a one-character pattern is
      that character. */
  lemma NotBeforeFirst(s: string, pat: string, j: int)
    requires |pat| == 1 && 0 <= j < |s| && (Index(s, pat) == -1 || j < Index(s, pat))
    ensures s[j] != pat[0]
  {
    OccursAt1(s, pat, j);
  }

  /** No character after the last occurrence of a one-character pattern is
      that character. */
  lemma NotAfterLast(s: string, pat: string, j: int)
    requires |pat| == 1 && 0 <= j < |s| && LastIndex(s, pat) < j
    ensures s[j] != pat[0]
  {
    OccursAt1(s, pat, j);
  }

  /** A pattern whose first character occurs only where the pattern does is
      removed once. */
  lemma RemoveOnce(a: string, pat: string, c: string)
    requires |pat| > 0 && pat[0] !in a && pat[0] !in c
    ensures RemoveAll(a + pat + c, pat) == a + c
  {
    RemoveAllFirst(a, pat, c);
    RemoveAllAbsent(c, pat);
  }

  lemma CutThree(s: string, p: nat, q: nat)
    requires p <= q <= |s|
    ensures s == s[..p] + s[p..q] + s[q..]
  {
  }

  /** strings.ReplaceAll(line, tag, "") deletes the tag once and nothing else. */
  lemma RemoveTag(line: string)
    requires '\n' !in line && TagSpan(line).Some?
    ensures var (p, q) := TagSpan(line).value;
      p < q <= |line| && RemoveAll(line, Tag(line)) == line[..p] + line[q..]
  {
    var (p, q) := TagSpan(line).value;
    TagIs(line);
    var tag := line[p..q];
    NoneBefore(line, p);
    NoneAfter(line, q);
    CutThree(line, p, q);
    assert tag[0] == line[p];
    RemoveOnce(line[..p], tag, line[q..]);
  }

  /** The tag is the span TagSpan reports, from its first backtick on. */
  lemma TagIs(line: string)
    requires '\n' !in line && TagSpan(line).Some?
    ensures var (p, q) := TagSpan(line).value;
      && p == Index(line, "`") && q == LastIndex(line, "`") + 1
      && p < q <= |line| && Tag(line) == line[p..q] && line[p] == '`'
  {
    var p := Index(line, "`");
    OccursAt1(line, "`", p);
  }

  /** No backtick comes before the first one. */
  lemma NoneBefore(line: string, p: nat)
    requires p == Index(line, "`")
    ensures '`' !in line[..p]
  {
    forall j | 0 <= j < p ensures line[..p][j] != '`' {
      NotBeforeFirst(line, "`", j);
    }
  }

  /** No backtick comes after the last one. */
  lemma NoneAfter(line: string, q: nat)
    requires q == LastIndex(line, "`") + 1 && q <= |line|
    ensures '`' !in line[q..]
  {
    forall j | 0 <= j < |line| - q ensures line[q..][j] != '`' {
      NotAfterLast(line, "`", q + j);
    }
  }

  // ---------------------------------------------------------------------
  // gorm:"-[^"]*"   (the ignore test)

  /** The ignore pattern matches `tag`: "gorm:\"-" followed, somewhere after
      it, by a closing quote (the `[^"]*` runs up to the first one). */
  predicate IgnoreMatch(tag: string) {
    exists i :: 0 <= i <= |tag| && OccursAt(tag, "gorm:\"-", i) && '"' in tag[i + 7..]
  }

  /** The ignore pattern needs a dash right after an opening quote, so a
      tag such as gorm:"<-:false;-:migration" (no quote directly before a
      dash) is not ignored. */
  lemma IgnoreHasQuoteDash(tag: string)
    ensures IgnoreMatch(tag) ==> exists j :: 0 <= j < |tag| - 1 && tag[j] == '"' && tag[j + 1] == '-'
  {
    if IgnoreMatch(tag) {
      var i :| 0 <= i <= |tag| && OccursAt(tag, "gorm:\"-", i) && '"' in tag[i + 7..];
      var pat := "gorm:\"-";
      assert tag[i..i + 7] == pat && pat[5] == '"' && pat[6] == '-';
      assert tag[i + 5] == tag[i..i + 7][5];
      assert tag[i + 6] == tag[i..i + 7][6];
    }
  }

  /** gorm:"-" marks a field ignored. */
  lemma IgnoreExample()
    ensures IgnoreMatch("`gorm:\"-\"`")
  {
    var t := "`gorm:\"-\"`";
    assert OccursAt(t, "gorm:\"-", 1);
    assert t[8] == '"';
    assert '"' in t[8..];
  }

  // ---------------------------------------------------------------------
  // gorm:"[^"]+"   (the gorm tag body)

  /** `t` is a whole match of the gorm pattern. */
  predicate IsGormMatch(t: string) {
    |t| >= 8 && t[..6] == "gorm:\"" && t[|t| - 1] == '"' && '"' !in t[6..|t| - 1]
  }

  /** The end of the gorm match that starts at `i`, if one does: the body runs
      up to the first quote after the opening one and must not be empty. */
  function GormEndAt(tag: string, i: nat): Option<nat>
    requires i <= |tag|
  {
    if !OccursAt(tag, "gorm:\"", i) then None
    else
      var k := IndexFrom(tag, "\"", i + 6);
      if k > i + 6 then Some(k + 1) else None
  }

  lemma GormEndSound(tag: string, i: nat)
    requires i <= |tag| && GormEndAt(tag, i).Some?
    ensures i < GormEndAt(tag, i).value <= |tag| && IsGormMatch(tag[i..GormEndAt(tag, i).value])
  {
    var e := GormEndAt(tag, i).value;
    var k := e - 1;
    OccursAt1(tag, "\"", k);
    var t := tag[i..e];
    assert t[..6] == tag[i..i + 6];
    forall j | 6 <= j < |t| - 1 ensures t[j] != '"' {
      OccursAt1(tag, "\"", i + j);
    }
  }

  lemma GormEndComplete(tag: string, i: nat, e: nat)
    requires i <= e <= |tag| && IsGormMatch(tag[i..e])
    ensures GormEndAt(tag, i) == Some(e)
  {
    var t := tag[i..e];
    SliceOfSlice(tag, i, e, 0, 6);
    assert OccursAt(tag, "gorm:\"", i);
    assert tag[e - 1] == t[|t| - 1];
    OccursAt1(tag, "\"", e - 1);
    forall j | i + 6 <= j < e - 1 ensures !OccursAt(tag, "\"", j) {
      assert tag[j] == t[j - i];
      OccursAt1(tag, "\"", j);
    }
  }

  /** The leftmost gorm match at or after `i`: its start and end. */
  function FirstGormFrom(tag: string, i: nat): (r: Option<(nat, nat)>)
    requires i <= |tag|
    decreases |tag| - i
    ensures r.Some? ==> i <= r.value.0 <= |tag| && GormEndAt(tag, r.value.0) == Some(r.value.1)
    ensures r.Some? ==> forall j :: i <= j < r.value.0 ==> GormEndAt(tag, j).None?
    ensures r.None? ==> forall j :: i <= j <= |tag| ==> GormEndAt(tag, j).None?
  {
    match GormEndAt(tag, i)
    case Some(e) => Some((i, e))
    case None => if i == |tag| then None else FirstGormFrom(tag, i + 1)
  }

  /** regexp's FindString for the gorm pattern, as start and end. */
  function FirstGorm(tag: string): Option<(nat, nat)> {
    FirstGormFrom(tag, 0)
  }

  /** FirstGorm is the leftmost match of the gorm pattern, its end is the only
      end a match from there can have, and it finds none exactly when the tag
      holds no match. */
  lemma FirstGormIsLeftmost(tag: string)
    ensures FirstGorm(tag).None? <==>
      forall p, q :: 0 <= p <= q <= |tag| ==> !IsGormMatch(tag[p..q])
    ensures FirstGorm(tag).Some? ==>
      var (p, q) := FirstGorm(tag).value;
      && p < q <= |tag| && IsGormMatch(tag[p..q])
      && (forall p', q' :: 0 <= p' < p && p' <= q' <= |tag| ==> !IsGormMatch(tag[p'..q']))
      && (forall q' :: p <= q' <= |tag| && IsGormMatch(tag[p..q']) ==> q' == q)
  {
    match FirstGorm(tag)
    case None =>
      forall p, q | 0 <= p <= q <= |tag| ensures !IsGormMatch(tag[p..q]) {
        if IsGormMatch(tag[p..q]) { GormEndComplete(tag, p, q); }
      }
    case Some((p, q)) =>
      GormEndSound(tag, p);
      forall p', q' | 0 <= p' < p && p' <= q' <= |tag| ensures !IsGormMatch(tag[p'..q']) {
        if IsGormMatch(tag[p'..q']) { GormEndComplete(tag, p', q'); }
      }
      forall q' | p <= q' <= |tag| && IsGormMatch(tag[p..q']) ensures q' == q {
        GormEndComplete(tag, p, q');
      }
  }
}
