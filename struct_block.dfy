/** FindStructBlock (main.go): the text of one struct declaration, from its
    `type <Name> struct {` header to the brace that closes the body. */
module StructBlock {
  import opened GoStrings
  import opened GoStringFacts
  import opened Outcome
  import opened Patterns

  /** Opening braces minus closing braces. */
  function Balance(u: string): int {
    Count(u, '{') - Count(u, '}')
  }

  lemma BalanceAppend(u: string, v: string)
    ensures Balance(u + v) == Balance(u) + Balance(v)
  {
    CountAppend(u, v, '{');
    CountAppend(u, v, '}');
  }

  /** Extending a slice by one character moves the balance by at most one. */
  lemma BalanceStep(text: string, q: nat, i: nat)
    requires q <= i < |text|
    ensures Balance(text[q..i + 1]) == Balance(text[q..i]) +
      (if text[i] == '{' then 1 else if text[i] == '}' then -1 else 0)
  {
    var c := text[i];
    assert text[q..i + 1] == text[q..i] + [c];
    BalanceAppend(text[q..i], [c]);
    assert [c][1..] == [];
    assert Count([c], '{') == (if c == '{' then 1 else 0);
    assert Count([c], '}') == (if c == '}' then 1 else 0);
  }

  /** The depth after reading text[q..k + 1] with the header's brace open. */
  function DepthAfter(text: string, q: nat, k: nat): int
    requires q <= k < |text|
  {
    1 + Balance(text[q..k + 1])
  }

  /** The first position from `i` on where the depth falls to zero, given that
      it stayed positive before `i`. */
  function CloseFrom(text: string, q: nat, i: nat): (r: Option<nat>)
    requires q <= i <= |text|
    requires forall k :: q <= k < i ==> DepthAfter(text, q, k) > 0
    decreases |text| - i
    ensures r.Some? ==> i <= r.value < |text| && DepthAfter(text, q, r.value) == 0
    ensures r.Some? ==> forall k :: q <= k < r.value ==> DepthAfter(text, q, k) > 0
    ensures r.None? ==> forall k :: q <= k < |text| ==> DepthAfter(text, q, k) > 0
  {
    if i == |text| then None
    else
      BalanceStep(text, q, i);
      assert 1 + Balance(text[q..i]) > 0 by {
        if i == q {
          assert text[q..i] == [];
        } else {
          assert DepthAfter(text, q, i - 1) > 0;
        }
      }
      if DepthAfter(text, q, i) == 0 then Some(i)
      else CloseFrom(text, q, i + 1)
  }

  /** One step of the scan: the depth after text[i], and where the scan goes
      from there. */
  lemma CloseStep(text: string, q: nat, i: nat)
    requires q <= i < |text|
    requires forall k :: q <= k < i ==> DepthAfter(text, q, k) > 0
    ensures 1 + Balance(text[q..i]) > 0
    ensures DepthAfter(text, q, i) == 1 + Balance(text[q..i]) +
      (if text[i] == '{' then 1 else if text[i] == '}' then -1 else 0)
    ensures DepthAfter(text, q, i) == 0 ==> CloseFrom(text, q, i) == Some(i)
    ensures DepthAfter(text, q, i) != 0 ==>
      DepthAfter(text, q, i) > 0 && CloseFrom(text, q, i) == CloseFrom(text, q, i + 1)
  {
    BalanceStep(text, q, i);
    if i == q {
      assert text[q..i] == [];
    } else {
      assert DepthAfter(text, q, i - 1) > 0;
    }
  }

  /** The brace that closes a body opened just before `q`. */
  function FirstClose(text: string, q: nat): Option<nat>
    requires q <= |text|
  {
    CloseFrom(text, q, q)
  }

  /** What FindStructBlock returns: "" without a header, the text from the
      first header through its closing brace, or UnclosedStruct where the
      closing slice would be out of range. */
  function LocateBlock(name: string, text: string): Result<string> {
    match FirstHeader(text, name)
    case None => Ok([])
    case Some((p, q)) => BlockFrom(text, p, q)
  }

  /** The block whose header spans text[p..q]. */
  function BlockFrom(text: string, p: nat, q: nat): Result<string>
    requires p <= q <= |text|
  {
    match FirstClose(text, q)
    case None => Err(UnclosedStruct)
    case Some(k) => Ok(text[p..k + 1])
  }

  /** FindStructBlock: the first header match, located again with
      strings.Index, then the depth scan; the closing slice is out of range
      when the scan runs off the end. */
  method FindStructBlock(name: string, text: string) returns (r: Result<string>)
    requires LiteralName(name)
    ensures r == LocateBlock(name, text)
  {
    var found := FirstHeader(text, name);
    if found.None? {
      return Ok([]);
    }
    var (p, q) := found.value;
    MatchIndex(name, text, p, q);
    var m := text[p..q];
    var start := Index(text, m);
    var end := ScanDepth(text, start + |m|);
    ScanResult(name, text, p, q, end);
    if end + 1 > |text| {
      return Err(UnclosedStruct);
    }
    r := Ok(text[start..end + 1]);
  }

  /** With a header, FindStructBlock's result is the block of the first one. */
  lemma LocateFirst(name: string, text: string, p: nat, q: nat)
    requires FirstHeader(text, name) == Some((p, q))
    ensures p <= q <= |text| && LocateBlock(name, text) == BlockFrom(text, p, q)
  {
  }

  /** The result read off where the depth scan after the first header stopped. */
  lemma ScanResult(name: string, text: string, p: nat, q: nat, end: nat)
    requires FirstHeader(text, name) == Some((p, q)) && q <= end <= |text|
    requires FirstClose(text, q) == if end == |text| then None else Some(end)
    ensures LocateBlock(name, text) == if end == |text| then Err(UnclosedStruct) else Ok(text[p..end + 1])
  {
    LocateFirst(name, text, p, q);
  }

  /** The loop of FindStructBlock: a brace-depth counter that starts at 1 after
      the header and stops at the byte that brings it to 0; `end` is where it
      stopped, or the end of the text. */
  method ScanDepth(text: string, q: nat) returns (end: nat)
    requires q <= |text|
    ensures q <= end <= |text|
    ensures FirstClose(text, q) == if end == |text| then None else Some(end)
  {
    var height := 1;
    end := q;
    var i := q;
    while i < |text|
      invariant q <= i <= |text| && end == i
      invariant height == 1 + Balance(text[q..i])
      invariant forall k :: q <= k < i ==> DepthAfter(text, q, k) > 0
      invariant CloseFrom(text, q, i) == FirstClose(text, q)
    {
      CloseStep(text, q, i);
      if text[i] == '{' {
        height := height + 1;
      } else if text[i] == '}' {
        height := height - 1;
      }
      if height == 0 {
        break;
      }
      end := end + 1;
      i := i + 1;
    }
  }

  /** strings.Index finds the matched header text where the match starts: an
      earlier occurrence would be an earlier match. */
  lemma MatchIndex(name: string, text: string, p: nat, q: nat)
    requires LiteralName(name) && FirstHeader(text, name) == Some((p, q))
    ensures p < q <= |text| && Index(text, text[p..q]) == p
  {
    var m := text[p..q];
    MatchOfFirst(name, text, p, q);
    forall j | 0 <= j < p ensures !OccursAt(text, m, j) {
      NoEarlierCopy(name, text, p, q, j);
    }
    IndexIs(text, m, p);
  }

  /** A copy of the first header match that starts earlier would be an
      earlier match. */
  lemma NoEarlierCopy(name: string, text: string, p: nat, q: nat, j: nat)
    requires LiteralName(name) && FirstHeader(text, name) == Some((p, q))
    requires p <= q <= |text| && IsHeaderMatch(text[p..q], name) && j < p
    ensures !OccursAt(text, text[p..q], j)
  {
    if OccursAt(text, text[p..q], j) {
      assert text[j..j + (q - p)] == text[p..q];
      HeaderEndComplete(text, j, j + (q - p), name);
    }
  }

  lemma {:induction false} CountAbsent(s: string, c: char)
    requires c !in s
    ensures Count(s, c) == 0
  {
    if s != [] {
      assert c !in s[1..];
      CountAbsent(s[1..], c);
    }
  }

  /** A header match holds exactly one brace, the opening one at its end. */
  lemma HeaderBraces(t: string, name: string)
    requires LiteralName(name) && IsHeaderMatch(t, name)
    ensures Count(t, '{') == 1 && Count(t, '}') == 0
  {
    var a, b :| 0 <= a <= |t| && 0 <= b <= |t| && HeaderSplit(t, name, a, b);
    var u := t[..|t| - 1];
    forall k | 0 <= k < |u| ensures u[k] != '{' && u[k] != '}' {
      assert u[k] == t[k];
      HeaderCharNotBrace(t, name, a, b, k);
    }
    CountAbsent(u, '{');
    CountAbsent(u, '}');
    assert t == u + ['{'];
    CountAppend(u, ['{'], '{');
    CountAppend(u, ['{'], '}');
    assert ['{'][1..] == [];
  }

  /** A character of a header match before its last is not a brace. */
  lemma HeaderCharNotBrace(t: string, name: string, a: nat, b: nat, k: nat)
    requires LiteralName(name) && a <= |t| && b <= |t| && HeaderSplit(t, name, a, b)
    requires k < |t| - 1
    ensures t[k] != '{' && t[k] != '}'
  {
    if k < 4 {
      assert t[k] == t[..4][k];
    } else if k < a {
      assert t[k] == t[4..a][k - 4];
    } else if k < a + |name| {
      assert t[k] == t[a..a + |name|][k - a];
      assert name[k - a] !in "\\.+*?()|[]{}^$";
    } else if k < b {
      assert t[k] == t[a + |name|..b][k - a - |name|];
    } else if k < b + 6 {
      assert t[k] == t[b..b + 6][k - b];
    } else {
      assert t[k] == t[b + 6..|t| - 1][k - b - 6];
    }
  }

  /** Reading past a header leaves one brace open more than the text after it. */
  lemma PastHeader(name: string, text: string, p: nat, q: nat, j: nat)
    requires LiteralName(name) && p <= q <= j <= |text| && IsHeaderMatch(text[p..q], name)
    ensures Balance(text[p..j]) == 1 + Balance(text[q..j])
  {
    assert text[p..j] == text[p..q] + text[q..j];
    BalanceAppend(text[p..q], text[q..j]);
    HeaderBraces(text[p..q], name);
  }

  /** FindStructBlock returns "" exactly when the text holds no header. */
  lemma LocateBlockEmpty(name: string, text: string)
    requires LiteralName(name)
    ensures LocateBlock(name, text) == Ok([]) <==>
      forall p, q :: 0 <= p <= q <= |text| ==> !IsHeaderMatch(text[p..q], name)
  {
    FirstHeaderIsLeftmost(text, name);
  }

  /** `b` opens with a header match of length `h`, begins with "type", ends
      with "}", balances its braces and stays open at every cut past the header. */
  predicate ShapedBlock(b: string, h: nat, name: string) {
    && h < |b| && IsHeaderMatch(b[..h], name) && b[..4] == "type" && b[|b| - 1] == '}'
    && Count(b, '{') == Count(b, '}')
    && forall j :: h <= j < |b| ==> Count(b[..j], '{') > Count(b[..j], '}')
  }

  /** A block found after the first header text[p..q] is the text from the
      header through the first brace that balances it: it starts with the
      header, ends with '}', holds as many '{' as '}', and every shorter piece
      of it that takes in the whole header has more '{' than '}'. */
  lemma BlockShape(name: string, text: string, p: nat, q: nat)
    requires LiteralName(name) && FirstHeader(text, name) == Some((p, q)) && LocateBlock(name, text).Ok?
    ensures var b := LocateBlock(name, text).value;
      && p + |b| <= |text| && b == text[p..p + |b|] && ShapedBlock(b, q - p, name)
  {
    LocateFirst(name, text, p, q);
    MatchOfFirst(name, text, p, q);
    BlockFromShape(name, text, p, q);
  }

  /** The first header is a header match. */
  lemma MatchOfFirst(name: string, text: string, p: nat, q: nat)
    requires FirstHeader(text, name) == Some((p, q))
    ensures p <= q <= |text| && IsHeaderMatch(text[p..q], name)
  {
    HeaderEndSound(text, p, name);
  }

  /** BlockShape for a header text[p..q] that BlockFrom closes. */
  lemma BlockFromShape(name: string, text: string, p: nat, q: nat)
    requires LiteralName(name) && p <= q <= |text| && IsHeaderMatch(text[p..q], name)
    requires BlockFrom(text, p, q).Ok?
    ensures var b := BlockFrom(text, p, q).value;
      && p + |b| <= |text| && b == text[p..p + |b|] && ShapedBlock(b, q - p, name)
  {
    var k := FirstClose(text, q).value;
    assert BlockFrom(text, p, q).value == text[p..k + 1];
    ClosedBlock(name, text, p, q, k);
  }

  /** The facts of BlockShape for a header text[p..q] closed at k. */
  lemma ClosedBlock(name: string, text: string, p: nat, q: nat, k: nat)
    requires LiteralName(name) && p <= q <= k < |text| && IsHeaderMatch(text[p..q], name)
    requires DepthAfter(text, q, k) == 0
    requires forall i :: q <= i < k ==> DepthAfter(text, q, i) > 0
    ensures ShapedBlock(text[p..k + 1], q - p, name)
  {
    var b := text[p..k + 1];
    assert b[..q - p] == text[p..q];
    var a, c :| 0 <= a <= q - p && 0 <= c <= q - p && HeaderSplit(text[p..q], name, a, c);
    assert b[..4] == text[p..q][..4];
    CloseStep(text, q, k);
    assert b[|b| - 1] == text[k];
    PastHeader(name, text, p, q, k + 1);
    forall j | q - p <= j < |b| ensures Count(b[..j], '{') > Count(b[..j], '}') {
      PrefixOpen(name, text, p, q, k, j);
    }
  }

  lemma PrefixOpen(name: string, text: string, p: nat, q: nat, k: nat, j: nat)
    requires LiteralName(name) && p <= q <= k < |text| && IsHeaderMatch(text[p..q], name)
    requires forall i :: q <= i < k ==> DepthAfter(text, q, i) > 0
    requires q - p <= j <= k - p
    ensures Count(text[p..k + 1][..j], '{') > Count(text[p..k + 1][..j], '}')
  {
    assert text[p..k + 1][..j] == text[p..p + j];
    PastHeader(name, text, p, q, p + j);
    if p + j > q {
      assert DepthAfter(text, q, p + j - 1) > 0;
    } else {
      assert text[q..p + j] == [];
    }
  }

  /** FindStructBlock reports an unclosed struct exactly when there is a
      header and the braces after it never balance. */
  lemma UnclosedIff(name: string, text: string)
    requires LiteralName(name)
    ensures LocateBlock(name, text) == Err(UnclosedStruct) <==>
      && FirstHeader(text, name).Some?
      && var (p, q) := FirstHeader(text, name).value;
        forall j :: q <= j <= |text| ==> Balance(text[p..j]) > 0
  {
    if FirstHeader(text, name).Some? {
      var (p, q) := FirstHeader(text, name).value;
      HeaderEndSound(text, p, name);
      assert LocateBlock(name, text) == BlockFrom(text, p, q);
      UnclosedFrom(name, text, p, q);
    }
  }

  /** UnclosedIff for a header text[p..q]. */
  lemma UnclosedFrom(name: string, text: string, p: nat, q: nat)
    requires LiteralName(name) && p <= q <= |text| && IsHeaderMatch(text[p..q], name)
    ensures BlockFrom(text, p, q) == Err(UnclosedStruct) <==>
      forall j :: q <= j <= |text| ==> Balance(text[p..j]) > 0
  {
    if FirstClose(text, q).None? {
      forall j | q <= j <= |text| ensures Balance(text[p..j]) > 0 {
        PastHeader(name, text, p, q, j);
        if j > q {
          assert DepthAfter(text, q, j - 1) > 0;
        } else {
          assert text[q..j] == [];
        }
      }
    } else {
      var k := FirstClose(text, q).value;
      PastHeader(name, text, p, q, k + 1);
    }
  }
}
