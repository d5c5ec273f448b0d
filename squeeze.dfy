/** `squeeze` (main.go): collapse every run of one character to a single
    occurrence. */
module Squeeze {

  /** The squeezed text: `s` with every `c` that directly follows another `c`
      left out. */
  function Squeezed(s: string, c: char): string {
    if s == [] then []
    else if s[|s| - 1] == c && |s| >= 2 && s[|s| - 2] == c then Squeezed(s[..|s| - 1], c)
    else Squeezed(s[..|s| - 1], c) + [s[|s| - 1]]
  }

  /** `s` with every `c` removed. */
  function Without(s: string, c: char): string {
    if s == [] then []
    else Without(s[..|s| - 1], c) + (if s[|s| - 1] == c then [] else [s[|s| - 1]])
  }

  /** No two neighbouring characters of `s` are both `c`. */
  predicate NoDoubled(s: string, c: char) {
    forall i :: 0 <= i < |s| - 1 ==> !(s[i] == c && s[i + 1] == c)
  }

  /** The loop of `squeeze`: appends each character unless it is a `c` and the
      previous one was a `c` too, tracked by the toggling flag. */
  method Squeeze(s: string, c: char) returns (r: string)
    ensures r == Squeezed(s, c)
    ensures NoDoubled(r, c)
    ensures Without(r, c) == Without(s, c)
    ensures c !in s ==> r == s
  {
    r := [];
    var flag := false;
    var i := 0;
    while i < |s|
      invariant 0 <= i <= |s|
      invariant r == Squeezed(s[..i], c)
      invariant flag <==> i > 0 && s[i - 1] == c
    {
      var b := s[i];
      assert s[..i + 1][..i] == s[..i];
      if b != c {
        r := r + [b];
        if flag {
          flag := !flag;
        }
      } else if !flag {
        r := r + [b];
        flag := !flag;
      }
      i := i + 1;
    }
    assert s[..i] == s;
    SqueezedNoDoubled(s, c);
    SqueezedWithout(s, c);
    if c !in s {
      SqueezedIdentity(s, c);
    }
  }

  /** The squeezed text is empty exactly when the input is, and ends with the
      same character. */
  lemma {:induction false} SqueezedLast(s: string, c: char)
    ensures |Squeezed(s, c)| == 0 <==> |s| == 0
    ensures |s| > 0 ==> Squeezed(s, c)[|Squeezed(s, c)| - 1] == s[|s| - 1]
  {
    if s != [] {
      SqueezedLast(s[..|s| - 1], c);
    }
  }

  /** No run of `c` survives squeezing. */
  lemma {:induction false} SqueezedNoDoubled(s: string, c: char)
    ensures NoDoubled(Squeezed(s, c), c)
  {
    if s != [] {
      var p := s[..|s| - 1];
      SqueezedNoDoubled(p, c);
      SqueezedLast(p, c);
    }
  }

  /** Squeezing only removes occurrences of `c`: every other character stays,
      in order. */
  lemma {:induction false} SqueezedWithout(s: string, c: char)
    ensures Without(Squeezed(s, c), c) == Without(s, c)
  {
    if s != [] {
      var p := s[..|s| - 1];
      SqueezedWithout(p, c);
      var q := Squeezed(p, c);
      if !(s[|s| - 1] == c && |s| >= 2 && s[|s| - 2] == c) {
        assert (q + [s[|s| - 1]])[..|q|] == q;
      }
    }
  }

  /** A text without `c` is its own squeezed form. */
  lemma {:induction false} SqueezedIdentity(s: string, c: char)
    requires c !in s
    ensures Squeezed(s, c) == s
  {
    if s != [] {
      var p, last := s[..|s| - 1], s[|s| - 1];
      assert s == p + [last];
      assert last in s;
      SqueezedIdentity(p, c);
    }
  }

  /** Squeezing never lengthens the text. */
  lemma {:induction false} SqueezedShorter(s: string, c: char)
    ensures |Squeezed(s, c)| <= |s|
  {
    if s != [] {
      SqueezedShorter(s[..|s| - 1], c);
    }
  }

  /** Text without `c` after any prefix is kept whole. */
  lemma {:induction false} SqueezedAppendFree(a: string, b: string, c: char)
    requires c !in b
    ensures Squeezed(a + b, c) == Squeezed(a, c) + b
  {
    if b != [] {
      var b' := b[..|b| - 1];
      assert (a + b)[..|a + b| - 1] == a + b';
      assert c !in b' by {
        forall k | 0 <= k < |b'| ensures b'[k] != c { assert b'[k] == b[k]; }
      }
      SqueezedAppendFree(a, b', c);
      assert b' + [b[|b| - 1]] == b;
    } else {
      assert a + b == a;
    }
  }

  /** A run of `c` after a text that does not end in `c` becomes one `c`. */
  lemma {:induction false} SqueezedRun(a: string, run: string, c: char)
    requires a != [] && a[|a| - 1] != c
    requires run != [] && forall k :: 0 <= k < |run| ==> run[k] == c
    ensures Squeezed(a + run, c) == Squeezed(a, c) + [c]
  {
    var r' := run[..|run| - 1];
    assert (a + run)[..|a + run| - 1] == a + r';
    if r' != [] {
      SqueezedRun(a, r', c);
    }
  }
}
