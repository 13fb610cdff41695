/** The string primitives the persistence service relies on: `String.trim()`
    (which is what `StringUtils.trimToEmpty` applies to a non-null string),
    `replaceAll("\\s+", " ")`, `startsWith` and `contains`. */
module Text {

  /** `String.trim()` removes every leading and trailing character whose code
      is at most U+0020 (space and all control characters below it). */
  predicate IsTrimSpace(c: char) {
    c <= ' '
  }

  /** The regular-expression class `\s`: space, tab, line feed, vertical tab,
      form feed and carriage return. */
  predicate IsRegexSpace(c: char) {
    c == ' ' || c == '\t' || c == '\n' || c == '\r' || c as int == 0x0B || c as int == 0x0C
  }

  predicate AllTrimSpace(s: string) {
    forall i :: 0 <= i < |s| ==> IsTrimSpace(s[i])
  }

  /** Neither end of `s` is a character that `trim()` would remove. */
  predicate IsTrimmed(s: string) {
    s == [] || (!IsTrimSpace(s[0]) && !IsTrimSpace(s[|s| - 1]))
  }

  predicate StartsWith(s: string, prefix: string) {
    |prefix| <= |s| && s[..|prefix|] == prefix
  }

  /** Drops the leading characters `trim()` removes. */
  function TrimStart(s: string): string
    decreases |s|
  {
    if s != [] && IsTrimSpace(s[0]) then TrimStart(s[1..]) else s
  }

  /** Drops the trailing characters `trim()` removes. */
  function TrimEnd(s: string): string
    decreases |s|
  {
    if s != [] && IsTrimSpace(s[|s| - 1]) then TrimEnd(s[..|s| - 1]) else s
  }

  /** `TrimStart` keeps a suffix, drops only characters `trim()` removes,
      and stops at the first one it keeps. */
  lemma {:induction false} TrimStartSplits(s: string)
    ensures var r := TrimStart(s);
      && |r| <= |s| && r == s[|s| - |r|..]
      && AllTrimSpace(s[..|s| - |r|])
      && (r == [] || !IsTrimSpace(r[0]))
    decreases |s|
  {
    if s != [] && IsTrimSpace(s[0]) {
      TrimStartSplits(s[1..]);
      var r := TrimStart(s[1..]);
      assert s[..|s| - |r|] == [s[0]] + s[1..][..|s| - 1 - |r|];
      AllTrimSpaceConcat([s[0]], s[1..][..|s| - 1 - |r|]);
    }
  }

  /** `TrimEnd` keeps a prefix, drops only characters `trim()` removes, and
      stops at the last one it keeps. */
  lemma {:induction false} TrimEndSplits(s: string)
    ensures var r := TrimEnd(s);
      && |r| <= |s| && r == s[..|r|]
      && AllTrimSpace(s[|r|..])
      && (r == [] || !IsTrimSpace(r[|r| - 1]))
    decreases |s|
  {
    if s != [] && IsTrimSpace(s[|s| - 1]) {
      TrimEndSplits(s[..|s| - 1]);
      var r := TrimEnd(s[..|s| - 1]);
      assert s[|r|..] == s[..|s| - 1][|r|..] + [s[|s| - 1]];
      AllTrimSpaceConcat(s[..|s| - 1][|r|..], [s[|s| - 1]]);
    }
  }

  /** `String.trim()`: the longest infix of `s` that neither starts nor ends
      with a character at most U+0020, everything around it being such
      characters. */
  function Trim(s: string): (r: string)
    ensures IsTrimmed(r)
    ensures exists i :: 0 <= i <= |s| - |r| && r == s[i..i + |r|] && AllTrimSpace(s[..i]) && AllTrimSpace(s[i + |r|..])
  {
    var t := TrimStart(s);
    TrimStartSplits(s);
    var r := TrimEnd(t);
    TrimEndSplits(t);
    var i := |s| - |t|;
    assert s[i..i + |r|] == t[..|r|];
    assert s[i + |r|..] == t[|r|..];
    r
  }

  /** A string made only of characters `trim()` removes trims to the empty
      string, and only such a string does. */
  lemma TrimEmptyIff(s: string)
    ensures Trim(s) == [] <==> AllTrimSpace(s)
  {
    var r := Trim(s);
    var i :| 0 <= i <= |s| - |r| && r == s[i..i + |r|] && AllTrimSpace(s[..i]) && AllTrimSpace(s[i + |r|..]);
    if r == [] {
      forall k | 0 <= k < |s| ensures IsTrimSpace(s[k]) {
        if k < i { assert s[k] == s[..i][k]; } else { assert s[k] == s[i..][k - i]; }
      }
    } else {
      assert r[0] == s[i];
    }
  }

  /** Trimming a string that is already trimmed leaves it unchanged. */
  lemma TrimOfTrimmed(s: string)
    requires IsTrimmed(s)
    ensures Trim(s) == s
  {
  }

  /** Leading characters that `trim()` removes make no difference. */
  lemma {:induction false} TrimSkipsLeadingSpace(ws: string, t: string)
    requires AllTrimSpace(ws)
    ensures Trim(ws + t) == Trim(t)
    decreases |ws|
  {
    if ws != [] {
      assert (ws + t)[1..] == ws[1..] + t;
      assert TrimStart(ws + t) == TrimStart(ws[1..] + t);
      TrimSkipsLeadingSpace(ws[1..], t);
    } else {
      assert ws + t == t;
    }
  }

  /** Trimming a string that starts with two characters above U+0020 keeps
      those two characters at its front. */
  lemma TrimKeepsVisiblePrefix(t: string, prefix: string)
    requires |prefix| == 2 && StartsWith(t, prefix)
    requires !IsTrimSpace(prefix[0]) && !IsTrimSpace(prefix[1])
    ensures StartsWith(Trim(t), prefix)
  {
    assert t[0] == prefix[0] && t[1] == prefix[1];
    assert TrimStart(t) == t;
    TrimEndSplits(t);
    var r := TrimEnd(t);
    assert r[..2] == t[..2];
  }

  /** Drops the leading run of `\s` characters. */
  function DropRegexSpaces(s: string): (r: string)
    ensures |r| <= |s| && r == s[|s| - |r|..]
    ensures forall i :: 0 <= i < |s| - |r| ==> IsRegexSpace(s[i])
    ensures r == [] || !IsRegexSpace(r[0])
    decreases |s|
  {
    if s != [] && IsRegexSpace(s[0]) then DropRegexSpaces(s[1..]) else s
  }

  /** The character at `i` is not a `\s` character, or it is a plain space
      and the next one (if any) is not a `\s` character. */
  predicate CollapsedAt(s: string, i: int)
    requires 0 <= i < |s|
  {
    IsRegexSpace(s[i]) ==> s[i] == ' ' && (i + 1 == |s| || !IsRegexSpace(s[i + 1]))
  }

  /** No run of two or more `\s` characters, and no `\s` character other
      than a plain space. */
  predicate WhitespaceCollapsed(s: string) {
    forall i :: 0 <= i < |s| ==> CollapsedAt(s, i)
  }

  /** The characters of `s` that are not `\s`, in order. */
  function NonSpace(s: string): string {
    if s == [] then []
    else (if IsRegexSpace(s[0]) then [] else [s[0]]) + NonSpace(s[1..])
  }

  /** `replaceAll("\\s+", " ")`: every maximal run of `\s` characters becomes
      one space. The result has no run of `\s` characters and no `\s`
      character other than a plain space, and it starts with one exactly
      when the input does. */
  function Collapse(s: string): (r: string)
    ensures WhitespaceCollapsed(r)
    ensures (r != [] && IsRegexSpace(r[0])) <==> (s != [] && IsRegexSpace(s[0]))
    decreases |s|
  {
    if s == [] then []
    else if IsRegexSpace(s[0]) then
      var rest := Collapse(DropRegexSpaces(s[1..]));
      CollapsedCons(' ', rest);
      [' '] + rest
    else
      var rest := Collapse(s[1..]);
      CollapsedCons(s[0], rest);
      [s[0]] + rest
  }

  /** Putting a plain space in front of a collapsed string that does not
      start with whitespace, or any other character in front of any
      collapsed string, keeps it collapsed. */
  lemma CollapsedCons(c: char, t: string)
    requires WhitespaceCollapsed(t)
    requires IsRegexSpace(c) ==> c == ' ' && (t == [] || !IsRegexSpace(t[0]))
    ensures WhitespaceCollapsed([c] + t)
  {
    var s := [c] + t;
    forall i | 0 <= i < |s| ensures CollapsedAt(s, i) {
      if i > 0 {
        assert s[i] == t[i - 1];
        assert CollapsedAt(t, i - 1);
        if i + 1 < |s| { assert s[i + 1] == t[i]; }
      }
    }
  }

  lemma CollapsedTail(s: string)
    requires s != [] && WhitespaceCollapsed(s)
    ensures WhitespaceCollapsed(s[1..])
    ensures IsRegexSpace(s[0]) ==> s[0] == ' ' && (|s| == 1 || !IsRegexSpace(s[1]))
  {
    var t := s[1..];
    forall i | 0 <= i < |t| ensures CollapsedAt(t, i) {
      assert CollapsedAt(s, i + 1);
    }
    assert CollapsedAt(s, 0);
  }

  lemma AllTrimSpaceCons(s: string)
    requires s != []
    ensures AllTrimSpace(s) <==> IsTrimSpace(s[0]) && AllTrimSpace(s[1..])
  {
    assert s == [s[0]] + s[1..];
    AllTrimSpaceConcat([s[0]], s[1..]);
  }

  /** Dropping a run of `\s` characters does not change whether a string is
      blank for `trim()`. */
  lemma DropKeepsBlankness(s: string)
    ensures AllTrimSpace(DropRegexSpaces(s)) <==> AllTrimSpace(s)
  {
    var rest := DropRegexSpaces(s);
    var n := |s| - |rest|;
    assert s == s[..n] + rest;
    forall k | 0 <= k < n ensures IsTrimSpace(s[..n][k]) {
      assert IsRegexSpace(s[k]);
    }
    AllTrimSpaceConcat(s[..n], rest);
  }

  /** Every `\s` character is one that `trim()` removes, so collapsing
      whitespace leaves a string blank for `trim()` exactly when it was. */
  lemma {:induction false} CollapseKeepsBlankness(s: string)
    ensures AllTrimSpace(Collapse(s)) <==> AllTrimSpace(s)
    decreases |s|
  {
    if s != [] {
      AllTrimSpaceCons(s);
      AllTrimSpaceCons(Collapse(s));
      if IsRegexSpace(s[0]) {
        var rest := DropRegexSpaces(s[1..]);
        DropKeepsBlankness(s[1..]);
        CollapseKeepsBlankness(rest);
        assert Collapse(s)[1..] == Collapse(rest);
      } else {
        CollapseKeepsBlankness(s[1..]);
        assert Collapse(s)[1..] == Collapse(s[1..]);
      }
    }
  }

  lemma AllTrimSpaceConcat(a: string, b: string)
    ensures AllTrimSpace(a + b) <==> AllTrimSpace(a) && AllTrimSpace(b)
  {
    if AllTrimSpace(a) && AllTrimSpace(b) {
      forall k | 0 <= k < |a + b| ensures IsTrimSpace((a + b)[k]) {
        if k >= |a| { assert (a + b)[k] == b[k - |a|]; }
      }
    }
    if AllTrimSpace(a + b) {
      forall k | 0 <= k < |a| ensures IsTrimSpace(a[k]) {
        assert (a + b)[k] == a[k];
      }
      forall k | 0 <= k < |b| ensures IsTrimSpace(b[k]) {
        assert (a + b)[|a| + k] == b[k];
      }
    }
  }

  lemma {:induction false} NonSpaceConcat(a: string, b: string)
    ensures NonSpace(a + b) == NonSpace(a) + NonSpace(b)
    decreases |a|
  {
    if a == [] {
      assert a + b == b;
    } else {
      assert (a + b)[1..] == a[1..] + b;
      NonSpaceConcat(a[1..], b);
    }
  }

  lemma {:induction false} NonSpaceOfSpaces(s: string)
    requires forall i :: 0 <= i < |s| ==> IsRegexSpace(s[i])
    ensures NonSpace(s) == []
    decreases |s|
  {
    if s != [] {
      NonSpaceOfSpaces(s[1..]);
    }
  }

  /** Collapsing whitespace keeps every other character, in order. */
  lemma {:induction false} CollapseKeepsNonSpace(s: string)
    ensures NonSpace(Collapse(s)) == NonSpace(s)
    decreases |s|
  {
    if s != [] {
      if IsRegexSpace(s[0]) {
        var rest := DropRegexSpaces(s[1..]);
        var n := |s| - 1 - |rest|;
        assert s[1..] == s[1..][..n] + rest;
        NonSpaceConcat(s[1..][..n], rest);
        NonSpaceOfSpaces(s[1..][..n]);
        NonSpaceConcat([' '], Collapse(rest));
        CollapseKeepsNonSpace(rest);
      } else {
        NonSpaceConcat([s[0]], Collapse(s[1..]));
        CollapseKeepsNonSpace(s[1..]);
      }
    }
  }

  /** A string with no run of `\s` characters and no `\s` character other
      than a plain space is left as it is. */
  lemma {:induction false} CollapseFixpoint(s: string)
    requires WhitespaceCollapsed(s)
    ensures Collapse(s) == s
    decreases |s|
  {
    if s != [] {
      CollapsedTail(s);
      CollapseFixpoint(s[1..]);
      if IsRegexSpace(s[0]) {
        assert DropRegexSpaces(s[1..]) == s[1..];
        assert s == [' '] + s[1..];
      } else {
        assert s == [s[0]] + s[1..];
      }
    }
  }

  /** Collapsing twice is collapsing once. */
  lemma CollapseIdempotent(s: string)
    ensures Collapse(Collapse(s)) == Collapse(s)
  {
    CollapseFixpoint(Collapse(s));
  }

  /** Dropping the leading `\s` characters of a run followed by a string
      that does not start with one leaves exactly that string. */
  lemma {:induction false} DropRegexSpacesRun(w: string, b: string)
    requires forall i :: 0 <= i < |w| ==> IsRegexSpace(w[i])
    requires b == [] || !IsRegexSpace(b[0])
    ensures DropRegexSpaces(w + b) == b
    decreases |w|
  {
    if w == [] {
      assert w + b == b;
    } else {
      assert (w + b)[0] == w[0];
      assert (w + b)[1..] == w[1..] + b;
      DropRegexSpacesRun(w[1..], b);
    }
  }

  /** A maximal run of `\s` characters becomes exactly one space. */
  lemma CollapseRun(w: string, b: string)
    requires w != [] && forall i :: 0 <= i < |w| ==> IsRegexSpace(w[i])
    requires b == [] || !IsRegexSpace(b[0])
    ensures Collapse(w + b) == [' '] + Collapse(b)
  {
    assert (w + b)[0] == w[0];
    assert (w + b)[1..] == w[1..] + b;
    DropRegexSpacesRun(w[1..], b);
  }

  /** A character that is not `\s` is kept as it is. */
  lemma CollapseKeepsVisible(c: char, b: string)
    requires !IsRegexSpace(c)
    ensures Collapse([c] + b) == [c] + Collapse(b)
  {
    assert ([c] + b)[1..] == b;
  }

  /** `sub` occurs in `s` starting at index `i`. */
  predicate OccursAt(s: string, sub: string, i: int) {
    0 <= i <= |s| - |sub| && s[i..i + |sub|] == sub
  }

  /** `contains`: whether `sub` occurs in `s`, looking at each start
      position from the left. */
  function Contains(s: string, sub: string): bool
    decreases |s|
  {
    if |sub| > |s| then false
    else if s[..|sub|] == sub then true
    else Contains(s[1..], sub)
  }

  /** `Contains` holds exactly when `sub` occurs at some position of `s`. */
  lemma {:induction false} ContainsIff(s: string, sub: string)
    ensures Contains(s, sub) <==> exists i :: OccursAt(s, sub, i)
    decreases |s|
  {
    if |sub| > |s| {
    } else if s[..|sub|] == sub {
      assert OccursAt(s, sub, 0);
    } else {
      ContainsIff(s[1..], sub);
      if Contains(s[1..], sub) {
        var j :| OccursAt(s[1..], sub, j);
        assert s[j + 1..j + 1 + |sub|] == s[1..][j..j + |sub|];
        assert OccursAt(s, sub, j + 1);
      }
      if exists i :: OccursAt(s, sub, i) {
        var i :| OccursAt(s, sub, i);
        assert i != 0;
        assert s[1..][i - 1..i - 1 + |sub|] == s[i..i + |sub|];
        assert OccursAt(s[1..], sub, i - 1);
      }
    }
  }
}
