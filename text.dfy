/**
 * The JavaScript string operations the app relies on, over `seq<char>`:
 * `split` and `join` with a non-empty separator, `trim`, `startsWith`,
 * `endsWith`, `includes`, and `replace` with a string pattern (first
 * occurrence only).
 */
module JsString {

  /** A character removed by `String.prototype.trim` and matched by the regex
      class `\s`: the ECMAScript WhiteSpace and LineTerminator code points. */
  predicate IsWhitespace(c: char) {
    || c == ' ' || c == '\t' || c == '\n' || c == '\r' || c == '\U{B}' || c == '\U{C}'
    || c == '\U{A0}' || c == '\U{1680}' || ('\U{2000}' <= c <= '\U{200A}')
    || c == '\U{2028}' || c == '\U{2029}' || c == '\U{202F}' || c == '\U{205F}'
    || c == '\U{3000}' || c == '\U{FEFF}'
  }

  predicate AllWhitespace(s: string) {
    forall i :: 0 <= i < |s| ==> IsWhitespace(s[i])
  }

  /** `s.startsWith(p)` */
  predicate StartsWith(s: string, p: string) {
    |p| <= |s| && s[..|p|] == p
  }

  /** `s.endsWith(p)` */
  predicate EndsWith(s: string, p: string) {
    |p| <= |s| && s[|s| - |p|..] == p
  }

  /** `s.includes(p)`: some suffix of `s` starts with `p`. */
  predicate Contains(s: string, p: string)
    ensures Contains(s, p) ==> |p| <= |s|
    decreases |s|
  {
    StartsWith(s, p) || (|s| > 0 && Contains(s[1..], p))
  }

  /** `Contains` agrees with the positional reading "p occurs at some index". */
  lemma {:induction false} ContainsAt(s: string, p: string, i: nat)
    requires i + |p| <= |s| && s[i..i + |p|] == p
    ensures Contains(s, p)
    decreases i
  {
    if i > 0 {
      assert s[1..][i - 1..i - 1 + |p|] == s[i..i + |p|];
      ContainsAt(s[1..], p, i - 1);
    }
  }

  /** `p` occurs in `s` at index `i`. */
  predicate OccursAt(s: string, p: string, i: nat) {
    i + |p| <= |s| && s[i..i + |p|] == p
  }

  /** The converse of `ContainsAt` too: `includes` means exactly "occurs at
      some index". */
  lemma {:induction false} ContainsOccurs(s: string, p: string)
    ensures Contains(s, p) <==> exists i: nat :: OccursAt(s, p, i)
    decreases |s|
  {
    if exists i: nat :: OccursAt(s, p, i) {
      var i: nat :| OccursAt(s, p, i);
      ContainsAt(s, p, i);
    }
    if Contains(s, p) {
      if StartsWith(s, p) {
        assert OccursAt(s, p, 0);
      } else {
        ContainsOccurs(s[1..], p);
        var i: nat :| OccursAt(s[1..], p, i);
        assert s[1..][i..i + |p|] == s[i + 1..i + 1 + |p|];
        assert OccursAt(s, p, i + 1);
      }
    }
  }

  /** A prefix that cannot start an occurrence of `p` can be skipped when
      looking for `p`. */
  lemma {:induction false} ContainsSkip(x: string, y: string, p: string)
    requires |p| > 0 && p[0] !in x
    ensures Contains(x + y, p) <==> Contains(y, p)
    decreases |x|
  {
    if |x| > 0 {
      assert (x + y)[0] == x[0];
      assert !StartsWith(x + y, p);
      assert (x + y)[1..] == x[1..] + y;
      ContainsSkip(x[1..], y, p);
    } else {
      assert x + y == y;
    }
  }

  /** Number of occurrences of `sep` met by a left-to-right scan that resumes
      after each occurrence it finds (non-overlapping). */
  function Count(s: string, sep: string): nat
    requires |sep| > 0
    decreases |s|
  {
    if |s| < |sep| then 0
    else if s[..|sep|] == sep then 1 + Count(s[|sep|..], sep)
    else Count(s[1..], sep)
  }

  /** `s.split(sep)` for a non-empty separator: the pieces between the
      occurrences found by the same scan as `Count`. */
  function Split(s: string, sep: string): (r: seq<string>)
    requires |sep| > 0
    ensures |r| == Count(s, sep) + 1
    decreases |s|
  {
    if |s| < |sep| then [s]
    else if s[..|sep|] == sep then [""] + Split(s[|sep|..], sep)
    else
      var rest := Split(s[1..], sep);
      [[s[0]] + rest[0]] + rest[1..]
  }

  /** `parts.join(sep)` */
  function Join(parts: seq<string>, sep: string): string
    decreases |parts|
  {
    if |parts| == 0 then ""
    else if |parts| == 1 then parts[0]
    else parts[0] + sep + Join(parts[1..], sep)
  }

  /** Joining the pieces of a split with the same separator restores the
      string: `split` loses nothing. */
  lemma {:induction false} JoinSplit(s: string, sep: string)
    requires |sep| > 0
    ensures Join(Split(s, sep), sep) == s
    decreases |s|
  {
    if |s| < |sep| {
    } else if s[..|sep|] == sep {
      JoinSplit(s[|sep|..], sep);
      JoinSplitAtSeparator(s, sep);
    } else {
      JoinSplit(s[1..], sep);
      JoinSplitPastChar(s, sep);
    }
  }

  /** No piece, extended by a proper prefix of the separator, holds the
      separator, and the last piece holds none. */
  predicate LeftmostPieces(r: seq<string>, sep: string)
    requires |r| > 0 && |sep| > 0
  {
    && !Contains(r[|r| - 1], sep)
    && forall i :: 0 <= i < |r| - 1 ==> !Contains(r[i] + sep[..|sep| - 1], sep)
  }

  /** Each cut of `split` is at the leftmost remaining occurrence.  With
      `JoinSplit` this determines the pieces. */
  lemma {:induction false} SplitLeftmost(s: string, sep: string)
    requires |sep| > 0
    ensures LeftmostPieces(Split(s, sep), sep)
    decreases |s|
  {
    if |s| < |sep| {
    } else if s[..|sep|] == sep {
      SplitLeftmost(s[|sep|..], sep);
      LeftmostAtSeparator(Split(s[|sep|..], sep), sep);
    } else {
      var rest := Split(s[1..], sep);
      SplitLeftmost(s[1..], sep);
      JoinSplit(s[1..], sep);
      LeftmostPastChar(s, rest, sep);
      assert Split(s, sep) == [[s[0]] + rest[0]] + rest[1..];
    }
  }

  /** An empty first piece keeps the property. */
  lemma LeftmostAtSeparator(rest: seq<string>, sep: string)
    requires |rest| > 0 && |sep| > 0 && LeftmostPieces(rest, sep)
    ensures LeftmostPieces([""] + rest, sep)
  {
    var short := sep[..|sep| - 1];
    assert "" + short == short;
    assert !Contains(short, sep);
  }

  /** A first character the scan passed over joins the first piece. */
  lemma LeftmostPastChar(s: string, rest: seq<string>, sep: string)
    requires |sep| > 0 && |s| >= |sep| && s[..|sep|] != sep
    requires |rest| > 0 && LeftmostPieces(rest, sep) && Join(rest, sep) == s[1..]
    ensures LeftmostPieces([[s[0]] + rest[0]] + rest[1..], sep)
  {
    if |rest| == 1 {
      LeftmostLastPiece(s, rest[0], sep);
      assert [[s[0]] + rest[0]] + rest[1..] == [[s[0]] + rest[0]];
    } else {
      LeftmostMany(s, rest, Join(rest[1..], sep), sep);
    }
  }

  lemma LeftmostLastPiece(s: string, p0: string, sep: string)
    requires |sep| > 0 && |s| >= |sep| && s[..|sep|] != sep
    requires s[1..] == p0 && !Contains(p0, sep)
    ensures LeftmostPieces([[s[0]] + p0], sep)
  {
    assert [s[0]] + p0 == s;
    assert !StartsWith(s, sep);
  }

  lemma LeftmostMany(s: string, rest: seq<string>, more: string, sep: string)
    requires |sep| > 0 && |s| >= |sep| && s[..|sep|] != sep
    requires |rest| > 1 && LeftmostPieces(rest, sep) && s[1..] == rest[0] + sep + more
    ensures LeftmostPieces([[s[0]] + rest[0]] + rest[1..], sep)
  {
    var r := [[s[0]] + rest[0]] + rest[1..];
    HeadPieceClean(s, rest[0], more, sep);
    assert r[|r| - 1] == rest[|rest| - 1];
    forall i | 1 <= i < |r| - 1
      ensures !Contains(r[i] + sep[..|sep| - 1], sep)
    {
      assert r[i] == rest[i];
    }
  }

  /** A first piece that the scan passed over holds no early occurrence. */
  lemma HeadPieceClean(s: string, p0: string, more: string, sep: string)
    requires |sep| > 0 && |s| >= |sep| && s[..|sep|] != sep
    requires s[1..] == p0 + sep + more
    requires !Contains(p0 + sep[..|sep| - 1], sep)
    ensures !Contains([s[0]] + p0 + sep[..|sep| - 1], sep)
  {
    var short := sep[..|sep| - 1];
    var head := [s[0]] + p0;
    assert sep == short + [sep[|sep| - 1]];
    assert s == (head + short) + ([sep[|sep| - 1]] + more);
    if StartsWith(head + short, sep) {
      StartsWithExtend(head + short, [sep[|sep| - 1]] + more, sep);
    }
    assert (head + short)[1..] == p0 + short;
  }

  lemma StartsWithExtend(p: string, q: string, sep: string)
    requires StartsWith(p, sep)
    ensures StartsWith(p + q, sep)
  {
    assert (p + q)[..|sep|] == p[..|sep|];
  }

  lemma JoinSplitAtSeparator(s: string, sep: string)
    requires |sep| > 0 && |s| >= |sep| && s[..|sep|] == sep
    requires Join(Split(s[|sep|..], sep), sep) == s[|sep|..]
    ensures Join(Split(s, sep), sep) == s
  {
    JoinSplitLeadingSeparator(s, sep);
    assert s == s[..|sep|] + s[|sep|..];
  }

  /** A leading separator comes back in front of the join of the rest. */
  lemma JoinSplitLeadingSeparator(s: string, sep: string)
    requires |sep| > 0 && |s| >= |sep| && s[..|sep|] == sep
    ensures Join(Split(s, sep), sep) == sep + Join(Split(s[|sep|..], sep), sep)
  {
    JoinEmptyFirst(Split(s[|sep|..], sep), sep);
  }

  /** An empty first part leaves only its separator behind. */
  lemma JoinEmptyFirst(rest: seq<string>, sep: string)
    requires |rest| > 0
    ensures Join([""] + rest, sep) == sep + Join(rest, sep)
  {
    assert ([""] + rest)[1..] == rest;
    assert "" + sep == sep;
  }

  lemma JoinSplitPastChar(s: string, sep: string)
    requires |sep| > 0 && |s| >= |sep| && s[..|sep|] != sep
    requires Join(Split(s[1..], sep), sep) == s[1..]
    ensures Join(Split(s, sep), sep) == s
  {
    var rest := Split(s[1..], sep);
    assert Split(s, sep) == [[s[0]] + rest[0]] + rest[1..];
    JoinConsFirst(s[0], rest, sep);
    assert s == [s[0]] + s[1..];
  }

  /** Prepending a character to the first part prepends it to the join. */
  lemma JoinConsFirst(c: char, parts: seq<string>, sep: string)
    requires |parts| > 0
    ensures Join([[c] + parts[0]] + parts[1..], sep) == [c] + Join(parts, sep)
  {
    var r := [[c] + parts[0]] + parts[1..];
    if |parts| > 1 {
      var tail := Join(parts[1..], sep);
      assert r[1..] == parts[1..];
      AppendAssoc([c] + parts[0], sep, tail);
      AppendAssoc([c], parts[0], sep + tail);
      AppendAssoc(parts[0], sep, tail);
    }
  }

  lemma AppendAssoc(a: string, b: string, c: string)
    ensures (a + b) + c == a + (b + c)
  {
  }

  /** A string in which `sep` does not occur splits into itself alone. */
  lemma {:induction false} SplitNoSeparator(s: string, sep: string)
    requires |sep| > 0 && !Contains(s, sep)
    ensures Split(s, sep) == [s]
    decreases |s|
  {
    if |s| >= |sep| {
      SplitNoSeparator(s[1..], sep);
      assert [s[0]] + s[1..] == s;
    }
  }

  /** A string without the separator's first character splits into itself. */
  lemma SplitWithoutSeparatorStart(s: string, sep: string)
    requires |sep| > 0 && sep[0] !in s
    ensures Split(s, sep) == [s]
  {
    ContainsSkip(s, "", sep);
    assert s + "" == s;
    SplitNoSeparator(s, sep);
  }

  /** Splitting on a one-character separator at its first occurrence. */
  lemma {:induction false} SplitAtFirst(a: string, c: char, b: string)
    requires c !in a
    ensures Split(a + [c] + b, [c]) == [a] + Split(b, [c])
    decreases |a|
  {
    if |a| > 0 {
      var s := a + [c] + b;
      assert s[..1] == [a[0]] && a[0] != c;
      assert s[1..] == a[1..] + [c] + b;
      SplitAtFirst(a[1..], c, b);
      assert [a[0]] + a[1..] == a;
    } else {
      assert a + [c] + b == [c] + b;
      assert ([c] + b)[1..] == b;
    }
  }

  /** `s` with its leading whitespace removed. */
  function TrimStart(s: string): (r: string)
    ensures |r| <= |s|
    decreases |s|
  {
    if |s| > 0 && IsWhitespace(s[0]) then TrimStart(s[1..]) else s
  }

  /** `TrimStart` drops exactly the longest whitespace prefix. */
  lemma {:induction false} TrimStartShape(s: string)
    ensures var r := TrimStart(s);
      && r == s[|s| - |r|..]
      && AllWhitespace(s[..|s| - |r|])
      && (r == [] || !IsWhitespace(r[0]))
    decreases |s|
  {
    if |s| > 0 && IsWhitespace(s[0]) {
      TrimStartShape(s[1..]);
      var r := TrimStart(s[1..]);
      assert s[1..][|s| - 1 - |r|..] == s[|s| - |r|..];
      forall i | 0 <= i < |s| - |r| ensures IsWhitespace(s[i]) {
        if i > 0 {
          assert s[1..][..|s| - 1 - |r|][i - 1] == s[i];
        }
      }
    }
  }

  /** `s` with its trailing whitespace removed. */
  function TrimEnd(s: string): (r: string)
    ensures |r| <= |s|
    decreases |s|
  {
    if |s| > 0 && IsWhitespace(s[|s| - 1]) then TrimEnd(s[..|s| - 1]) else s
  }

  /** `TrimEnd` drops exactly the longest whitespace suffix. */
  lemma {:induction false} TrimEndShape(s: string)
    ensures var r := TrimEnd(s);
      && r == s[..|r|]
      && AllWhitespace(s[|r|..])
      && (r == [] || !IsWhitespace(r[|r| - 1]))
    decreases |s|
  {
    if |s| > 0 && IsWhitespace(s[|s| - 1]) {
      var p := s[..|s| - 1];
      TrimEndShape(p);
      var r := TrimEnd(p);
      assert p[..|r|] == s[..|r|];
      forall i | |r| <= i < |s| ensures IsWhitespace(s[i]) {
        if i < |s| - 1 {
          assert p[|r|..][i - |r|] == s[i];
        }
      }
    }
  }

  /** `s.trim()`: the longest whitespace prefix and suffix removed. */
  function Trim(s: string): (r: string)
    ensures |r| <= |s|
  {
    TrimEnd(TrimStart(s))
  }

  /** The trim has no whitespace at either end, and it is empty exactly when
      the string is all whitespace. */
  lemma TrimShape(s: string)
    ensures var r := Trim(s);
      && (r != [] ==> !IsWhitespace(r[0]) && !IsWhitespace(r[|r| - 1]))
      && (r == [] <==> AllWhitespace(s))
  {
    var t := TrimStart(s);
    var r := TrimEnd(t);
    TrimStartShape(s);
    TrimEndShape(t);
    if r == [] {
      assert t[|r|..] == t;
      assert t == [];
      assert s[..|s| - |t|] == s;
    }
    if AllWhitespace(s) {
      assert t == [];
    }
    if r != [] {
      assert r[0] == t[0];
    }
  }

  /** A string with no whitespace at either end is its own trim. */
  lemma TrimOfTrimmed(s: string)
    requires s == [] || (!IsWhitespace(s[0]) && !IsWhitespace(s[|s| - 1]))
    ensures Trim(s) == s
  {
  }

  /** `s.replace(pat, '')` with a string pattern: deletes the first
      occurrence of `pat`, if there is one. */
  function RemoveFirst(s: string, pat: string): string
    requires |pat| > 0
    decreases |s|
  {
    if |s| < |pat| then s
    else if s[..|pat|] == pat then s[|pat|..]
    else [s[0]] + RemoveFirst(s[1..], pat)
  }

  /** With the pattern at the start the rest of the string remains; without
      any occurrence nothing changes; otherwise exactly one occurrence's
      worth of characters goes. */
  lemma {:induction false} RemoveFirstShape(s: string, pat: string)
    requires |pat| > 0
    ensures StartsWith(s, pat) ==> RemoveFirst(s, pat) == s[|pat|..]
    ensures !Contains(s, pat) ==> RemoveFirst(s, pat) == s
    ensures Contains(s, pat) ==> |RemoveFirst(s, pat)| == |s| - |pat|
    decreases |s|
  {
    if |s| >= |pat| && s[..|pat|] != pat {
      RemoveFirstShape(s[1..], pat);
    }
  }
}
