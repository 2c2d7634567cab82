/**
 * Prompt resolution (App.tsx): the form values of the selected prompt, kept
 * as a JavaScript object whose entries come back in insertion order, and the
 * substitution of every `[field]` token of the prompt template by the value
 * typed for that field, one field after another.
 */
module Template {
  import opened JsString
  import opened Optional

  /** One entry of `formValues`: a field name and the text typed for it. */
  type Entry = (string, string)

  function Keys(entries: seq<Entry>): (ks: seq<string>)
    ensures |ks| == |entries|
    decreases |entries|
  {
    if |entries| == 0 then [] else [entries[0].0] + Keys(entries[1..])
  }

  predicate Distinct(s: seq<string>) {
    forall i, j :: 0 <= i < j < |s| ==> s[i] != s[j]
  }

  /** `formValues[k]`, or `None` for a field the object does not hold. */
  function Lookup(entries: seq<Entry>, k: string): Option<string>
    decreases |entries|
  {
    if |entries| == 0 then None
    else if entries[0].0 == k then Some(entries[0].1)
    else Lookup(entries[1..], k)
  }

  /** `{ ...entries, [k]: v }`: an existing field keeps its place and gets the
      new value; a new field is added after all the others. */
  function SetField(entries: seq<Entry>, k: string, v: string): (r: seq<Entry>)
    ensures Lookup(r, k) == Some(v)
    ensures forall k' :: k' != k ==> Lookup(r, k') == Lookup(entries, k')
    ensures Keys(r) == if k in Keys(entries) then Keys(entries) else Keys(entries) + [k]
    ensures forall e :: e in r ==> e == (k, v) || e in entries
    decreases |entries|
  {
    if |entries| == 0 then [(k, v)]
    else if entries[0].0 == k then [(k, v)] + entries[1..]
    else [entries[0]] + SetField(entries[1..], k, v)
  }

  lemma DistinctAppend(s: seq<string>, k: string)
    requires Distinct(s) && k !in s
    ensures Distinct(s + [k])
  {
  }

  /** The object built by `fields.forEach(f => initialValues[f] = '')`. */
  function BlankForm(fields: seq<string>): (r: seq<Entry>)
    ensures Distinct(Keys(r))
    ensures forall k :: k in Keys(r) <==> k in fields
    ensures forall e :: e in r ==> e.1 == ""
    ensures forall k :: k in fields ==> Lookup(r, k) == Some("")
    decreases |fields|
  {
    if |fields| == 0 then []
    else
      var prev := BlankForm(fields[..|fields| - 1]);
      var f := fields[|fields| - 1];
      assert fields == fields[..|fields| - 1] + [f];
      if f in Keys(prev) then SetField(prev, f, "")
      else DistinctAppend(Keys(prev), f); SetField(prev, f, "")
  }

  /** With no field listed twice, the form has the prompt's fields in order. */
  lemma {:induction false} BlankFormKeys(fields: seq<string>)
    requires Distinct(fields)
    ensures Keys(BlankForm(fields)) == fields
    decreases |fields|
  {
    if |fields| > 0 {
      var init := fields[..|fields| - 1];
      BlankFormKeys(init);
      assert fields[|fields| - 1] !in init;
      assert init + [fields[|fields| - 1]] == fields;
    }
  }

  /** The form-reset loop of handleMethodSelect and handlePromptSelect. */
  method InitialValues(fields: seq<string>) returns (values: seq<Entry>)
    ensures values == BlankForm(fields)
  {
    values := [];
    for i := 0 to |fields|
      invariant values == BlankForm(fields[..i])
    {
      assert fields[..i + 1][..i] == fields[..i];
      values := SetField(values, fields[i], "");
    }
    assert fields[..|fields|] == fields;
  }

  // ---------------------------------------------------------------------
  // Replacing every occurrence of a token

  /** `s.replace(new RegExp(pattern, 'g'), rep)` for a pattern that matches
      `pat` literally and a replacement with no `$` patterns: every
      occurrence, left to right and without overlap, is replaced. */
  function ReplaceAll(s: string, pat: string, rep: string): (r: string)
    requires |pat| > 0
    ensures !Contains(s, pat) ==> r == s
    decreases |s|
  {
    if |s| < |pat| then s
    else if s[..|pat|] == pat then rep + ReplaceAll(s[|pat|..], pat, rep)
    else [s[0]] + ReplaceAll(s[1..], pat, rep)
  }

  /** Global replacement is `s.split(pat).join(rep)`: the text between the
      occurrences is kept and each occurrence becomes `rep`. */
  lemma {:induction false} ReplaceAllIsSplitJoin(s: string, pat: string, rep: string)
    requires |pat| > 0
    ensures ReplaceAll(s, pat, rep) == Join(Split(s, pat), rep)
    decreases |s|
  {
    if |s| < |pat| {
    } else if s[..|pat|] == pat {
      ReplaceAllIsSplitJoin(s[|pat|..], pat, rep);
      var rest := Split(s[|pat|..], pat);
      assert Split(s, pat) == [""] + rest;
      assert ([""] + rest)[1..] == rest;
    } else {
      ReplaceAllIsSplitJoin(s[1..], pat, rep);
      var rest := Split(s[1..], pat);
      assert Split(s, pat) == [[s[0]] + rest[0]] + rest[1..];
      JoinConsFirst(s[0], rest, rep);
    }
  }

  /** A prefix that cannot start an occurrence passes through unchanged. */
  lemma {:induction false} ReplaceAllSkip(x: string, y: string, pat: string, rep: string)
    requires |pat| > 0 && pat[0] !in x
    ensures ReplaceAll(x + y, pat, rep) == x + ReplaceAll(y, pat, rep)
    decreases |x|
  {
    if |x| > 0 {
      var s := x + y;
      assert s[0] == x[0];
      assert s[1..] == x[1..] + y;
      ReplaceAllSkip(x[1..], y, pat, rep);
      if |s| >= |pat| {
        assert s[..|pat|][0] == x[0];
      } else {
        assert ReplaceAll(y, pat, rep) == y;
      }
      assert [x[0]] + x[1..] == x;
    } else {
      assert x + y == y;
    }
  }

  /** When the pattern does not start the string, its first character is
      kept and the scan goes on from the next one. */
  lemma ReplaceAllNoMatchHere(s: string, pat: string, rep: string)
    requires |pat| > 0 && |s| > 0 && !StartsWith(s, pat)
    ensures ReplaceAll(s, pat, rep) == [s[0]] + ReplaceAll(s[1..], pat, rep)
  {
    if |s| < |pat| {
      assert ReplaceAll(s[1..], pat, rep) == s[1..];
      assert [s[0]] + s[1..] == s;
    }
  }

  // ---------------------------------------------------------------------
  // Resolution of a template

  /** The token `[k]` the regular expression `\[k\]` matches. */
  function Token(k: string): (t: string)
    ensures |t| == |k| + 2 && t[0] == '[' && t[|t| - 1] == ']'
  {
    "[" + k + "]"
  }

  predicate IsAlnum(c: char) {
    ('a' <= c <= 'z') || ('A' <= c <= 'Z') || ('0' <= c <= '9')
  }

  /** A field name as the catalog writes them: letters and digits only, so
      `new RegExp('\\[' + k + '\\]', 'g')` matches `[k]` literally. */
  predicate IsPlainKey(k: string) {
    |k| > 0 && forall i :: 0 <= i < |k| ==> IsAlnum(k[i])
  }

  /** Entries for which the regex replacement behaves as a literal one. */
  predicate LiteralEntries(entries: seq<Entry>) {
    forall i :: 0 <= i < |entries| ==> IsPlainKey(entries[i].0) && '$' !in entries[i].1
  }

  /** `finalPrompt` after the `forEach` over `Object.entries(formValues)`:
      each entry in turn replaces every `[key]` in the text so far. */
  function Resolve(template: string, entries: seq<Entry>): string
    decreases |entries|
  {
    if |entries| == 0 then template
    else
      var (k, v) := entries[|entries| - 1];
      ReplaceAll(Resolve(template, entries[..|entries| - 1]), Token(k), v)
  }

  /** The substitution loop of handleSubmit (App.tsx:83-86). */
  method ResolvePrompt(template: string, entries: seq<Entry>) returns (finalPrompt: string)
    requires LiteralEntries(entries)
    ensures finalPrompt == Resolve(template, entries)
  {
    finalPrompt := template;
    for i := 0 to |entries|
      invariant finalPrompt == Resolve(template, entries[..i])
    {
      assert entries[..i + 1][..i] == entries[..i];
      var (key, val) := entries[i];
      finalPrompt := ReplaceAll(finalPrompt, Token(key), val);
    }
    assert entries[..|entries|] == entries;
  }

  /** A template holding no token of any key comes back unchanged. */
  lemma {:induction false} ResolveUntouched(template: string, entries: seq<Entry>)
    requires forall i :: 0 <= i < |entries| ==> !Contains(template, Token(entries[i].0))
    ensures Resolve(template, entries) == template
    decreases |entries|
  {
    if |entries| > 0 {
      ResolveUntouched(template, entries[..|entries| - 1]);
    }
  }

  // ---------------------------------------------------------------------
  // Templates made of plain characters and tokens

  /** A template read as plain characters (never a bracket) and `[name]`
      tokens; every template of the catalog has this shape. */
  datatype Piece = Char(c: char) | Tok(name: string)

  predicate NoBrackets(s: string) {
    '[' !in s && ']' !in s
  }

  predicate WellFormed(ps: seq<Piece>) {
    forall i :: 0 <= i < |ps| ==>
      match ps[i]
      case Char(c) => c != '[' && c != ']'
      case Tok(n) => IsPlainKey(n)
  }

  function Flatten(ps: seq<Piece>): string
    decreases |ps|
  {
    if |ps| == 0 then ""
    else
      match ps[0]
      case Char(c) => [c] + Flatten(ps[1..])
      case Tok(n) => Token(n) + Flatten(ps[1..])
  }

  function Chars(v: string): (ps: seq<Piece>)
    ensures |ps| == |v|
    ensures forall i :: 0 <= i < |v| ==> ps[i] == Char(v[i])
  {
    seq(|v|, i requires 0 <= i < |v| => Char(v[i]))
  }

  lemma {:induction false} FlattenChars(v: string, rest: seq<Piece>)
    ensures Flatten(Chars(v) + rest) == v + Flatten(rest)
    decreases |v|
  {
    if |v| > 0 {
      var ps := Chars(v) + rest;
      assert ps[0] == Char(v[0]);
      assert ps[1..] == Chars(v[1..]) + rest;
      FlattenChars(v[1..], rest);
      AppendAssoc([v[0]], v[1..], Flatten(rest));
      assert [v[0]] + v[1..] == v;
    } else {
      assert Chars(v) + rest == rest;
    }
  }

  /** One step of the fold on pieces: every `Tok(k)` becomes the characters
      of `v`. */
  function SubstPieces(ps: seq<Piece>, k: string, v: string): (r: seq<Piece>)
    ensures forall n :: Tok(n) in r <==> Tok(n) in ps && n != k
    ensures WellFormed(ps) && NoBrackets(v) ==> WellFormed(r)
    decreases |ps|
  {
    if |ps| == 0 then []
    else if ps[0] == Tok(k) then Chars(v) + SubstPieces(ps[1..], k, v)
    else [ps[0]] + SubstPieces(ps[1..], k, v)
  }

  function SubstAll(ps: seq<Piece>, entries: seq<Entry>): (r: seq<Piece>)
    ensures forall n :: Tok(n) in r <==> Tok(n) in ps && n !in Keys(entries)
    ensures WellFormed(ps) && (forall i :: 0 <= i < |entries| ==> NoBrackets(entries[i].1)) ==> WellFormed(r)
    decreases |entries|
  {
    if |entries| == 0 then ps
    else
      var init := entries[..|entries| - 1];
      var (k, v) := entries[|entries| - 1];
      assert forall n :: n in Keys(entries) <==> n in Keys(init) || n == k by {
        KeysAppend(init, (k, v));
        assert init + [(k, v)] == entries;
      }
      SubstPieces(SubstAll(ps, init), k, v)
  }

  lemma {:induction false} KeysAppend(entries: seq<Entry>, e: Entry)
    ensures Keys(entries + [e]) == Keys(entries) + [e.0]
    decreases |entries|
  {
    if |entries| > 0 {
      assert (entries + [e])[1..] == entries[1..] + [e];
      KeysAppend(entries[1..], e);
    } else {
      assert entries + [e] == [e];
    }
  }

  /** `[n]` is never read as `[k]` for another plain name `k`. */
  lemma TokenMismatch(n: string, k: string, rest: string)
    requires IsPlainKey(n) && IsPlainKey(k) && n != k
    ensures !StartsWith(Token(n) + rest, Token(k))
  {
    var s := Token(n) + rest;
    if |k| + 2 <= |s| {
      var head := s[..|k| + 2];
      if |n| == |k| {
        assert head == Token(n);
        assert Token(n)[1..|n| + 1] == n;
        assert Token(k)[1..|k| + 1] == k;
      } else if |n| < |k| {
        assert head[|n| + 1] == ']';
        assert Token(k)[|n| + 1] == k[|n|] && IsAlnum(k[|n|]);
      } else {
        assert head[|k| + 1] == n[|k|] && IsAlnum(n[|k|]);
        assert Token(k)[|k| + 1] == ']';
      }
    }
  }

  lemma ReplaceOverChar(c: char, tail: string, k: string, v: string)
    requires c != '['
    ensures ReplaceAll([c] + tail, Token(k), v) == [c] + ReplaceAll(tail, Token(k), v)
  {
    ReplaceAllSkip([c], tail, Token(k), v);
  }

  lemma ReplaceOverOtherToken(n: string, tail: string, k: string, v: string)
    requires IsPlainKey(n) && IsPlainKey(k) && n != k
    ensures ReplaceAll(Token(n) + tail, Token(k), v) == Token(n) + ReplaceAll(tail, Token(k), v)
  {
    var s := Token(n) + tail;
    var body := n + "]";
    TokenMismatch(n, k, tail);
    ReplaceAllNoMatchHere(s, Token(k), v);
    assert s[0] == '[';
    assert s[1..] == body + tail;
    NameHasNoOpenBracket(n);
    ReplaceAllSkip(body, tail, Token(k), v);
    TokenSplit(n, ReplaceAll(tail, Token(k), v));
  }

  lemma NameHasNoOpenBracket(n: string)
    requires IsPlainKey(n)
    ensures '[' !in n + "]"
  {
    forall i | 0 <= i < |n| ensures n[i] != '[' { assert IsAlnum(n[i]); }
  }

  lemma TokenSplit(n: string, y: string)
    ensures ['['] + ((n + "]") + y) == Token(n) + y
  {
  }

  lemma ReplaceOverOwnToken(tail: string, k: string, v: string)
    ensures ReplaceAll(Token(k) + tail, Token(k), v) == v + ReplaceAll(tail, Token(k), v)
  {
    var s := Token(k) + tail;
    assert s[..|Token(k)|] == Token(k);
    assert s[|Token(k)|..] == tail;
  }

  /** On a well-formed template, replacing `[k]` is replacing the `Tok(k)`
      pieces: no occurrence straddles a token boundary. */
  lemma {:induction false} ReplaceAllOnPieces(ps: seq<Piece>, k: string, v: string)
    requires WellFormed(ps) && IsPlainKey(k)
    ensures ReplaceAll(Flatten(ps), Token(k), v) == Flatten(SubstPieces(ps, k, v))
    decreases |ps|
  {
    if |ps| > 0 {
      var rest := ps[1..];
      assert WellFormed(rest) by {
        forall i | 0 <= i < |rest| ensures rest[i] == ps[i + 1] { }
      }
      ReplaceAllOnPieces(rest, k, v);
      var tail := Flatten(rest);
      match ps[0]
      case Char(c) =>
        assert ps[0] == ps[0];
        ReplaceOverChar(c, tail, k, v);
      case Tok(n) =>
        if n == k {
          ReplaceOverOwnToken(tail, k, v);
          FlattenChars(v, SubstPieces(rest, k, v));
        } else {
          ReplaceOverOtherToken(n, tail, k, v);
        }
    }
  }

  /** Resolution of a well-formed template is substitution on its pieces. */
  lemma {:induction false} ResolveOnPieces(ps: seq<Piece>, entries: seq<Entry>)
    requires WellFormed(ps)
    requires forall i :: 0 <= i < |entries| ==> IsPlainKey(entries[i].0) && NoBrackets(entries[i].1)
    ensures Resolve(Flatten(ps), entries) == Flatten(SubstAll(ps, entries))
    decreases |entries|
  {
    if |entries| > 0 {
      var init := entries[..|entries| - 1];
      var (k, v) := entries[|entries| - 1];
      ResolveOnPieces(ps, init);
      ReplaceAllOnPieces(SubstAll(ps, init), k, v);
    }
  }

  /** A well-formed text without `Tok(k)` does not contain `[k]`. */
  lemma {:induction false} NoTokenInFlatten(ps: seq<Piece>, k: string)
    requires WellFormed(ps) && IsPlainKey(k) && Tok(k) !in ps
    ensures !Contains(Flatten(ps), Token(k))
    decreases |ps|
  {
    if |ps| > 0 {
      var rest := ps[1..];
      assert WellFormed(rest) by {
        forall i | 0 <= i < |rest| ensures rest[i] == ps[i + 1] { }
      }
      assert Tok(k) !in rest by {
        forall i | 0 <= i < |rest| ensures rest[i] == ps[i + 1] { }
      }
      NoTokenInFlatten(rest, k);
      var tail := Flatten(rest);
      match ps[0]
      case Char(c) =>
        assert ps[0] == ps[0];
        ContainsSkip([c], tail, Token(k));
      case Tok(n) =>
        var s := Token(n) + tail;
        TokenMismatch(n, k, tail);
        assert s[1..] == (n + "]") + tail;
        NameHasNoOpenBracket(n);
        ContainsSkip(n + "]", tail, Token(k));
    }
  }

  lemma {:induction false} ContainsAfter(x: string, y: string, p: string)
    requires Contains(y, p)
    ensures Contains(x + y, p)
    decreases |x|
  {
    if |x| > 0 {
      assert (x + y)[1..] == x[1..] + y;
      ContainsAfter(x[1..], y, p);
    } else {
      assert x + y == y;
    }
  }

  /** A template holding `Tok(n)` contains `[n]`. */
  lemma {:induction false} TokenInFlatten(ps: seq<Piece>, n: string)
    requires Tok(n) in ps
    ensures Contains(Flatten(ps), Token(n))
    decreases |ps|
  {
    if ps[0] == Tok(n) {
      assert Flatten(ps)[..|Token(n)|] == Token(n);
    } else {
      TokenInFlatten(ps[1..], n);
      match ps[0]
      case Char(c) => ContainsAfter([c], Flatten(ps[1..]), Token(n));
      case Tok(m) => ContainsAfter(Token(m), Flatten(ps[1..]), Token(n));
    }
  }

  /** The resolved prompt keeps no token of any form field, when the template
      is made of plain characters and tokens and no value holds a bracket,
      and it keeps every token whose name is not a field of the form. */
  lemma ResolvedTokens(ps: seq<Piece>, entries: seq<Entry>)
    requires WellFormed(ps)
    requires forall i :: 0 <= i < |entries| ==> IsPlainKey(entries[i].0) && NoBrackets(entries[i].1)
    ensures forall i :: 0 <= i < |entries| ==> !Contains(Resolve(Flatten(ps), entries), Token(entries[i].0))
    ensures forall n :: n !in Keys(entries) && Tok(n) in ps ==> Contains(Resolve(Flatten(ps), entries), Token(n))
  {
    ResolveOnPieces(ps, entries);
    var r := SubstAll(ps, entries);
    forall i | 0 <= i < |entries|
      ensures !Contains(Flatten(r), Token(entries[i].0))
    {
      KeysAt(entries, i);
      NoTokenInFlatten(r, entries[i].0);
    }
    forall n | n !in Keys(entries) && Tok(n) in ps
      ensures Contains(Flatten(r), Token(n))
    {
      TokenInFlatten(r, n);
    }
  }

  /** Replacing `[k]` works around an occurrence of another plain token
      `[x]`: no occurrence of `[k]` overlaps it, so the text before it, the
      token itself and the text after it are rewritten independently. */
  lemma ReplaceAroundOtherToken(a: string, b: string, k: string, v: string, x: string)
    requires IsPlainKey(k) && IsPlainKey(x) && k != x
    ensures ReplaceAll(a + Token(x) + b, Token(k), v)
         == ReplaceAll(a, Token(k), v) + Token(x) + ReplaceAll(b, Token(k), v)
  {
    var rest := Token(x) + b;
    assert a + Token(x) + b == a + rest;
    TokenInnerBracketFree(k);
    ReplaceBeforeBracket(a, rest, Token(k), v);
    ReplaceOverOtherToken(x, b, k, v);
  }

  /** An occurrence of a pattern with no `[` past its first character never
      runs on into a `[`, so the text before one is replaced on its own. */
  lemma {:induction false} ReplaceBeforeBracket(a: string, rest: string, pat: string, rep: string)
    requires |pat| > 0 && |rest| > 0 && rest[0] == '['
    requires forall j :: 0 < j < |pat| ==> pat[j] != '['
    ensures ReplaceAll(a + rest, pat, rep) == ReplaceAll(a, pat, rep) + ReplaceAll(rest, pat, rep)
    decreases |a|
  {
    if |a| == 0 {
      assert a + rest == rest;
    } else if StartsWith(a, pat) {
      ReplaceBeforeBracket(a[|pat|..], rest, pat, rep);
      ReplaceAtMatch(a, rest, pat, rep);
    } else {
      NoMatchAcross(a, rest, pat);
      ReplacePastChar(a, rest, pat, rep);
      ReplaceBeforeBracket(a[1..], rest, pat, rep);
    }
  }

  lemma ReplaceAtMatch(a: string, rest: string, pat: string, rep: string)
    requires |pat| > 0 && StartsWith(a, pat)
    ensures ReplaceAll(a + rest, pat, rep) == rep + ReplaceAll(a[|pat|..] + rest, pat, rep)
    ensures ReplaceAll(a, pat, rep) == rep + ReplaceAll(a[|pat|..], pat, rep)
  {
    var s := a + rest;
    assert s[..|pat|] == pat;
    assert s[|pat|..] == a[|pat|..] + rest;
  }

  lemma ReplacePastChar(a: string, rest: string, pat: string, rep: string)
    requires |pat| > 0 && |a| > 0 && !StartsWith(a, pat) && !StartsWith(a + rest, pat)
    ensures ReplaceAll(a + rest, pat, rep) == [a[0]] + ReplaceAll(a[1..] + rest, pat, rep)
    ensures ReplaceAll(a, pat, rep) == [a[0]] + ReplaceAll(a[1..], pat, rep)
  {
    ReplaceAllNoMatchHere(a + rest, pat, rep);
    ReplaceAllNoMatchHere(a, pat, rep);
    assert (a + rest)[1..] == a[1..] + rest;
  }

  /** A pattern with no `[` past its first character cannot begin in a
      nonempty text that does not start with it and run on into a `[`. */
  lemma NoMatchAcross(a: string, rest: string, pat: string)
    requires |a| > 0 && !StartsWith(a, pat) && |rest| > 0 && rest[0] == '['
    requires forall j :: 0 < j < |pat| ==> pat[j] != '['
    ensures !StartsWith(a + rest, pat)
  {
    var s := a + rest;
    if |a| >= |pat| {
      assert s[..|pat|] == a[..|pat|];
    } else if |s| >= |pat| {
      assert s[..|pat|][|a|] == rest[0];
    }
  }

  /** Past its first character a plain token holds no `[`. */
  lemma TokenInnerBracketFree(k: string)
    requires IsPlainKey(k)
    ensures forall j :: 0 < j < |Token(k)| ==> Token(k)[j] != '['
  {
    forall j | 0 < j < |Token(k)|
      ensures Token(k)[j] != '['
    {
      if j <= |k| {
        assert Token(k)[j] == k[j - 1] && IsAlnum(k[j - 1]);
      }
    }
  }

  /** Resolution works around every token whose name is not a form field,
      for any template and any values. */
  lemma {:induction false} ResolveAroundOtherToken(a: string, b: string, entries: seq<Entry>, x: string)
    requires forall i :: 0 <= i < |entries| ==> IsPlainKey(entries[i].0)
    requires IsPlainKey(x) && x !in Keys(entries)
    ensures Resolve(a + Token(x) + b, entries) == Resolve(a, entries) + Token(x) + Resolve(b, entries)
    decreases |entries|
  {
    if |entries| > 0 {
      var init := entries[..|entries| - 1];
      var (k, v) := entries[|entries| - 1];
      KeysAppend(init, (k, v));
      assert init + [(k, v)] == entries;
      ResolveAroundOtherToken(a, b, init, x);
      ReplaceAroundOtherToken(Resolve(a, init), Resolve(b, init), k, v, x);
    }
  }

  /** Resolution keeps every token whose name is not a form field, for any
      template and any values. */
  lemma NonFieldTokenSurvives(template: string, entries: seq<Entry>, x: string)
    requires forall i :: 0 <= i < |entries| ==> IsPlainKey(entries[i].0)
    requires IsPlainKey(x) && x !in Keys(entries) && Contains(template, Token(x))
    ensures Contains(Resolve(template, entries), Token(x))
  {
    var tx := Token(x);
    ContainsOccurs(template, tx);
    var i: nat :| OccursAt(template, tx, i);
    var a, b := template[..i], template[i + |tx|..];
    assert template == a + tx + b;
    ResolveAroundOtherToken(a, b, entries, x);
    var r, ra := Resolve(template, entries), Resolve(a, entries);
    assert r[|ra|..|ra| + |tx|] == tx;
    ContainsAt(r, tx, |ra|);
  }

  // ---------------------------------------------------------------------
  // An untouched form

  /** The pieces left when the tokens named in `names` are deleted. */
  function DropTokens(ps: seq<Piece>, names: set<string>): seq<Piece>
    decreases |ps|
  {
    if |ps| == 0 then []
    else (if ps[0].Tok? && ps[0].name in names then [] else [ps[0]]) + DropTokens(ps[1..], names)
  }

  lemma {:induction false} SubstBlank(ps: seq<Piece>, k: string)
    ensures SubstPieces(ps, k, "") == DropTokens(ps, {k})
    decreases |ps|
  {
    if |ps| > 0 {
      SubstBlank(ps[1..], k);
      assert Chars("") == [];
    }
  }

  lemma {:induction false} DropTwice(ps: seq<Piece>, a: set<string>, b: set<string>)
    ensures DropTokens(DropTokens(ps, a), b) == DropTokens(ps, a + b)
    decreases |ps|
  {
    if |ps| > 0 {
      DropTwice(ps[1..], a, b);
      var head := if ps[0].Tok? && ps[0].name in a then [] else [ps[0]];
      var once := DropTokens(ps, a);
      assert once == head + DropTokens(ps[1..], a);
      if head == [] {
        assert once == DropTokens(ps[1..], a);
      } else {
        assert once[0] == ps[0] && once[1..] == DropTokens(ps[1..], a);
      }
    }
  }

  function KeySet(entries: seq<Entry>): set<string> {
    set k | k in Keys(entries)
  }

  /** With every value empty, the fold deletes the tokens of all the keys. */
  lemma {:induction false} SubstAllBlank(ps: seq<Piece>, entries: seq<Entry>)
    requires forall i :: 0 <= i < |entries| ==> entries[i].1 == ""
    ensures SubstAll(ps, entries) == DropTokens(ps, KeySet(entries))
    decreases |entries|
  {
    if |entries| == 0 {
      assert KeySet(entries) == {};
      DropNone(ps);
    } else {
      var init := entries[..|entries| - 1];
      var (k, v) := entries[|entries| - 1];
      SubstAllBlank(ps, init);
      SubstBlank(SubstAll(ps, init), k);
      DropTwice(ps, KeySet(init), {k});
      KeysAppend(init, (k, v));
      assert init + [(k, v)] == entries;
      assert KeySet(entries) == KeySet(init) + {k};
    }
  }

  lemma {:induction false} DropNone(ps: seq<Piece>)
    ensures DropTokens(ps, {}) == ps
    decreases |ps|
  {
    if |ps| > 0 {
      DropNone(ps[1..]);
      assert [ps[0]] + ps[1..] == ps;
    }
  }

  /** Submitting a freshly reset form: every token of the prompt's fields
      resolves to the empty string and the rest of the template is kept. */
  lemma UnfilledFieldsVanish(ps: seq<Piece>, fields: seq<string>)
    requires WellFormed(ps)
    requires forall i :: 0 <= i < |fields| ==> IsPlainKey(fields[i])
    ensures Resolve(Flatten(ps), BlankForm(fields)) == Flatten(DropTokens(ps, set f | f in fields))
  {
    var form := BlankForm(fields);
    forall i | 0 <= i < |form|
      ensures IsPlainKey(form[i].0) && NoBrackets(form[i].1) && form[i].1 == ""
    {
      assert form[i] in form;
      KeysAt(form, i);
      assert form[i].0 in Keys(form);
      var j :| 0 <= j < |fields| && fields[j] == form[i].0;
    }
    ResolveOnPieces(ps, form);
    SubstAllBlank(ps, form);
    assert KeySet(form) == set f | f in fields;
  }

  lemma {:induction false} KeysAt(entries: seq<Entry>, i: nat)
    requires i < |entries|
    ensures Keys(entries)[i] == entries[i].0
    decreases i
  {
    if i > 0 {
      KeysAt(entries[1..], i - 1);
    }
  }

  // ---------------------------------------------------------------------
  // Worked cases

  /** A single entry whose token follows a bracket-free prefix. */
  lemma ResolveSingle(prefix: string, k: string, v: string)
    requires '[' !in prefix
    ensures Resolve(prefix + Token(k), [(k, v)]) == prefix + v
  {
    assert [(k, v)][..0] == [];
    ReplaceAllSkip(prefix, Token(k), Token(k), v);
    ReplaceOverOwnToken("", k, v);
    assert Token(k) + "" == Token(k);
    assert v + "" == v;
  }

  /** Resolution of a catalog-style template. */
  lemma NichoExample(template: string, entries: seq<Entry>)
    requires template == "Gere ideias para [nicho]" && entries == [("nicho", "moda")]
    ensures Resolve(template, entries) == "Gere ideias para moda"
  {
    var prefix := template[..17];
    var (k, v) := entries[0];
    assert template == prefix + Token(k);
    assert entries == [(k, v)];
    ResolveSingle(prefix, k, v);
  }

  /** The fold runs in entry order: a value written early that holds the
      token of a later field is rewritten by that later step. */
  lemma FoldOrderExample()
    ensures Resolve("[a]", [("a", "[b]"), ("b", "x")]) == "x"
  {
    var first := [("a", "[b]")];
    assert [("a", "[b]"), ("b", "x")][..1] == first;
    ReplaceOverOwnToken("", "a", "[b]");
    assert Token("a") + "" == "[a]";
    assert Resolve("[a]", first) == "[b]";
    ReplaceOverOwnToken("", "b", "x");
    assert Token("b") + "" == "[b]";
  }

  /** Without the plain-characters-and-tokens shape a token can survive: a
      stray `[` before `[k]` meets the `k]` after it once `[k]` is deleted. */
  lemma StrayBracketExample()
    ensures Resolve("[[k]k]", [("k", "")]) == "[k]"
  {
    var s := "[[k]k]";
    assert s[..3] != Token("k") by { assert s[1] == '[' && Token("k")[1] == 'k'; }
    assert s[1..] == Token("k") + "k]";
    ReplaceOverOwnToken("k]", "k", "");
    assert ReplaceAll("k]", Token("k"), "") == "k]";
  }
  /** Bracket-free values are needed too, even for a template of plain
      characters and tokens: no value holds a field's token, yet a value
      ending in `[` and a later value starting with `k]` rebuild `[k]`. */
  lemma BracketValueExample(template: string, entries: seq<Entry>)
    requires template == "[k][j]" && entries == [("k", "["), ("j", "k]")]
    ensures forall i, j :: 0 <= i < |entries| && 0 <= j < |entries| ==>
              !Contains(entries[i].1, Token(entries[j].0))
    ensures Resolve(template, entries) == "[k]"
  {
    var (k, v) := entries[0];
    var (j, w) := entries[1];
    var first := entries[..1];
    assert first == [(k, v)];
    assert template == Token(k) + Token(j);
    ReplaceOverOwnToken(Token(j), k, v);
    ReplaceOverOtherToken(j, "", k, v);
    assert Token(j) + "" == Token(j);
    assert Resolve(template, first) == v + Token(j);
    var mid := v + Token(j);
    assert !StartsWith(mid, Token(j)) by { assert mid[1] == '[' && Token(j)[1] == 'j'; }
    ReplaceAllNoMatchHere(mid, Token(j), w);
    assert mid[1..] == Token(j) + "";
    ReplaceOverOwnToken("", j, w);
  }
}
