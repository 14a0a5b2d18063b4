/** The identifier-safe name formatter shared by the label editor and the
    variable and calculator forms:

      value.replace(/[^a-zA-Z0-9_]/g, " ")
           .split(" ")
           .map((word) => word.charAt(0).toUpperCase() + word.slice(1))
           .join("")

    Each stage is a function of its own; `Format` chains them. `Pascal` is an
    independent one-pass description of the same output, and the lemmas derive
    the formatter's promises (allowed characters only, length, case-insensitive
    content, idempotence, `trim()` is a no-op) from it. */
module Formatting {

  /** A character the regular expression `[a-zA-Z0-9_]` accepts. */
  predicate IsWordChar(c: char) {
    ('a' <= c <= 'z') || ('A' <= c <= 'Z') || ('0' <= c <= '9') || c == '_'
  }

  /** `toUpperCase()` on one character. Only word characters ever reach it in
      the formatter, and for those it is the ASCII mapping. */
  function ToUpper(c: char): char {
    if 'a' <= c <= 'z' then (c as int - 32) as char else c
  }

  /** Stage 1: every character outside `[a-zA-Z0-9_]` becomes a space. */
  function Blank(s: string): (r: string)
    ensures |r| == |s|
    ensures forall i :: 0 <= i < |r| ==> (IsWordChar(r[i]) || r[i] == ' ')
  {
    if s == [] then [] else [if IsWordChar(s[0]) then s[0] else ' '] + Blank(s[1..])
  }

  /** Stage 2: `split(" ")`. Always at least one (possibly empty) word. */
  function Split(s: string): (r: seq<string>)
    ensures |r| >= 1
    ensures forall k, i :: 0 <= k < |r| && 0 <= i < |r[k]| ==> r[k][i] != ' '
  {
    if s == [] then [""]
    else
      var rest := Split(s[1..]);
      if s[0] == ' ' then [""] + rest else [[s[0]] + rest[0]] + rest[1..]
  }

  /** `join(" ")`, the inverse of `Split`. */
  function JoinWithSpaces(ws: seq<string>): string
    requires |ws| >= 1
  {
    if |ws| == 1 then ws[0] else ws[0] + " " + JoinWithSpaces(ws[1..])
  }

  /** `word.charAt(0).toUpperCase() + word.slice(1)`. */
  function Capitalize(w: string): string {
    if w == [] then [] else [ToUpper(w[0])] + w[1..]
  }

  /** Stage 3: `map(capitalise)`. */
  function CapitalizeAll(ws: seq<string>): (r: seq<string>)
    ensures |r| == |ws|
  {
    if ws == [] then [] else [Capitalize(ws[0])] + CapitalizeAll(ws[1..])
  }

  /** Stage 4: `join("")`. */
  function Concat(ws: seq<string>): string {
    if ws == [] then [] else ws[0] + Concat(ws[1..])
  }

  /** The formatter, stage by stage as written. */
  function Format(s: string): string {
    Concat(CapitalizeAll(Split(Blank(s))))
  }

  /** Reference definition: the word characters of `s` in order, where a word
      character that starts a maximal run of word characters is upper-cased.
      `atStart` says whether the next word character starts a run. */
  function Pascal(s: string, atStart: bool): string {
    if s == [] then []
    else if IsWordChar(s[0]) then [if atStart then ToUpper(s[0]) else s[0]] + Pascal(s[1..], false)
    else Pascal(s[1..], true)
  }

  /** The word characters of `s`, in order. */
  function WordChars(s: string): string {
    if s == [] then []
    else if IsWordChar(s[0]) then [s[0]] + WordChars(s[1..])
    else WordChars(s[1..])
  }

  /** Upper-cases every character. */
  function UpperAll(s: string): string {
    if s == [] then [] else [ToUpper(s[0])] + UpperAll(s[1..])
  }

  /** Whitespace and line terminators as `String.prototype.trim` removes them. */
  predicate IsJsWhitespace(c: char) {
    var n := c as int;
    (0x09 <= n <= 0x0D) || n == 0x20 || n == 0xA0 || n == 0x1680 || (0x2000 <= n <= 0x200A)
    || n == 0x2028 || n == 0x2029 || n == 0x202F || n == 0x205F || n == 0x3000 || n == 0xFEFF
  }

  /** `trim()`: drops leading and trailing whitespace. */
  function Trim(s: string): (r: string)
    ensures |r| <= |s|
    ensures r == [] || (!IsJsWhitespace(r[0]) && !IsJsWhitespace(r[|r| - 1]))
    ensures var i := LeadingWhitespace(s);
      && i + |r| <= |s| && r == s[i..i + |r|]
      && forall k :: i + |r| <= k < |s| ==> IsJsWhitespace(s[k])
  {
    var t := TrimStart(s);
    var r := TrimEnd(t);
    var i := LeadingWhitespace(s);
    assert t == s[i..];
    forall k | i + |r| <= k < |s| ensures IsJsWhitespace(s[k]) {
      assert s[k] == t[k - i];
    }
    r
  }

  /** How many whitespace characters `s` starts with. */
  function LeadingWhitespace(s: string): (n: nat)
    ensures n <= |s| && forall k :: 0 <= k < n ==> IsJsWhitespace(s[k])
    ensures n < |s| ==> !IsJsWhitespace(s[n])
  {
    if s != [] && IsJsWhitespace(s[0]) then 1 + LeadingWhitespace(s[1..]) else 0
  }

  function TrimStart(s: string): (r: string)
    ensures r == s[LeadingWhitespace(s)..]
    ensures r == [] || !IsJsWhitespace(r[0])
  {
    if s != [] && IsJsWhitespace(s[0]) then TrimStart(s[1..]) else s
  }

  function TrimEnd(s: string): (r: string)
    ensures |r| <= |s| && r == s[..|r|]
    ensures r == [] || !IsJsWhitespace(r[|r| - 1])
    ensures forall k :: |r| <= k < |s| ==> IsJsWhitespace(s[k])
  {
    if s != [] && IsJsWhitespace(s[|s| - 1]) then TrimEnd(s[..|s| - 1]) else s
  }

  /** Whether every character of `s` is a word character. */
  predicate AllWordChars(s: string) {
    forall i :: 0 <= i < |s| ==> IsWordChar(s[i])
  }

  // ---------------------------------------------------------------------
  // Split and join

  /** `split(" ")` loses nothing: joining the words with spaces gives the input back. */
  lemma {:induction false} SplitJoin(s: string)
    ensures JoinWithSpaces(Split(s)) == s
  {
    if s != [] {
      SplitJoin(s[1..]);
      var rest := Split(s[1..]);
      if s[0] == ' ' {
        assert Split(s) == [""] + rest;
        assert JoinWithSpaces(Split(s)) == "" + " " + JoinWithSpaces(rest);
      } else {
        assert Split(s) == [[s[0]] + rest[0]] + rest[1..];
        if |rest| == 1 {
          assert JoinWithSpaces(Split(s)) == [s[0]] + rest[0];
        } else {
          assert JoinWithSpaces(rest) == rest[0] + " " + JoinWithSpaces(rest[1..]);
          assert JoinWithSpaces(Split(s)) == ([s[0]] + rest[0]) + " " + JoinWithSpaces(rest[1..]);
        }
      }
      assert s == [s[0]] + s[1..];
    }
  }

  // ---------------------------------------------------------------------
  // The chain equals the one-pass reference

  lemma ConcatCons(w: string, ws: seq<string>)
    ensures Concat([w] + ws) == w + Concat(ws)
  {
    assert ([w] + ws)[1..] == ws;
  }

  lemma CapitalizeAllCons(w: string, ws: seq<string>)
    ensures CapitalizeAll([w] + ws) == [Capitalize(w)] + CapitalizeAll(ws)
  {
    assert ([w] + ws)[1..] == ws;
  }

  /** A string whose characters are word characters or spaces. */
  predicate Blanked(t: string) {
    forall i :: 0 <= i < |t| ==> (IsWordChar(t[i]) || t[i] == ' ')
  }

  /** The capitalised join of the words of `t`, leaving the first word alone
      unless `atStart`. */
  function JoinFrom(t: string, atStart: bool): string {
    var ws := Split(t);
    (if atStart then Capitalize(ws[0]) else ws[0]) + Concat(CapitalizeAll(ws[1..]))
  }

  /** Unfolding `JoinFrom` past a leading space. */
  lemma JoinFromSpace(t: string, atStart: bool)
    requires t != [] && t[0] == ' '
    ensures JoinFrom(t, atStart) == JoinFrom(t[1..], true)
  {
    var rest := Split(t[1..]);
    assert Split(t) == [""] + rest;
    assert Split(t)[1..] == rest;
    assert rest == [rest[0]] + rest[1..];
    CapitalizeAllCons(rest[0], rest[1..]);
    ConcatCons(Capitalize(rest[0]), CapitalizeAll(rest[1..]));
  }

  /** Unfolding `JoinFrom` past a leading non-space. */
  lemma JoinFromChar(t: string, atStart: bool)
    requires t != [] && t[0] != ' '
    ensures JoinFrom(t, atStart) == [if atStart then ToUpper(t[0]) else t[0]] + JoinFrom(t[1..], false)
  {
    var rest := Split(t[1..]);
    var w := [t[0]] + rest[0];
    assert Split(t) == [w] + rest[1..];
    assert Split(t)[1..] == rest[1..];
    assert w[0] == t[0] && w[1..] == rest[0];
  }

  /** On a blanked string, joining the capitalised words of `split(" ")` is the
      one-pass scan. */
  lemma {:induction false} SplitCapitalizeIsPascal(t: string, atStart: bool)
    requires Blanked(t)
    ensures JoinFrom(t, atStart) == Pascal(t, atStart)
  {
    if t != [] {
      assert Blanked(t[1..]) by {
        forall i | 0 <= i < |t[1..]| ensures IsWordChar(t[1..][i]) || t[1..][i] == ' ' {
          assert t[1..][i] == t[i + 1];
        }
      }
      if t[0] == ' ' {
        JoinFromSpace(t, atStart);
        SplitCapitalizeIsPascal(t[1..], true);
      } else {
        assert IsWordChar(t[0]);
        JoinFromChar(t, atStart);
        SplitCapitalizeIsPascal(t[1..], false);
      }
    }
  }

  /** Blanking does not change the one-pass scan: a space and any other
      non-word character both end a run. */
  lemma {:induction false} PascalIgnoresBlanking(s: string, atStart: bool)
    ensures Pascal(Blank(s), atStart) == Pascal(s, atStart)
  {
    if s != [] {
      PascalIgnoresBlanking(s[1..], !IsWordChar(s[0]));
      assert Blank(s)[1..] == Blank(s[1..]);
    }
  }

  /** The formatter as written equals the reference scan. */
  lemma FormatIsPascal(s: string)
    ensures Format(s) == Pascal(s, true)
  {
    var t := Blank(s);
    var ws := Split(t);
    SplitCapitalizeIsPascal(t, true);
    assert JoinFrom(t, true) == Capitalize(ws[0]) + Concat(CapitalizeAll(ws[1..]));
    CapitalizeAllCons(ws[0], ws[1..]);
    ConcatCons(Capitalize(ws[0]), CapitalizeAll(ws[1..]));
    assert ws == [ws[0]] + ws[1..];
    PascalIgnoresBlanking(s, true);
  }

  // ---------------------------------------------------------------------
  // Properties of the reference scan

  lemma {:induction false} PascalWordChars(s: string, atStart: bool)
    ensures AllWordChars(Pascal(s, atStart))
    ensures |Pascal(s, atStart)| == |WordChars(s)|
    ensures UpperAll(Pascal(s, atStart)) == UpperAll(WordChars(s))
  {
    if s != [] {
      PascalWordChars(s[1..], false);
      PascalWordChars(s[1..], true);
      if IsWordChar(s[0]) {
        var c := if atStart then ToUpper(s[0]) else s[0];
        var p := Pascal(s[1..], false);
        assert Pascal(s, atStart) == [c] + p;
        assert ([c] + p)[1..] == p;
        assert ([s[0]] + WordChars(s[1..]))[1..] == WordChars(s[1..]);
      }
    }
  }

  /** A string of word characters is one run: the scan upper-cases its first
      character (when `atStart`) and keeps the rest. */
  lemma {:induction false} PascalOfOneRun(t: string, atStart: bool)
    requires AllWordChars(t)
    ensures Pascal(t, atStart) == if t == [] || !atStart then t else [ToUpper(t[0])] + t[1..]
  {
    if t != [] {
      PascalOfOneRun(t[1..], false);
      assert AllWordChars(t[1..]) by {
        forall i | 0 <= i < |t[1..]| ensures IsWordChar(t[1..][i]) {
          assert t[1..][i] == t[i + 1];
        }
      }
      assert IsWordChar(t[0]);
    }
  }

  /** The first character the scan emits from a run start is upper-case. */
  lemma {:induction false} PascalStartsUpper(s: string)
    ensures Pascal(s, true) == [] || ToUpper(Pascal(s, true)[0]) == Pascal(s, true)[0]
  {
    if s != [] {
      if !IsWordChar(s[0]) {
        PascalStartsUpper(s[1..]);
      }
    }
  }

  // ---------------------------------------------------------------------
  // What the formatter promises

  /** The formatted name holds only `[A-Za-z0-9_]`, has one character per
      word character of the input, and matches the input's word characters
      ignoring case. */
  lemma FormatShape(s: string)
    ensures AllWordChars(Format(s))
    ensures |Format(s)| == |WordChars(s)|
    ensures UpperAll(Format(s)) == UpperAll(WordChars(s))
  {
    FormatIsPascal(s);
    PascalWordChars(s, true);
  }

  /** Formatting twice is formatting once. */
  lemma FormatIdempotent(s: string)
    ensures Format(Format(s)) == Format(s)
  {
    var f := Format(s);
    FormatShape(s);
    FormatIsPascal(s);
    FormatIsPascal(f);
    PascalOfOneRun(f, true);
    PascalStartsUpper(s);
  }

  /** `trim()` leaves a string with no whitespace unchanged. */
  lemma {:induction false} TrimKeeps(s: string)
    requires forall i :: 0 <= i < |s| ==> !IsJsWhitespace(s[i])
    ensures Trim(s) == s
  {
    assert TrimStart(s) == s;
    assert TrimEnd(s) == s;
  }

  /** So the `.trim()` applied after formatting never changes the name. */
  lemma FormatTrimmed(s: string)
    ensures Trim(Format(s)) == Format(s)
  {
    FormatShape(s);
    var f := Format(s);
    forall i | 0 <= i < |f| ensures !IsJsWhitespace(f[i]) {
      assert IsWordChar(f[i]);
    }
    TrimKeeps(f);
  }

  // ---------------------------------------------------------------------
  // The form effect

  /** The name effect of the calculator forms: a non-empty watched name is
      replaced by its formatted form, an empty one is left alone. Either way
      only word characters remain. */
  function Rewrite(name: string): (r: string)
    ensures AllWordChars(r)
    ensures |r| == |WordChars(name)|
  {
    FormatShape(name);
    if name == "" then name else Format(name)
  }

  /** Writing the rewritten name back re-triggers the effect, and that second
      run changes nothing: the field settles after one rewrite. */
  lemma RewriteSettles(name: string)
    ensures Rewrite(Rewrite(name)) == Rewrite(name)
  {
    if name != "" {
      FormatIdempotent(name);
    }
  }
}
