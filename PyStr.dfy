/**
 * The handful of Python `str` built-ins that the scraper and the web index
 * rely on, stated over `string` (= seq<char>): `strip()`, `split()` with no
 * argument, `split(', ')`, `" ".join(...)`, `lower()` (ASCII letters only),
 * `replace(old, new)` and `str()` of an integer.
 */
module PyStr {

  datatype Option<T> = None | Some(value: T)

  /** Python's `str.isspace()` for one character (the characters that
      `strip()` and `split()` treat as whitespace). */
  predicate IsSpace(c: char) {
    c == ' ' || ('\t' <= c <= '\r') || ('\U{1C}' <= c <= '\U{1F}') ||
    c == '\U{85}' || c == '\U{A0}' || c == '\U{1680}' ||
    ('\U{2000}' <= c <= '\U{200A}') || c == '\U{2028}' || c == '\U{2029}' ||
    c == '\U{202F}' || c == '\U{205F}' || c == '\U{3000}'
  }

  predicate NoSpace(s: string) {
    forall i :: 0 <= i < |s| ==> !IsSpace(s[i])
  }

  predicate AllSpace(s: string) {
    forall i :: 0 <= i < |s| ==> IsSpace(s[i])
  }

  /** A string with no whitespace at either end. */
  predicate Trimmed(s: string) {
    s == [] || (!IsSpace(s[0]) && !IsSpace(s[|s| - 1]))
  }

  // ---------------------------------------------------------------------
  // strip()

  function StripLeft(s: string): (r: string)
    ensures |r| <= |s| && r == s[|s| - |r|..]
    ensures AllSpace(s[..|s| - |r|])
    ensures r == [] || !IsSpace(r[0])
  {
    if |s| > 0 && IsSpace(s[0]) then
      var r := StripLeft(s[1..]);
      assert s[1..][|s| - 1 - |r|..] == s[|s| - |r|..];
      assert forall i :: 1 <= i < |s| - |r| ==> s[i] == s[1..][..|s| - 1 - |r|][i - 1];
      r
    else s
  }

  function StripRight(s: string): (r: string)
    ensures |r| <= |s| && r == s[..|r|]
    ensures AllSpace(s[|r|..])
    ensures r == [] || !IsSpace(r[|r| - 1])
  {
    if |s| > 0 && IsSpace(s[|s| - 1]) then
      var r := StripRight(s[..|s| - 1]);
      assert s[..|s| - 1][..|r|] == s[..|r|];
      assert forall i :: |r| <= i < |s| - 1 ==> s[i] == s[..|s| - 1][|r|..][i - |r|];
      r
    else s
  }

  /** `s.strip()`: the longest middle part of `s` that neither starts nor
      ends with whitespace; only whitespace is removed. */
  function Strip(s: string): (r: string)
    ensures Trimmed(r)
    ensures |r| <= |s|
  {
    StripRight(StripLeft(s))
  }

  /** Only whitespace is removed: the result is a slice of `s` with nothing
      but whitespace before and after it. */
  lemma StripIsMiddle(s: string)
    ensures exists i :: 0 <= i <= |s| - |Strip(s)| && Strip(s) == s[i..i + |Strip(s)|]
                        && AllSpace(s[..i]) && AllSpace(s[i + |Strip(s)|..])
  {
    var left := StripLeft(s);
    MiddleSlice(s, left, Strip(s));
  }

  /** Dropping whitespace from the front and then from the back leaves a
      middle slice with only whitespace around it. */
  lemma MiddleSlice(s: string, left: string, r: string)
    requires |left| <= |s| && left == s[|s| - |left|..] && AllSpace(s[..|s| - |left|])
    requires |r| <= |left| && r == left[..|r|] && AllSpace(left[|r|..])
    ensures var i := |s| - |left|;
      0 <= i <= |s| - |r| && r == s[i..i + |r|] && AllSpace(s[..i]) && AllSpace(s[i + |r|..])
  {
    var i := |s| - |left|;
    assert s[i + |r|..] == left[|r|..];
  }

  lemma StripTrimmed(s: string)
    requires Trimmed(s)
    ensures Strip(s) == s
  {
  }

  // ---------------------------------------------------------------------
  // split() with no argument, and " ".join(words)

  /** Length of the leading run of non-whitespace characters of `s`. */
  function WordLen(s: string): (n: nat)
    ensures n <= |s| && NoSpace(s[..n])
    ensures n < |s| ==> IsSpace(s[n])
  {
    if |s| == 0 || IsSpace(s[0]) then 0 else 1 + WordLen(s[1..])
  }

  predicate IsWord(w: string) {
    w != [] && NoSpace(w)
  }

  /** `s.split()`: the maximal runs of non-whitespace characters, in order. */
  function Words(s: string): (ws: seq<string>)
    ensures forall k :: 0 <= k < |ws| ==> IsWord(ws[k])
    decreases |s|
  {
    if s == [] then []
    else if IsSpace(s[0]) then Words(s[1..])
    else
      var n := WordLen(s);
      var rest := Words(s[n..]);
      assert IsWord(s[..n]);
      [s[..n]] + rest
  }

  /** `" ".join(ws)`. */
  function JoinSpaces(ws: seq<string>): string {
    if ws == [] then ""
    else if |ws| == 1 then ws[0]
    else ws[0] + " " + JoinSpaces(ws[1..])
  }

  lemma {:induction false} WordLenOfWord(w: string, rest: string)
    requires IsWord(w)
    requires rest == [] || IsSpace(rest[0])
    ensures WordLen(w + rest) == |w|
    decreases |w|
  {
    var s := w + rest;
    assert s[0] == w[0] && !IsSpace(w[0]);
    if |w| == 1 {
      assert s[1..] == rest;
    } else {
      assert s[1..] == w[1..] + rest;
      WordLenOfWord(w[1..], rest);
    }
  }

  lemma WordsSkipSpace(c: char, rest: string)
    requires IsSpace(c)
    ensures Words([c] + rest) == Words(rest)
  {
    assert ([c] + rest)[1..] == rest;
  }

  lemma WordsHead(w: string, rest: string)
    requires IsWord(w)
    requires rest == [] || IsSpace(rest[0])
    ensures Words(w + rest) == [w] + Words(rest)
  {
    var s := w + rest;
    WordLenOfWord(w, rest);
    assert s[..|w|] == w;
    assert s[|w|..] == rest;
  }

  /** A whitespace character ends the leading run. */
  lemma {:induction false} WordLenBeforeSpace(a: string, c: char, b: string)
    requires IsSpace(c)
    ensures WordLen(a + [c] + b) == WordLen(a)
    decreases |a|
  {
    var s := a + [c] + b;
    if a == [] {
      assert s[0] == c;
    } else if IsSpace(a[0]) {
      assert s[0] == a[0];
    } else {
      assert s[0] == a[0];
      assert s[1..] == a[1..] + [c] + b;
      WordLenBeforeSpace(a[1..], c, b);
    }
  }

  /** `split()` of a single word is that word. */
  lemma WordsOfWord(w: string)
    requires IsWord(w)
    ensures Words(w) == [w]
  {
    WordsHead(w, "");
    assert w + "" == w;
  }

  /** `split()` of an all-whitespace string is empty. */
  lemma {:induction false} WordsOfSpace(s: string)
    requires AllSpace(s)
    ensures Words(s) == []
    decreases |s|
  {
    if s != [] {
      assert IsSpace(s[0]);
      WordsOfSpace(s[1..]);
    }
  }

  /** Leading whitespace, of any length, does not change the words. */
  lemma {:induction false} WordsAfterSpace(g: string, t: string)
    requires AllSpace(g)
    ensures Words(g + t) == Words(t)
    decreases |g|
  {
    if g == [] {
      assert g + t == t;
    } else {
      assert g + t == [g[0]] + (g[1..] + t);
      assert IsSpace(g[0]) && AllSpace(g[1..]);
      WordsSkipSpace(g[0], g[1..] + t);
      WordsAfterSpace(g[1..], t);
    }
  }

  /** `split()` cuts at every whitespace character: the words of `a`, a
      whitespace character and `b` are the words of `a` followed by those
      of `b`. With `WordsOfWord` and `WordsOfSpace` this determines the
      words of every string, however many and whichever whitespace
      characters separate them. */
  lemma {:induction false} WordsAtSpace(a: string, c: char, b: string)
    requires IsSpace(c)
    ensures Words(a + [c] + b) == Words(a) + Words(b)
    decreases |a|
  {
    var s := a + [c] + b;
    if a == [] {
      assert s == [c] + b;
      WordsSkipSpace(c, b);
    } else if IsSpace(a[0]) {
      assert s[0] == a[0];
      assert s[1..] == a[1..] + [c] + b;
      WordsAtSpace(a[1..], c, b);
    } else {
      assert s[0] == a[0];
      var n := WordLen(a);
      WordLenBeforeSpace(a, c, b);
      assert s[..n] == a[..n];
      assert s[n..] == a[n..] + [c] + b;
      WordsAtSpace(a[n..], c, b);
      assert Words(s) == [a[..n]] + Words(a[n..] + [c] + b);
      assert Words(a) == [a[..n]] + Words(a[n..]);
    }
  }

  /** A joined word list always splits back into the same words. */
  lemma {:induction false} WordsOfJoin(ws: seq<string>)
    requires forall k :: 0 <= k < |ws| ==> IsWord(ws[k])
    ensures Words(JoinSpaces(ws)) == ws
  {
    if ws == [] {
    } else if |ws| == 1 {
      WordsHead(ws[0], "");
      assert ws[0] + "" == ws[0];
    } else {
      var w, rest := ws[0], JoinSpaces(ws[1..]);
      assert JoinSpaces(ws) == w + ([' '] + rest);
      WordsHead(w, [' '] + rest);
      WordsSkipSpace(' ', rest);
      WordsOfJoin(ws[1..]);
    }
  }

  /** Joining words gives a string with no whitespace at either end, which
      is nonempty exactly when there is a word. */
  lemma {:induction false} JoinOfWordsTrimmed(ws: seq<string>)
    requires forall k :: 0 <= k < |ws| ==> IsWord(ws[k])
    ensures Trimmed(JoinSpaces(ws))
    ensures JoinSpaces(ws) == [] <==> ws == []
    ensures ws != [] ==> JoinSpaces(ws)[..|ws[0]|] == ws[0]
  {
    if |ws| > 1 {
      JoinOfWordsTrimmed(ws[1..]);
      var j := JoinSpaces(ws);
      assert j == ws[0] + (" " + JoinSpaces(ws[1..]));
      assert j[0] == ws[0][0];
      assert j[|j| - 1] == JoinSpaces(ws[1..])[|JoinSpaces(ws[1..])| - 1];
    }
  }

  // ---------------------------------------------------------------------
  // split(', ')

  /** `s` has the two-character separator ", " starting at index `i`. */
  predicate SepAt(s: string, i: int) {
    0 <= i && i + 1 < |s| && s[i] == ',' && s[i + 1] == ' '
  }

  ghost predicate HasSep(s: string) {
    exists i :: SepAt(s, i)
  }

  /** The first index at or after `k` where ", " starts. */
  function SepIndexFrom(s: string, k: nat): (r: Option<nat>)
    ensures r.Some? ==> k <= r.value && SepAt(s, r.value)
    ensures forall j :: k <= j && (r.None? || j < r.value) ==> !SepAt(s, j)
    decreases |s| - k
  {
    if k + 1 >= |s| then None
    else if s[k] == ',' && s[k + 1] == ' ' then Some(k)
    else SepIndexFrom(s, k + 1)
  }

  /** `", ".join(parts)`. */
  function JoinSep(parts: seq<string>): string {
    if parts == [] then ""
    else if |parts| == 1 then parts[0]
    else parts[0] + ", " + JoinSep(parts[1..])
  }

  lemma NoSepInPrefix(s: string, i: nat)
    requires i <= |s|
    requires forall j :: 0 <= j < i ==> !SepAt(s, j)
    ensures !HasSep(s[..i])
  {
    forall j | SepAt(s[..i], j) ensures false {
      assert SepAt(s, j);
    }
  }

  /** `s.split(', ')`: the pieces between the non-overlapping occurrences of
      ", ", scanning from the left; none of them contains the separator and
      joining them back with ", " gives `s`. */
  function Split(s: string): (parts: seq<string>)
    ensures |parts| >= 1
    ensures forall k :: 0 <= k < |parts| ==> !HasSep(parts[k])
    ensures JoinSep(parts) == s
    ensures !HasSep(s) ==> parts == [s]
    decreases |s|
  {
    match SepIndexFrom(s, 0)
    case None => [s]
    case Some(i) =>
      NoSepInPrefix(s, i);
      var rest := Split(s[i + 2..]);
      assert s == s[..i] + ", " + s[i + 2..];
      [s[..i]] + rest
  }

  /** A separator-free head is always the first piece. */
  lemma {:induction false} SplitAfterHead(a: string, b: string)
    requires !HasSep(a)
    ensures Split(a + ", " + b) == [a] + Split(b)
  {
    var s := a + ", " + b;
    assert SepAt(s, |a|);
    forall j | 0 <= j < |a| ensures !SepAt(s, j) {
      if j + 1 < |a| {
        assert s[j] == a[j] && s[j + 1] == a[j + 1];
        assert !SepAt(a, j);
      } else {
        assert s[j + 1] == ',';
      }
    }
    assert SepIndexFrom(s, 0) == Some(|a|);
    assert s[..|a|] == a;
    assert s[|a| + 2..] == b;
  }

  // ---------------------------------------------------------------------
  // lower() on ASCII letters

  function LowerChar(c: char): char {
    if 'A' <= c <= 'Z' then (c as int + 32) as char else c
  }

  // ---------------------------------------------------------------------
  // replace(old, new): every non-overlapping occurrence, left to right

  function ReplaceAll(s: string, pat: string, rep: string): string
    requires pat != []
    decreases |s|
  {
    if |s| < |pat| then s
    else if s[..|pat|] == pat then rep + ReplaceAll(s[|pat|..], pat, rep)
    else [s[0]] + ReplaceAll(s[1..], pat, rep)
  }

  /** A string lacking one of the pattern's characters has nothing to replace. */
  lemma {:induction false} ReplaceAllAbsent(s: string, pat: string, rep: string, c: char)
    requires pat != [] && c in pat && c !in s
    ensures ReplaceAll(s, pat, rep) == s
    decreases |s|
  {
    if |s| >= |pat| {
      assert s[..|pat|] != pat by {
        assert c !in s[..|pat|];
      }
      ReplaceAllAbsent(s[1..], pat, rep, c);
    }
  }

  /** Replacing in `pat + t`, where `t` lacks a character of `pat`, rewrites
      only the leading occurrence. */
  lemma ReplaceLeading(pat: string, t: string, rep: string, c: char)
    requires pat != [] && c in pat && c !in t
    ensures ReplaceAll(pat + t, pat, rep) == rep + t
  {
    assert (pat + t)[..|pat|] == pat;
    assert (pat + t)[|pat|..] == t;
    ReplaceAllAbsent(t, pat, rep, c);
  }

  // ---------------------------------------------------------------------
  // str(n) for an integer, and the digits it is made of

  function DigitChar(d: nat): char
    requires d < 10
  {
    ('0' as int + d) as char
  }

  function NatToString(n: nat): (s: string)
    ensures s != [] && forall i :: 0 <= i < |s| ==> '0' <= s[i] <= '9'
    ensures n > 0 ==> s[0] != '0'
  {
    if n < 10 then [DigitChar(n)] else NatToString(n / 10) + [DigitChar(n % 10)]
  }

  /** `str(n)`: decimal digits, with a leading '-' for a negative number. */
  function IntToString(n: int): string {
    if n < 0 then "-" + NatToString(-n) else NatToString(n)
  }

  /** Reading decimal digits back, most significant first. */
  function DigitsValue(s: string): nat
    requires forall i :: 0 <= i < |s| ==> '0' <= s[i] <= '9'
  {
    if s == [] then 0
    else 10 * DigitsValue(s[..|s| - 1]) + (s[|s| - 1] as int - '0' as int)
  }

  lemma {:induction false} NatToStringRoundTrip(n: nat)
    ensures DigitsValue(NatToString(n)) == n
  {
    if n >= 10 {
      NatToStringRoundTrip(n / 10);
      var s := NatToString(n);
      assert s[..|s| - 1] == NatToString(n / 10);
    }
  }
}
