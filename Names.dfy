/**
 * Splitting a roster name of the form "Last, First Middle" into its parts
 * (`parse_name`). The site never shows a suffix, so it is always empty.
 */
module Names {
  import opened PyStr

  datatype NameParts = NameParts(last: string, first: string, middle: string, suffix: string)

  /** `parse_name(full_name)`: with no ", " the whole string is the last
      name; otherwise the last name is the stripped text before the first
      ", ", and the text up to the next ", " (anything after it is dropped)
      supplies the first name (its first word) and the middle name (the
      other words joined by single spaces). */
  function ParseName(fullName: string): (n: NameParts)
    ensures n.suffix == ""
    ensures !HasSep(fullName) ==> n == NameParts(fullName, "", "", "")
    ensures HasSep(fullName) ==>
      && n.last == Strip(Split(fullName)[0])
      && Trimmed(n.last)
      && NoSpace(n.first)
      && Trimmed(n.middle)
      && (n.first == "" ==> n.middle == "")
  {
    var parts := Split(fullName);
    if |parts| >= 2 then
      var nameParts := Words(Strip(parts[1]));
      WordsSplitUp(nameParts);
      NameParts(Strip(parts[0]), FirstWord(nameParts), OtherWords(nameParts), "")
    else
      NameParts(fullName, "", "", "")
  }

  /** The display form "Last, First Middle" (no middle part when empty). */
  function Reassemble(n: NameParts): string {
    n.last + ", " + n.first + (if n.middle != "" then " " + n.middle else "")
  }

  /** When the input splits into exactly two pieces, the parse is read off
      those two pieces. */
  lemma ParseTwoPieces(s: string, a: string, b: string)
    requires Split(s) == [a, b]
    ensures ParseName(s) == NameParts(Strip(a), FirstWord(Words(Strip(b))), OtherWords(Words(Strip(b))), "")
  {
  }

  function FirstWord(ws: seq<string>): string {
    if |ws| > 0 then ws[0] else ""
  }

  function OtherWords(ws: seq<string>): string {
    if |ws| > 1 then JoinSpaces(ws[1..]) else ""
  }

  /** From a list of words, the first name has no whitespace, the middle
      name is trimmed, and there is a middle name only after a first name. */
  lemma WordsSplitUp(ws: seq<string>)
    requires forall k :: 0 <= k < |ws| ==> IsWord(ws[k])
    ensures NoSpace(FirstWord(ws)) && Trimmed(OtherWords(ws))
    ensures FirstWord(ws) == "" <==> ws == []
    ensures OtherWords(ws) == "" <==> |ws| <= 1
  {
    if |ws| > 1 {
      JoinOfWordsTrimmed(ws[1..]);
    }
  }

  /** A normalised name (a trimmed last name and at least one word after
      ", ", no further ", ") parses into exactly its parts, and joining the
      parts back reproduces it. */
  lemma ParseNameRoundTrip(last: string, words: seq<string>)
    requires Trimmed(last) && !HasSep(last)
    requires |words| >= 1 && forall k :: 0 <= k < |words| ==> IsWord(words[k])
    requires !HasSep(JoinSpaces(words))
    ensures ParseName(last + ", " + JoinSpaces(words)) ==
            NameParts(last, words[0], OtherWords(words), "")
    ensures Reassemble(ParseName(last + ", " + JoinSpaces(words))) == last + ", " + JoinSpaces(words)
  {
    var rest := JoinSpaces(words);
    assert Split(last + ", " + rest) == [last, rest] by {
      SplitAfterHead(last, rest);
    }
    ParseTwoPieces(last + ", " + rest, last, rest);
    assert Strip(last) == last by {
      StripTrimmed(last);
    }
    assert Words(Strip(rest)) == words by {
      WordsOfTrimmedJoin(words);
    }
    ReassembleWords(last, words);
  }

  lemma ReassembleWords(last: string, words: seq<string>)
    requires |words| >= 1 && forall k :: 0 <= k < |words| ==> IsWord(words[k])
    ensures Reassemble(NameParts(last, words[0], OtherWords(words), "")) == last + ", " + JoinSpaces(words)
  {
    if |words| == 1 {
      ReassembleOneWord(last, words);
    } else {
      ReassembleMoreWords(last, words);
    }
  }

  lemma ReassembleOneWord(last: string, words: seq<string>)
    requires |words| == 1
    ensures Reassemble(NameParts(last, words[0], OtherWords(words), "")) == last + ", " + JoinSpaces(words)
  {
    assert OtherWords(words) == "";
    assert JoinSpaces(words) == words[0];
  }

  lemma ReassembleMoreWords(last: string, words: seq<string>)
    requires |words| > 1 && words[1] != []
    ensures Reassemble(NameParts(last, words[0], OtherWords(words), "")) == last + ", " + JoinSpaces(words)
  {
    var m := JoinSpaces(words[1..]);
    assert OtherWords(words) == m;
    JoinNonEmpty(words[1..]);
    assert JoinSpaces(words) == words[0] + " " + m;
    assert Reassemble(NameParts(last, words[0], m, "")) == last + ", " + words[0] + (" " + m);
    assert last + ", " + words[0] + (" " + m) == last + ", " + (words[0] + " " + m);
  }

  lemma JoinNonEmpty(ws: seq<string>)
    requires ws != [] && ws[0] != []
    ensures JoinSpaces(ws) != []
  {
    if |ws| > 1 {
      assert JoinSpaces(ws) == ws[0] + " " + JoinSpaces(ws[1..]);
    }
  }

  lemma WordsOfTrimmedJoin(words: seq<string>)
    requires forall k :: 0 <= k < |words| ==> IsWord(words[k])
    ensures Words(Strip(JoinSpaces(words))) == words
  {
    JoinOfWordsTrimmed(words);
    StripTrimmed(JoinSpaces(words));
    WordsOfJoin(words);
  }

  /** Any run of whitespace between the first and the middle name, such as
      two spaces or a tab, parses like a single space. */
  lemma ParseNameAnyGap(last: string, first: string, gap: string, middle: string)
    requires Trimmed(last) && !HasSep(last)
    requires IsWord(first) && IsWord(middle) && gap != [] && AllSpace(gap)
    requires !HasSep(first + gap + middle)
    ensures ParseName(last + ", " + first + gap + middle) == NameParts(last, first, middle, "")
  {
    var rest := first + gap + middle;
    assert Split(last + ", " + rest) == [last, rest] by {
      SplitAfterHead(last, rest);
    }
    assert last + ", " + first + gap + middle == last + ", " + rest;
    ParseTwoPieces(last + ", " + rest, last, rest);
    assert Strip(last) == last by {
      StripTrimmed(last);
    }
    assert Words(Strip(rest)) == [first, middle] by {
      GapStrip(first, gap, middle);
      GapWords(first, gap, middle);
    }
    assert [first, middle][1..] == [middle];
  }

  /** Two words with whitespace between them form a trimmed string, which
      `strip()` leaves as it is. */
  lemma GapStrip(first: string, gap: string, middle: string)
    requires IsWord(first) && IsWord(middle)
    ensures Strip(first + gap + middle) == first + gap + middle
  {
    var rest := first + gap + middle;
    assert rest[0] == first[0] && rest[|rest| - 1] == middle[|middle| - 1];
    StripTrimmed(rest);
  }

  /** Two words with whitespace between them split into those two words. */
  lemma GapWords(first: string, gap: string, middle: string)
    requires IsWord(first) && IsWord(middle) && gap != [] && AllSpace(gap)
    ensures Words(first + gap + middle) == [first, middle]
  {
    var tail := gap[1..] + middle;
    assert first + gap + middle == first + [gap[0]] + tail;
    assert Words(first + [gap[0]] + tail) == Words(first) + Words(tail) by {
      WordsAtSpace(first, gap[0], tail);
    }
    assert Words(tail) == [middle] by {
      assert AllSpace(gap[1..]);
      WordsAfterSpace(gap[1..], middle);
      WordsOfWord(middle);
    }
    WordsOfWord(first);
  }

  /** Only the first two ", "-separated pieces matter: whatever follows a
      second ", " is discarded. */
  lemma ParseNameDropsThirdPiece(a: string, b: string, c: string)
    requires !HasSep(a) && !HasSep(b)
    ensures ParseName(a + ", " + b + ", " + c) == ParseName(a + ", " + b)
  {
    var long := a + ", " + b + ", " + c;
    assert long == a + ", " + (b + ", " + c);
    assert Split(long) == [a] + Split(b + ", " + c) by {
      SplitAfterHead(a, b + ", " + c);
    }
    assert Split(b + ", " + c) == [b] + Split(c) by {
      SplitAfterHead(b, c);
    }
    assert Split(a + ", " + b) == [a, b] by {
      SplitAfterHead(a, b);
    }
    assert |Split(long)| >= 2 && Split(long)[0] == a && Split(long)[1] == b;
  }
}
