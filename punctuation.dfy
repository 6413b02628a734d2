/** The punctuation normaliser, `adjust_punctuation` (run.py:17-32). */
module Punctuation {
  import opened Chars

  /** The regex class `[，。；：！？（）【】《》“”‘’……·]` (run.py:31, 43):
      full-width comma, ideographic full stop, full-width semicolon, colon,
      exclamation and question marks, full-width parentheses, lenticular
      brackets, double angle brackets, the four curly quotes, the
      horizontal ellipsis (written twice in the class, a single member) and
      the middle dot. */
  const Marks: set<char> := {
    '\U{FF0C}', '\U{3002}', '\U{FF1B}', '\U{FF1A}', '\U{FF01}', '\U{FF1F}',
    '\U{FF08}', '\U{FF09}', '\U{3010}', '\U{3011}', '\U{300A}', '\U{300B}',
    '\U{201C}', '\U{201D}', '\U{2018}', '\U{2019}', '\U{2026}', '\U{B7}'
  }

  predicate IsMark(c: char) {
    c in Marks
  }

  const Ellipsis: char := '\U{2026}'

  /** `punctuation_map` (run.py:18-22), keyed by strings as in the source.
      Its ellipsis key is the two-character string "……". */
  const PunctuationMap: map<string, string> := map[
    "\U{FF0C}" := ",", "\U{3002}" := ".", "\U{FF1B}" := ";",
    "\U{FF1A}" := ":", "\U{FF01}" := "!", "\U{FF1F}" := "?",
    "\U{FF08}" := "(", "\U{FF09}" := ")", "\U{3010}" := "[",
    "\U{3011}" := "]", "\U{300A}" := "<", "\U{300B}" := ">",
    "\U{201C}" := "\"", "\U{201D}" := "\"", "\U{2018}" := "'",
    "\U{2019}" := "'", "\U{2026}\U{2026}" := "...", "\U{B7}" := "."
  ]

  /** Python's `dict.get(key, default)`: the stored value for a present
      key, the default for a missing one. */
  function Get(m: map<string, string>, key: string, default: string): (r: string)
    ensures key in m ==> r == m[key]
    ensures key !in m ==> r == default
  {
    if key in m then m[key] else default
  }

  /** The regex class and the map's keys agree: a character is in the
      class exactly when it is a one-character key of `punctuation_map`,
      or it is the ellipsis, whose key has two characters. */
  lemma MarkClassMatchesMap(c: char)
    ensures IsMark(c) <==> ([c] in PunctuationMap || c == Ellipsis)
    ensures [c] in PunctuationMap ==> |PunctuationMap[[c]]| == 1
  {
    assert "\U{2026}\U{2026}" != [c];
  }

  /** The half-width image of each mark, one character at a time: an
      independent reading of the map for the keys a one-character match
      can reach. The ellipsis has none and stays itself. */
  function HalfWidth(c: char): char {
    match c
    case '\U{FF0C}' => ','
    case '\U{3002}' => '.'
    case '\U{FF1B}' => ';'
    case '\U{FF1A}' => ':'
    case '\U{FF01}' => '!'
    case '\U{FF1F}' => '?'
    case '\U{FF08}' => '('
    case '\U{FF09}' => ')'
    case '\U{3010}' => '['
    case '\U{3011}' => ']'
    case '\U{300A}' => '<'
    case '\U{300B}' => '>'
    case '\U{201C}' => '"'
    case '\U{201D}' => '"'
    case '\U{2018}' => '\''
    case '\U{2019}' => '\''
    case '\U{B7}' => '.'
    case _ => c
  }

  /** Looking a single matched mark up in `punctuation_map` yields its
      half-width image; in particular "…" misses the "……" key and the
      default, the mark itself, comes back. */
  lemma MapLookupIsHalfWidth(c: char)
    requires IsMark(c)
    ensures Get(PunctuationMap, [c], [c]) == [HalfWidth(c)]
  {
    if c == Ellipsis {
      assert [c] !in PunctuationMap by {
        assert "\U{2026}\U{2026}" != [c];
      }
    }
  }

  /** Every mark lies outside ASCII and is not whitespace, and its image is
      not whitespace either; every image other than the ellipsis is ASCII. */
  lemma MarkFacts(c: char)
    requires IsMark(c)
    ensures Ord(c) > 128 && !IsWs(c) && !IsWs(HalfWidth(c))
    ensures c != Ellipsis ==> Ord(HalfWidth(c)) < 128 && HalfWidth(c) != c
    ensures c == Ellipsis ==> HalfWidth(c) == c
  {
  }

  /** The callback `replace_punctuation` (run.py:24-29) for a match at
      `start`: it looks back at the unmodified input `text`. */
  function ReplacePunctuation(text: string, start: nat): (r: string)
    requires start < |text| && IsMark(text[start])
    ensures r == [Adjusted(text, start)]
  {
    var punctuation := [text[start]];
    var prevChar := if start > 0 then [text[start - 1]] else [];
    MapLookupIsHalfWidth(text[start]);
    if prevChar != [] && Ord(prevChar[0]) > 128 then punctuation
    else Get(PunctuationMap, punctuation, punctuation)
  }

  /** A mark is converted when it starts the text or follows, in the input,
      a character whose code point is at most 128. */
  predicate Converted(text: string, i: nat)
    requires i < |text|
  {
    IsMark(text[i]) && (i == 0 || Ord(text[i - 1]) <= 128)
  }

  /** The character that position `i` of the input should hold afterwards. */
  function Adjusted(text: string, i: nat): char
    requires i < |text|
  {
    if Converted(text, i) then HalfWidth(text[i]) else text[i]
  }

  /** The `re.sub` scan of run.py:32 from position `i` on: matched marks go
      through the callback, every other character is copied. The result
      has one character per input character, each the `Adjusted` one. */
  function AdjustFrom(text: string, i: nat): (r: string)
    requires i <= |text|
    ensures |r| == |text| - i
    ensures forall k :: 0 <= k < |r| ==> r[k] == Adjusted(text, i + k)
    decreases |text| - i
  {
    if i == |text| then []
    else (if IsMark(text[i]) then ReplacePunctuation(text, i) else [text[i]]) + AdjustFrom(text, i + 1)
  }

  /** `adjust_punctuation` (run.py:17-32): every reachable replacement is
      a single character, so the length is preserved. */
  function AdjustPunctuation(text: string): (r: string)
    ensures |r| == |text|
  {
    AdjustFrom(text, 0)
  }

  /** Length is preserved, and each output character is the input one or
      its half-width image, chosen by looking back at the input. */
  lemma AdjustPunctuationAt(text: string, i: nat)
    requires i < |text|
    ensures |AdjustPunctuation(text)| == |text|
    ensures AdjustPunctuation(text)[i] ==
      if IsMark(text[i]) && (i == 0 || Ord(text[i - 1]) <= 128) then HalfWidth(text[i]) else text[i]
  {
  }

  /** Script sensitivity: a mark other than the ellipsis changes exactly
      when it starts the text or follows a character of code point at most
      128 in the input; otherwise it is kept full-width. */
  lemma {:induction false} ScriptSensitivity(text: string, i: nat)
    requires i < |text| && IsMark(text[i]) && text[i] != Ellipsis
    ensures AdjustPunctuation(text)[i] != text[i] <==> (i == 0 || Ord(text[i - 1]) <= 128)
    ensures i == 0 ==> AdjustPunctuation(text)[i] == HalfWidth(text[i])
  {
    MarkFacts(text[i]);
  }

  /** The lookback reads the input, so a mark that follows another mark
      is always kept, even when the mark before it is converted. */
  lemma {:induction false} MarkAfterMarkKept(text: string, i: nat)
    requires 0 < i < |text| && IsMark(text[i - 1])
    ensures AdjustPunctuation(text)[i] == text[i]
  {
    MarkFacts(text[i - 1]);
  }

  /** "…" is never rewritten: the map's ellipsis key "……" is out of reach. */
  lemma {:induction false} EllipsisKept(text: string, i: nat)
    requires i < |text| && text[i] == Ellipsis
    ensures AdjustPunctuation(text)[i] == Ellipsis
  {
    MarkFacts(text[i]);
  }

  /** Characters outside the mark class stay where they were, and every
      character the stage writes is a whitespace character exactly when the
      input one is, and then the very same one. */
  lemma {:induction false} AdjustKeepsOthers(text: string, i: nat)
    requires i < |text|
    ensures !IsMark(text[i]) ==> AdjustPunctuation(text)[i] == text[i]
    ensures IsWs(AdjustPunctuation(text)[i]) <==> IsWs(text[i])
    ensures IsWs(text[i]) ==> AdjustPunctuation(text)[i] == text[i]
  {
    if IsMark(text[i]) {
      MarkFacts(text[i]);
    }
  }

  /** The normaliser keeps the whitespace shape of its input. */
  lemma AdjustKeepsNormal(text: string)
    requires Normal(text)
    ensures Normal(AdjustPunctuation(text))
  {
    var r := AdjustPunctuation(text);
    forall i | 0 <= i < |text|
      ensures IsWs(r[i]) <==> IsWs(text[i])
      ensures IsWs(r[i]) ==> r[i] == text[i]
    {
      AdjustKeepsOthers(text, i);
    }
    SameWhitespaceNormal(text, r);
  }

  /** In "a，，" only the first comma is converted: the second looks back
      at the first full-width comma of the input. */
  lemma DoubleCommaExample()
    ensures AdjustPunctuation("a\U{FF0C}\U{FF0C}") == "a,\U{FF0C}"
  {
    var text := "a\U{FF0C}\U{FF0C}";
    AdjustPunctuationAt(text, 0);
    AdjustPunctuationAt(text, 1);
    AdjustPunctuationAt(text, 2);
  }

  /** So the normaliser is not idempotent: a second pass converts the
      mark the first pass kept. */
  lemma NotIdempotent()
    ensures AdjustPunctuation(AdjustPunctuation("a\U{FF0C}\U{FF0C}")) != AdjustPunctuation("a\U{FF0C}\U{FF0C}")
  {
    DoubleCommaExample();
    AdjustPunctuationAt("a,\U{FF0C}", 2);
  }
}
