/** The spacing enforcer, `add_space_after_punctuation` (run.py:35-44). */
module Spacing {
  import opened Chars
  import opened Punctuation

  /** The list of run.py:39 that are never given a space: the curly
      double and single quotes. */
  const Quotes: seq<string> := ["\U{201C}", "\U{201D}", "\U{2018}", "\U{2019}"]

  predicate IsQuote(c: char) {
    c == '\U{201C}' || c == '\U{201D}' || c == '\U{2018}' || c == '\U{2019}'
  }

  /** The list holds exactly the four curly quotes, one character each;
      all four are in the mark class, so only this list keeps them from
      being spaced, and the normaliser maps them to ASCII quotes. */
  lemma QuotesListed(c: char)
    ensures [c] in Quotes <==> IsQuote(c)
    ensures IsQuote(c) ==> IsMark(c) && (HalfWidth(c) == '"' || HalfWidth(c) == '\'')
  {
  }

  /** Whether the match at `i` gets a space: a mark that is not a quote,
      followed in the input by anything but ' ' or by nothing at all. */
  predicate Spaced(text: string, i: nat)
    requires i < |text|
  {
    IsMark(text[i]) && !IsQuote(text[i]) && (i + 1 == |text| || text[i + 1] != ' ')
  }

  /** How many spaces the scan inserts before position `k`. */
  function Inserted(text: string, k: nat): (n: nat)
    requires k <= |text|
    ensures n <= k
  {
    if k == 0 then 0 else Inserted(text, k - 1) + (if Spaced(text, k - 1) then 1 else 0)
  }

  /** The callback `add_space` (run.py:36-41) for a match at `start`: it
      looks ahead at the unmodified input `text`; past the end the next
      character is '', which differs from ' '. */
  function AddSpace(text: string, start: nat): (r: string)
    requires start < |text| && IsMark(text[start])
    ensures r == if Spaced(text, start) then [text[start], ' '] else [text[start]]
  {
    var punctuation := [text[start]];
    var end := start + 1;
    var nextChar := if end < |text| then [text[end]] else [];
    assert punctuation !in Quotes <==> !IsQuote(text[start]);
    if punctuation !in Quotes && nextChar != [' '] then punctuation + [' ']
    else punctuation
  }

  /** The `re.sub` scan of run.py:44 from position `i` on. Its result
      starts with the character at `i`, and its length grows by the number
      of spaces inserted from `i` on. */
  function AddSpaceFrom(text: string, i: nat): (r: string)
    requires i <= |text|
    ensures |r| == |text| - i + Inserted(text, |text|) - Inserted(text, i)
    ensures i < |text| ==> |r| > 0 && r[0] == text[i]
    decreases |text| - i
  {
    if i == |text| then []
    else
      InsertedMonotone(text, i + 1, |text|);
      Piece(text, i) + AddSpaceFrom(text, i + 1)
  }

  /** What the scan emits for position `i`: the callback's result for a
      mark, the character itself otherwise. */
  function Piece(text: string, i: nat): (r: string)
    requires i < |text|
    ensures r == if Spaced(text, i) then [text[i], ' '] else [text[i]]
  {
    if IsMark(text[i]) then AddSpace(text, i) else [text[i]]
  }

  lemma {:induction false} InsertedMonotone(text: string, j: nat, k: nat)
    requires j <= k <= |text|
    ensures Inserted(text, j) <= Inserted(text, k)
    decreases k - j
  {
    if j < k {
      InsertedMonotone(text, j, k - 1);
    }
  }

  /** `add_space_after_punctuation` (run.py:35-44). */
  function AddSpaceAfterPunctuation(text: string): (r: string)
    ensures |r| == |text| + Inserted(text, |text|)
  {
    AddSpaceFrom(text, 0)
  }

  /** What the scan emits for the positions before `j`: each input
      character and each space inserted before `j`. */
  function PiecesBefore(text: string, j: nat): (r: string)
    requires j <= |text|
    ensures |r| == j + Inserted(text, j)
  {
    if j == 0 then [] else PiecesBefore(text, j - 1) + Piece(text, j - 1)
  }

  lemma {:induction false} AddSpaceSplit(text: string, j: nat)
    requires j <= |text|
    ensures AddSpaceAfterPunctuation(text) == PiecesBefore(text, j) + AddSpaceFrom(text, j)
  {
    if j > 0 {
      AddSpaceSplit(text, j - 1);
      var x, y, z := PiecesBefore(text, j - 1), Piece(text, j - 1), AddSpaceFrom(text, j);
      assert AddSpaceFrom(text, j - 1) == y + z;
      AppendAssoc(x, y, z);
    } else {
      assert PiecesBefore(text, 0) + AddSpaceFrom(text, 0) == AddSpaceFrom(text, 0);
    }
  }

  /** Each input character lands at its index plus the number of spaces
      inserted before it, in order, and a space follows every mark that is
      given one; with the length this accounts for every output position,
      so deleting the inserted spaces gives the input back. */
  lemma AddSpaceAt(text: string, j: nat)
    requires j < |text|
    ensures j + Inserted(text, j) < |AddSpaceAfterPunctuation(text)|
    ensures AddSpaceAfterPunctuation(text)[j + Inserted(text, j)] == text[j]
    ensures Spaced(text, j) ==> j + Inserted(text, j) + 1 < |AddSpaceAfterPunctuation(text)|
    ensures Spaced(text, j) ==> AddSpaceAfterPunctuation(text)[j + Inserted(text, j) + 1] == ' '
  {
    AddSpaceSplit(text, j);
    var x, y, z := PiecesBefore(text, j), Piece(text, j), AddSpaceFrom(text, j + 1);
    assert AddSpaceFrom(text, j) == y + z;
    ConcatAt(x, y + z, 0);
    if Spaced(text, j) {
      ConcatAt(x, y + z, 1);
    }
  }

  /** Output position `p` is where the scan puts input character `k`, or
      the space it inserts after `k`. */
  predicate Emits(text: string, k: nat, p: nat)
    requires k < |text|
  {
    p == k + Inserted(text, k) || (Spaced(text, k) && p == k + Inserted(text, k) + 1)
  }

  /** What the scan writes at output position `p` for input position `k`:
      the input character itself, or the inserted space after it. */
  function Emitted(text: string, k: nat, p: nat): char
    requires k < |text|
  {
    if p == k + Inserted(text, k) then text[k] else ' '
  }

  /** Every position before `j + Inserted(text, j)` of the output holds
      an input character from before `j` or a space inserted after one. */
  lemma {:induction false} CoveredBefore(text: string, j: nat, p: nat)
    requires j <= |text| && p < j + Inserted(text, j)
    ensures exists k :: 0 <= k < j && Emits(text, k, p)
  {
    if p < j - 1 + Inserted(text, j - 1) {
      CoveredBefore(text, j - 1, p);
    } else {
      assert Emits(text, j - 1, p);
    }
  }

  /** The output is made of nothing but the input characters, in order,
      and the spaces inserted after marks: each output position holds the
      input character `k` at `k + Inserted(text, k)`, or the space after a
      spaced mark `k`. Deleting the inserted spaces therefore gives back
      the input. */
  lemma AddSpaceOutput(text: string, p: nat)
    requires p < |AddSpaceAfterPunctuation(text)|
    ensures exists k :: 0 <= k < |text| && Emits(text, k, p) && AddSpaceAfterPunctuation(text)[p] == Emitted(text, k, p)
  {
    CoveredBefore(text, |text|, p);
    var k :| 0 <= k < |text| && Emits(text, k, p);
    AddSpaceAt(text, k);
  }

  /** So the stage cannot be undone from its output alone: a mark with and
      without a space after it come out the same. */
  lemma SpacedAndUnspacedMeet()
    ensures AddSpaceAfterPunctuation("\U{FF0C}") == AddSpaceAfterPunctuation("\U{FF0C} ") == "\U{FF0C} "
  {
    var a, b := "\U{FF0C}", "\U{FF0C} ";
    assert Spaced(a, 0) && !Spaced(b, 0) && !Spaced(b, 1);
    assert AddSpaceFrom(a, 1) == [] && AddSpaceFrom(b, 2) == [];
    assert AddSpaceFrom(b, 1) == [' '];
  }

  /** Every mark that is not a quote is followed by a space. */
  predicate MarksSpaced(s: string) {
    forall j :: 0 <= j < |s| && IsMark(s[j]) && !IsQuote(s[j]) ==> j + 1 < |s| && s[j + 1] == ' '
  }

  lemma {:induction false} MarksSpacedFrom(text: string, i: nat)
    requires i <= |text|
    ensures MarksSpaced(AddSpaceFrom(text, i))
    decreases |text| - i
  {
    if i < |text| {
      var piece, rest := Piece(text, i), AddSpaceFrom(text, i + 1);
      var r := AddSpaceFrom(text, i);
      assert r == piece + rest;
      MarksSpacedFrom(text, i + 1);
      forall j | 0 <= j < |r| && IsMark(r[j]) && !IsQuote(r[j])
        ensures j + 1 < |r| && r[j + 1] == ' '
      {
        if j >= |piece| {
          assert r[j] == rest[j - |piece|];
          assert j + 1 < |r| && r[j + 1] == rest[j + 1 - |piece|];
        } else if j == 0 && !Spaced(text, i) {
          assert r[1] == rest[0];
        }
      }
    }
  }

  /** After the stage every mark but the quotes is followed by a space. */
  lemma AddSpaceSpacesMarks(text: string)
    ensures MarksSpaced(AddSpaceAfterPunctuation(text))
  {
    MarksSpacedFrom(text, 0);
  }

  lemma {:induction false} NoneInserted(text: string, k: nat)
    requires k <= |text|
    ensures Inserted(text, k) == 0 <==> forall i :: 0 <= i < k ==> !Spaced(text, i)
  {
    if k > 0 {
      NoneInserted(text, k - 1);
    }
  }

  lemma {:induction false} AddSpaceFromFixes(text: string, i: nat)
    requires i <= |text|
    requires forall j :: 0 <= j < |text| ==> !Spaced(text, j)
    ensures AddSpaceFrom(text, i) == text[i..]
    decreases |text| - i
  {
    if i < |text| {
      AddSpaceFromFixes(text, i + 1);
      assert text[i..] == [text[i]] + text[i + 1..];
    }
  }

  /** The texts the stage leaves unchanged are exactly those in which
      every mark but the quotes is already followed by a space. */
  lemma AddSpaceFixpoint(text: string)
    ensures AddSpaceAfterPunctuation(text) == text <==> MarksSpaced(text)
  {
    NoneInserted(text, |text|);
    if MarksSpaced(text) {
      forall j | 0 <= j < |text| ensures !Spaced(text, j) {
      }
      AddSpaceFromFixes(text, 0);
    }
    if AddSpaceAfterPunctuation(text) == text {
      AddSpaceSpacesMarks(text);
    }
  }

  /** Applying the stage twice is applying it once. */
  lemma AddSpaceIdempotent(text: string)
    ensures AddSpaceAfterPunctuation(AddSpaceAfterPunctuation(text)) == AddSpaceAfterPunctuation(text)
  {
    AddSpaceSpacesMarks(text);
    AddSpaceFixpoint(AddSpaceAfterPunctuation(text));
  }

  /** A quote never gets a space: what follows it in the output is what
      followed it in the input, or nothing. */
  lemma {:induction false} QuoteNeverSpaced(text: string, j: nat)
    requires j < |text| && IsQuote(text[j])
    ensures var r := AddSpaceAfterPunctuation(text);
      j + Inserted(text, j) < |r| && r[j + Inserted(text, j)] == text[j] &&
      (j + 1 < |text| ==> j + Inserted(text, j) + 1 < |r| && r[j + Inserted(text, j) + 1] == text[j + 1]) &&
      (j + 1 == |text| ==> |r| == j + Inserted(text, j) + 1)
  {
    AddSpaceAt(text, j);
    if j + 1 < |text| {
      AddSpaceAt(text, j + 1);
    }
  }

  /** Nothing in ASCII is in the mark class, so ASCII punctuation, such as
      the half-width marks the normaliser writes, never gets a space. */
  lemma {:induction false} AsciiNeverSpaced(text: string, j: nat)
    requires j < |text| && Ord(text[j]) <= 128
    ensures !Spaced(text, j)
  {
    if IsMark(text[j]) {
      MarkFacts(text[j]);
    }
  }

  /** A mark that is not a quote gets a space when it ends the text. */
  lemma {:induction false} TrailingMarkSpaced(text: string)
    requires text != [] && IsMark(text[|text| - 1]) && !IsQuote(text[|text| - 1])
    ensures var r := AddSpaceAfterPunctuation(text);
      |r| == |text| + Inserted(text, |text|) && r[|r| - 1] == ' '
  {
    AddSpaceAt(text, |text| - 1);
  }

  /** On text without other whitespace than single spaces, the stage adds
      no other whitespace and no double space, and keeps the first
      character. */
  lemma {:induction false} AddSpaceFromKeepsShape(text: string, i: nat)
    requires i <= |text|
    requires OnlySpaces(text) && NoDoubleSpace(text)
    ensures OnlySpaces(AddSpaceFrom(text, i)) && NoDoubleSpace(AddSpaceFrom(text, i))
    decreases |text| - i
  {
    if i < |text| {
      var piece, rest := Piece(text, i), AddSpaceFrom(text, i + 1);
      AddSpaceFromKeepsShape(text, i + 1);
      if i + 1 < |text| {
        assert !SpacePairAt(text, i + 1);
      }
      OnlySpacesAppend(piece, rest);
      NoDoubleSpaceAppend(piece, rest);
    }
  }

  lemma AddSpaceKeepsShape(text: string)
    requires OnlySpaces(text) && NoDoubleSpace(text)
    ensures OnlySpaces(AddSpaceAfterPunctuation(text)) && NoDoubleSpace(AddSpaceAfterPunctuation(text))
  {
    AddSpaceFromKeepsShape(text, 0);
  }
}
