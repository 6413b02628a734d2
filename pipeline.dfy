/** The table pipeline, `process_dataframe` (run.py:47-53): the three text
    stages and a final strip, applied column by column to every text cell
    of a table, in place. */
module Pipeline {
  import opened Chars
  import opened Whitespace
  import opened Punctuation
  import opened Spacing

  /** A cell: a Python `str`, or any other value (number, date, boolean,
      missing), which the pipeline never looks into. */
  datatype Cell = Text(s: string) | Opaque(v: int)

  /** A DataFrame column: its label and its cells in row order. */
  datatype Column = Column(name: string, cells: seq<Cell>)

  /** The lambda of run.py:49-52: `f` on a `str`, anything else as is. */
  function ApplyToCell(c: Cell, f: string -> string): Cell {
    if c.Text? then Text(f(c.s)) else c
  }

  /** The lambda keeps the kind of a cell: a `str` cell becomes the
      stage's result on its text, any other cell comes back as it is. */
  lemma ApplyToCellKinds(c: Cell, f: string -> string)
    ensures ApplyToCell(c, f).Text? <==> c.Text?
    ensures c.Text? ==> ApplyToCell(c, f).s == f(c.s)
    ensures !c.Text? ==> ApplyToCell(c, f) == c
  {
  }

  /** `series.apply(...)` with that lambda: a new series of the same
      length, cell by cell. */
  function ApplyToText(cells: seq<Cell>, f: string -> string): (r: seq<Cell>)
    ensures |r| == |cells|
  {
    if cells == [] then [] else [ApplyToCell(cells[0], f)] + ApplyToText(cells[1..], f)
  }

  /** What run.py:49-52 make of one text cell: collapse, then adjust, then
      space, then strip. The result is in normal whitespace shape, so the
      space the spacing stage adds at the very end never survives. */
  function CleanText(s: string): (r: string)
    ensures Normal(r)
  {
    var collapsed := RemoveExtraSpaces(s);
    var adjusted := AdjustPunctuation(collapsed);
    var spaced := AddSpaceAfterPunctuation(adjusted);
    AdjustKeepsNormal(collapsed);
    AddSpaceKeepsShape(adjusted);
    CleanTextShape(spaced);
    Strip(spaced)
  }

  lemma CleanTextShape(t: string)
    requires OnlySpaces(t) && NoDoubleSpace(t)
    ensures Normal(Strip(t))
  {
    StripKeeps(t);
  }

  /** A column after the four passes of run.py:49-52: every text cell
      cleaned by `CleanText`, every other cell kept. */
  function CleanColumn(col: Column): (r: Column)
    ensures r.name == col.name && |r.cells| == |col.cells|
  {
    Column(col.name, ApplyToText(col.cells, CleanText))
  }

  /** `process_dataframe` (run.py:47-53): every column is replaced, in
      place, by its cleaned version and the same table is returned. Labels,
      column order and lengths stay; non-text cells are untouched. */
  method ProcessDataFrame(df: array<Column>) returns (r: array<Column>)
    modifies df
    ensures r == df
    ensures forall k :: 0 <= k < df.Length ==> df[k] == CleanColumn(old(df[k]))
    ensures forall k :: 0 <= k < df.Length ==>
      df[k].name == old(df[k].name) && |df[k].cells| == |old(df[k].cells)|
    ensures forall k, i :: 0 <= k < df.Length && 0 <= i < |old(df[k].cells)| ==>
      df[k].cells[i] == if old(df[k].cells[i]).Text? then Text(CleanText(old(df[k].cells[i]).s)) else old(df[k].cells[i])
  {
    for c := 0 to df.Length
      invariant forall k :: 0 <= k < c ==> df[k] == CleanColumn(old(df[k]))
      invariant forall k :: c <= k < df.Length ==> df[k] == old(df[k])
    {
      ghost var col, before := df[c], df[..];
      StagesCleanCells(col.cells);
      df[c] := df[c].(cells := ApplyToText(df[c].cells, RemoveExtraSpaces));
      df[c] := df[c].(cells := ApplyToText(df[c].cells, AdjustPunctuation));
      df[c] := df[c].(cells := ApplyToText(df[c].cells, AddSpaceAfterPunctuation));
      df[c] := df[c].(cells := ApplyToText(df[c].cells, Strip));
      assert df[c] == CleanColumn(col);
      assert df[..] == before[c := CleanColumn(col)];
    }
    r := df;
    forall k | 0 <= k < df.Length
      ensures df[k].name == old(df[k].name) && |df[k].cells| == |old(df[k].cells)|
      ensures forall i :: 0 <= i < |old(df[k].cells)| ==>
        df[k].cells[i] == if old(df[k].cells[i]).Text? then Text(CleanText(old(df[k].cells[i]).s)) else old(df[k].cells[i])
    {
      CleanColumnShape(old(df[k]));
    }
  }

  /** Cleaning a column keeps its label and length, cleans its text cells
      and leaves every other cell as it was. */
  lemma CleanColumnShape(col: Column)
    ensures CleanColumn(col).name == col.name && |CleanColumn(col).cells| == |col.cells|
    ensures forall i :: 0 <= i < |col.cells| ==>
      CleanColumn(col).cells[i] == if col.cells[i].Text? then Text(CleanText(col.cells[i].s)) else col.cells[i]
  {
    ApplyToTextAt(col.cells, CleanText);
  }

  /** `apply` keeps the length of a series and treats each cell on its
      own: a text cell goes through `f`, any other cell is kept. */
  lemma {:induction false} ApplyToTextAt(cells: seq<Cell>, f: string -> string)
    ensures |ApplyToText(cells, f)| == |cells|
    ensures forall i :: 0 <= i < |cells| ==> ApplyToText(cells, f)[i] == ApplyToCell(cells[i], f)
  {
    if cells != [] {
      ApplyToTextAt(cells[1..], f);
    }
  }

  /** The four `apply` passes of run.py:49-52 on a column make its cleaned
      cells: each text cell goes through the stages in that order. */
  lemma {:induction false} StagesCleanCells(cells: seq<Cell>)
    ensures ApplyToText(ApplyToText(ApplyToText(ApplyToText(cells,
      RemoveExtraSpaces), AdjustPunctuation), AddSpaceAfterPunctuation), Strip) ==
      ApplyToText(cells, CleanText)
  {
    if cells != [] {
      StagesCleanCells(cells[1..]);
      var a := ApplyToText(cells, RemoveExtraSpaces);
      var b := ApplyToText(a, AdjustPunctuation);
      var c := ApplyToText(b, AddSpaceAfterPunctuation);
      assert a[1..] == ApplyToText(cells[1..], RemoveExtraSpaces);
      assert b[1..] == ApplyToText(a[1..], AdjustPunctuation);
      assert c[1..] == ApplyToText(b[1..], AddSpaceAfterPunctuation);
    }
  }

  /** On text that starts with no whitespace and holds no other
      whitespace than single spaces, `strip` removes at most one space, the
      last character. */
  lemma StripSpacedText(t: string)
    requires OnlySpaces(t) && NoDoubleSpace(t) && (t == [] || !IsWs(t[0]))
    ensures Strip(t) == if t != [] && t[|t| - 1] == ' ' then t[..|t| - 1] else t
  {
    assert TrimStart(t) == t;
    if t != [] && t[|t| - 1] == ' ' {
      var u := t[..|t| - 1];
      assert u != [] && u[|u| - 1] == t[|t| - 2];
      assert !SpacePairAt(t, |t| - 1);
      assert !IsWs(u[|u| - 1]);
      assert TrimEnd(u) == u;
    }
  }

  /** The spacing stage ends its output with a space exactly when the last
      character of its input is a mark that gets one. */
  lemma {:induction false} SpacedTextEnd(a: string)
    requires Normal(a)
    ensures var t := AddSpaceAfterPunctuation(a);
      (t != [] && t[|t| - 1] == ' ') <==> (a != [] && Spaced(a, |a| - 1))
  {
    var t := AddSpaceAfterPunctuation(a);
    if a != [] {
      var n := |a| - 1;
      AddSpaceAt(a, n);
      assert |t| == n + Inserted(a, n) + (if Spaced(a, n) then 2 else 1);
    }
  }

  /** The final strip removes nothing but the one space the spacing stage
      writes after a mark that ends the text. */
  lemma FinalStripDropsTrailingSpace(s: string)
    ensures var a := AdjustPunctuation(RemoveExtraSpaces(s));
      var t := AddSpaceAfterPunctuation(a);
      CleanText(s) == if a != [] && Spaced(a, |a| - 1) then t[..|t| - 1] else t
  {
    var a := AdjustPunctuation(RemoveExtraSpaces(s));
    var t := AddSpaceAfterPunctuation(a);
    AdjustKeepsNormal(RemoveExtraSpaces(s));
    AddSpaceKeepsShape(a);
    SpacedTextEnd(a);
    if a != [] {
      assert t != [] && t[0] == a[0] by {
        AddSpaceAt(a, 0);
      }
    }
    StripSpacedText(t);
  }

  /** A Latin cell: the comma after a Latin letter is converted, and the
      converted comma is ASCII, outside the mark class, so no space is put
      after it. */
  lemma LatinExample()
    ensures CleanText("x\U{FF0C}y") == "x,y"
  {
    var s := "x\U{FF0C}y";
    assert RemoveExtraSpaces(s) == s by {
      assert Normal(s);
      RemoveExtraSpacesFixpoint(s);
    }
    assert AdjustPunctuation(s) == "x,y" by {
      LatinAdjust();
    }
    assert AddSpaceAfterPunctuation("x,y") == "x,y" by {
      LatinSpace();
    }
    assert Trimmed("x,y");
  }

  lemma LatinAdjust()
    ensures AdjustPunctuation("x\U{FF0C}y") == "x,y"
  {
    var s := "x\U{FF0C}y";
    var r := AdjustPunctuation(s);
    assert r[0] == 'x' by { AdjustKeepsOthers(s, 0); }
    assert r[1] == ',' by { AdjustPunctuationAt(s, 1); }
    assert r[2] == 'y' by { AdjustKeepsOthers(s, 2); }
  }

  lemma LatinSpace()
    ensures AddSpaceAfterPunctuation("x,y") == "x,y"
  {
    var a := "x,y";
    assert MarksSpaced(a) by {
      forall j | 0 <= j < |a| ensures !IsMark(a[j]) {
        AsciiNeverSpaced(a, j);
      }
    }
    AddSpaceFixpoint(a);
  }

  /** A Chinese cell: the comma after a Chinese character stays
      full-width and, still in the mark class, gets a space. */
  lemma MixedExample()
    ensures CleanText("\U{4F60}\U{FF0C}y") == "\U{4F60}\U{FF0C} y"
  {
    var s := "\U{4F60}\U{FF0C}y";
    assert RemoveExtraSpaces(s) == s by {
      assert Normal(s);
      RemoveExtraSpacesFixpoint(s);
    }
    assert AdjustPunctuation(s) == s by {
      MixedAdjust();
    }
    assert AddSpaceAfterPunctuation(s) == "\U{4F60}\U{FF0C} y" by {
      MixedSpace();
    }
    assert Trimmed("\U{4F60}\U{FF0C} y");
  }

  lemma MixedAdjust()
    ensures AdjustPunctuation("\U{4F60}\U{FF0C}y") == "\U{4F60}\U{FF0C}y"
  {
    var s := "\U{4F60}\U{FF0C}y";
    var r := AdjustPunctuation(s);
    assert r[0] == s[0] by { AdjustKeepsOthers(s, 0); }
    assert r[1] == s[1] by { AdjustPunctuationAt(s, 1); }
    assert r[2] == s[2] by { AdjustKeepsOthers(s, 2); }
  }

  lemma MixedSpace()
    ensures AddSpaceAfterPunctuation("\U{4F60}\U{FF0C}y") == "\U{4F60}\U{FF0C} y"
  {
    var s := "\U{4F60}\U{FF0C}y";
    var r := AddSpaceAfterPunctuation(s);
    assert Inserted(s, 1) == 0 && Inserted(s, 3) == 1 by {
      assert !Spaced(s, 0) && Spaced(s, 1) && !Spaced(s, 2);
    }
    assert r[0] == s[0] by { AddSpaceAt(s, 0); }
    assert r[1] == s[1] && r[2] == ' ' by { AddSpaceAt(s, 1); }
    assert r[3] == s[2] by { AddSpaceAt(s, 2); }
  }
}
