/** The whitespace collapser, `remove_extra_spaces` (run.py:13-14), and
    Python's `str.strip()`, which it and the table pipeline use. */
module Whitespace {
  import opened Chars

  /** Drops the leading run of whitespace (`str.lstrip()`). */
  function TrimStart(s: string): (r: string)
    ensures |r| <= |s| && r == s[|s| - |r|..]
    ensures forall i :: 0 <= i < |s| - |r| ==> IsWs(s[i])
    ensures r == [] || !IsWs(r[0])
  {
    if s != [] && IsWs(s[0]) then TrimStart(s[1..]) else s
  }

  /** Drops the trailing run of whitespace (`str.rstrip()`). */
  function TrimEnd(s: string): (r: string)
    ensures |r| <= |s| && r == s[..|r|]
    ensures forall i :: |r| <= i < |s| ==> IsWs(s[i])
    ensures r == [] || !IsWs(r[|r| - 1])
  {
    if s != [] && IsWs(s[|s| - 1]) then TrimEnd(s[..|s| - 1]) else s
  }

  /** The length of the leading whitespace run of `s`. */
  function Lead(s: string): nat {
    |s| - |TrimStart(s)|
  }

  /** Python's `str.strip()` with no arguments: the result is what is
      left of `s` after removing the whitespace runs at both ends, so it
      has no whitespace at either end, and text that already has none is
      kept. */
  function Strip(s: string): (r: string)
    ensures Lead(s) + |r| <= |s|
    ensures forall i :: 0 <= i < |r| ==> r[i] == s[Lead(s) + i]
    ensures forall i :: 0 <= i < Lead(s) ==> IsWs(s[i])
    ensures forall i :: Lead(s) + |r| <= i < |s| ==> IsWs(s[i])
    ensures Trimmed(r)
    ensures Trimmed(s) ==> r == s
  {
    var t := TrimStart(s);
    var r := TrimEnd(t);
    StripFacts(s, t, r);
    r
  }

  /** What removing a leading whitespace run of `s`, leaving `t`, and then
      a trailing whitespace run of `t`, leaving `r`, amounts to. */
  lemma StripFacts(s: string, t: string, r: string)
    requires |t| <= |s| && t == s[|s| - |t|..]
    requires forall i :: 0 <= i < |s| - |t| ==> IsWs(s[i])
    requires t == [] || !IsWs(t[0])
    requires |r| <= |t| && r == t[..|r|]
    requires forall i :: |r| <= i < |t| ==> IsWs(t[i])
    requires r == [] || !IsWs(r[|r| - 1])
    ensures forall i :: 0 <= i < |r| ==> r[i] == s[|s| - |t| + i]
    ensures forall i :: |s| - |t| + |r| <= i < |s| ==> IsWs(s[i])
    ensures Trimmed(r)
    ensures Trimmed(s) ==> r == s
  {
    var a := |s| - |t|;
    forall i | a + |r| <= i < |s| ensures IsWs(s[i]) {
      assert s[i] == t[i - a];
    }
    if r != [] {
      assert r[0] == t[0];
    }
    if s != [] && Trimmed(s) {
      assert a == 0 && t == s;
      assert |r| == |t|;
    }
  }

  lemma NonWsOfWs(p: string)
    requires forall i :: 0 <= i < |p| ==> IsWs(p[i])
    ensures NonWs(p) == []
  {
    if p != [] {
      NonWsOfWs(p[1..]);
    }
  }

  lemma TrimStartKeeps(s: string)
    ensures NonWs(TrimStart(s)) == NonWs(s)
    ensures OnlySpaces(s) ==> OnlySpaces(TrimStart(s))
    ensures NoDoubleSpace(s) ==> NoDoubleSpace(TrimStart(s))
  {
    var t := TrimStart(s);
    var p := s[..|s| - |t|];
    assert s == p + t;
    assert NonWs(t) == NonWs(s) by {
      NonWsOfWs(p);
      NonWsAppend(p, t);
    }
    assert OnlySpaces(s) ==> OnlySpaces(t) by {
      OnlySpacesAppend(p, t);
    }
    assert NoDoubleSpace(s) ==> NoDoubleSpace(t) by {
      NoDoubleSpaceAppend(p, t);
    }
  }

  lemma TrimEndKeeps(s: string)
    ensures NonWs(TrimEnd(s)) == NonWs(s)
    ensures OnlySpaces(s) ==> OnlySpaces(TrimEnd(s))
    ensures NoDoubleSpace(s) ==> NoDoubleSpace(TrimEnd(s))
  {
    var r := TrimEnd(s);
    var q := s[|r|..];
    assert s == r + q;
    assert NonWs(r) == NonWs(s) by {
      NonWsOfWs(q);
      NonWsAppend(r, q);
    }
    assert OnlySpaces(s) ==> OnlySpaces(r) by {
      OnlySpacesAppend(r, q);
    }
    assert NoDoubleSpace(s) ==> NoDoubleSpace(r) by {
      NoDoubleSpaceAppend(r, q);
    }
  }

  /** Stripping removes whitespace only, from the two ends only: the
      characters that remain keep the whitespace shape they had. */
  lemma StripKeeps(s: string)
    ensures NonWs(Strip(s)) == NonWs(s)
    ensures OnlySpaces(s) ==> OnlySpaces(Strip(s))
    ensures NoDoubleSpace(s) ==> NoDoubleSpace(Strip(s))
  {
    TrimStartKeeps(s);
    TrimEndKeeps(TrimStart(s));
  }

  /** `re.sub(r'\s+', ' ', s)`: each maximal run of whitespace becomes a
      single space, so the result holds no whitespace but ' ', never two
      spaces in a row, and the same non-whitespace characters. */
  function CollapseRuns(s: string): (r: string)
    ensures OnlySpaces(r) && NoDoubleSpace(r)
    ensures NonWs(r) == NonWs(s)
    ensures s == [] <==> r == []
    ensures s != [] ==> (IsWs(s[0]) <==> r[0] == ' ')
    decreases |s|
  {
    if s == [] then []
    else if IsWs(s[0]) then
      var t := TrimStart(s[1..]);
      var rest := CollapseRuns(t);
      OnlySpacesAppend([' '], rest);
      NoDoubleSpaceAppend([' '], rest);
      NonWsAppend([' '], rest);
      assert s[1..] == s[1..][..|s| - 1 - |t|] + t;
      NonWsOfWs(s[1..][..|s| - 1 - |t|]);
      NonWsAppend(s[1..][..|s| - 1 - |t|], t);
      [' '] + rest
    else
      var rest := CollapseRuns(s[1..]);
      OnlySpacesAppend([s[0]], rest);
      NoDoubleSpaceAppend([s[0]], rest);
      NonWsAppend([s[0]], rest);
      [s[0]] + rest
  }

  /** `remove_extra_spaces` (run.py:13-14): the result is in normal shape,
      with no whitespace at the ends, none but ' ' and no double spaces. */
  function RemoveExtraSpaces(s: string): (r: string)
    ensures Normal(r)
  {
    var c := CollapseRuns(s);
    StripKeeps(c);
    Strip(c)
  }

  /** Collapsing keeps every non-whitespace character, in order, and so
      gives the empty text exactly for an all-whitespace input. */
  lemma RemoveExtraSpacesKeepsContent(s: string)
    ensures NonWs(RemoveExtraSpaces(s)) == NonWs(s)
    ensures RemoveExtraSpaces(s) == [] <==> NonWs(s) == []
  {
    var r := RemoveExtraSpaces(s);
    StripKeeps(CollapseRuns(s));
    assert r != [] ==> NonWs(r) == [r[0]] + NonWs(r[1..]);
  }

  /** Text without other whitespace than single spaces is left alone by
      the collapsing substitution. */
  lemma {:induction false} CollapseRunsFixes(s: string)
    requires OnlySpaces(s) && NoDoubleSpace(s)
    ensures CollapseRuns(s) == s
  {
    if s != [] {
      OnlySpacesAppend([s[0]], s[1..]);
      NoDoubleSpaceAppend([s[0]], s[1..]);
      assert s == [s[0]] + s[1..];
      if IsWs(s[0]) {
        assert s[1..] == [] || !IsWs(s[1..][0]);
        assert TrimStart(s[1..]) == s[1..];
      }
      CollapseRunsFixes(s[1..]);
    }
  }

  /** Leading whitespace is dropped the same way when more text follows,
      provided the text ends with a non-whitespace character. */
  lemma {:induction false} TrimStartAppend(a: string, b: string)
    requires a != [] && !IsWs(a[|a| - 1])
    ensures TrimStart(a + b) == TrimStart(a) + b
    ensures TrimStart(a) != [] && !IsWs(TrimStart(a)[|TrimStart(a)| - 1])
  {
    assert (a + b)[0] == a[0];
    if IsWs(a[0]) {
      assert (a + b)[1..] == a[1..] + b;
      assert a[1..][|a| - 2] == a[|a| - 1];
      TrimStartAppend(a[1..], b);
    }
  }

  /** A text that ends with a non-whitespace character closes every run:
      collapsing it and what follows can be done separately. */
  lemma {:induction false} CollapseRunsAppend(a: string, b: string)
    requires a != [] && !IsWs(a[|a| - 1])
    ensures CollapseRuns(a + b) == CollapseRuns(a) + CollapseRuns(b)
    decreases |a|
  {
    var ab := a + b;
    assert ab[0] == a[0] && ab[1..] == a[1..] + b;
    if IsWs(a[0]) {
      var t := TrimStart(a[1..]);
      assert TrimStart(ab[1..]) == t + b && t != [] && !IsWs(t[|t| - 1]) by {
        TrimStartAppend(a[1..], b);
      }
      CollapseRunsAppend(t, b);
      assert CollapseRuns(a) == [' '] + CollapseRuns(t);
      assert CollapseRuns(ab) == [' '] + CollapseRuns(t + b);
      AppendAssoc([' '], CollapseRuns(t), CollapseRuns(b));
    } else if |a| == 1 {
      assert ab[1..] == b;
      assert CollapseRuns(a) == [a[0]] + CollapseRuns([]);
      assert CollapseRuns(ab) == [a[0]] + CollapseRuns(b);
    } else {
      var tail := a[1..];
      assert tail != [] && tail[|tail| - 1] == a[|a| - 1];
      CollapseRunsAppend(tail, b);
      assert CollapseRuns(a) == [a[0]] + CollapseRuns(tail);
      assert CollapseRuns(ab) == [a[0]] + CollapseRuns(tail + b);
      AppendAssoc([a[0]], CollapseRuns(tail), CollapseRuns(b));
    }
  }

  /** A run of whitespace in front of a word becomes one space. */
  lemma {:induction false} CollapseLeadingRun(run: string, word: string)
    requires run != [] && forall i :: 0 <= i < |run| ==> IsWs(run[i])
    requires word != [] && !IsWs(word[0])
    ensures CollapseRuns(run + word) == [' '] + CollapseRuns(word)
  {
    var s := run + word;
    assert s[0] == run[0] && s[1..] == run[1..] + word;
    TrimStartOfRun(run[1..], word);
  }

  lemma {:induction false} TrimStartOfRun(run: string, word: string)
    requires forall i :: 0 <= i < |run| ==> IsWs(run[i])
    requires word != [] && !IsWs(word[0])
    ensures TrimStart(run + word) == word
  {
    if run == [] {
      assert run + word == word;
    } else {
      assert (run + word)[0] == run[0] && (run + word)[1..] == run[1..] + word;
      TrimStartOfRun(run[1..], word);
    }
  }

  /** The texts `remove_extra_spaces` leaves unchanged are exactly those in
      normal shape. */
  lemma RemoveExtraSpacesFixpoint(s: string)
    ensures RemoveExtraSpaces(s) == s <==> Normal(s)
  {
    if Normal(s) {
      CollapseRunsFixes(s);
    }
  }

  /** Collapsing twice is collapsing once. */
  lemma RemoveExtraSpacesIdempotent(s: string)
    ensures RemoveExtraSpaces(RemoveExtraSpaces(s)) == RemoveExtraSpaces(s)
  {
    RemoveExtraSpacesFixpoint(RemoveExtraSpaces(s));
  }

  /** A double space between two words of a cell becomes a single one. */
  lemma CollapseExample()
    ensures RemoveExtraSpaces("Hi\U{FF0C}  x\U{FF01}y") == "Hi\U{FF0C} x\U{FF01}y"
  {
    var head, tail := "Hi\U{FF0C}", "x\U{FF01}y";
    var c := CollapseRuns(head + ("  " + tail));
    assert c == head + ([' '] + tail) by {
      assert CollapseRuns(head) == head by { CollapseRunsFixes(head); }
      assert CollapseRuns("  " + tail) == [' '] + tail by {
        CollapseRunsFixes(tail);
        CollapseLeadingRun("  ", tail);
      }
      CollapseRunsAppend(head, "  " + tail);
    }
    assert head + ("  " + tail) == "Hi\U{FF0C}  x\U{FF01}y";
    assert c == "Hi\U{FF0C} x\U{FF01}y";
    assert Trimmed(c);
  }
}
