/** Character classes shared by the text stages of run.py, and the
    whitespace-shape predicates the stages are specified with. */
module Chars {

  /** Python's `ord` on a one-character string: the Unicode code point. */
  function Ord(c: char): (n: int)
    ensures 0 <= n < 0x11_0000 && !(0xD800 <= n < 0xE000)
  {
    c as int
  }

  /** Distinct characters have distinct code points. */
  lemma OrdInjective(a: char, b: char)
    requires Ord(a) == Ord(b)
    ensures a == b
  {
  }

  /** Python's whitespace, as matched by the regex class `\s` on `str`
      patterns and removed by `str.strip()` without arguments. */
  predicate IsWs(c: char) {
    ('\t' <= c <= '\r') || ('\U{1C}' <= c <= '\U{1F}') || c == ' ' ||
    c == '\U{85}' || c == '\U{A0}' || c == '\U{1680}' ||
    ('\U{2000}' <= c <= '\U{200A}') || c == '\U{2028}' || c == '\U{2029}' ||
    c == '\U{202F}' || c == '\U{205F}' || c == '\U{3000}'
  }

  /** Landmarks of the class: the ASCII controls tab to carriage return,
      the no-break and ideographic spaces are whitespace; the zero-width
      space and the byte-order mark are not; nothing above U+3000 is. */
  lemma WhitespaceClass()
    ensures IsWs(' ') && IsWs('\t') && IsWs('\n') && IsWs('\r')
    ensures IsWs('\U{A0}') && IsWs('\U{3000}')
    ensures !IsWs('\U{200B}') && !IsWs('\U{FEFF}') && !IsWs('a')
    ensures forall c :: IsWs(c) ==> Ord(c) <= 0x3000
  {
  }

  /** Every whitespace character of `s` is the plain space ' '. */
  predicate OnlySpaces(s: string) {
    forall i :: 0 <= i < |s| && IsWs(s[i]) ==> s[i] == ' '
  }

  /** Positions `i - 1` and `i` of `s` both hold a space. */
  predicate SpacePairAt(s: string, i: int)
    requires 0 < i < |s|
  {
    s[i - 1] == ' ' && s[i] == ' '
  }

  /** No two spaces stand next to each other in `s`. */
  predicate NoDoubleSpace(s: string) {
    forall i :: 0 < i < |s| ==> !SpacePairAt(s, i)
  }

  /** `s` neither starts nor ends with whitespace. */
  predicate Trimmed(s: string) {
    s == [] || (!IsWs(s[0]) && !IsWs(s[|s| - 1]))
  }

  /** The shape that the whitespace collapser produces. */
  predicate Normal(s: string) {
    Trimmed(s) && OnlySpaces(s) && NoDoubleSpace(s)
  }

  /** The non-whitespace characters of `s`, in order. */
  function NonWs(s: string): (r: string)
    ensures |r| <= |s|
    ensures forall i :: 0 <= i < |r| ==> !IsWs(r[i])
  {
    if s == [] then []
    else if IsWs(s[0]) then NonWs(s[1..])
    else [s[0]] + NonWs(s[1..])
  }

  lemma {:induction false} NonWsAppend(a: string, b: string)
    ensures NonWs(a + b) == NonWs(a) + NonWs(b)
  {
    if a != [] {
      assert (a + b)[1..] == a[1..] + b;
      NonWsAppend(a[1..], b);
    } else {
      assert a + b == b;
    }
  }

  lemma OnlySpacesAppend(a: string, b: string)
    ensures OnlySpaces(a + b) <==> OnlySpaces(a) && OnlySpaces(b)
  {
    var s := a + b;
    if OnlySpaces(s) {
      forall i | 0 <= i < |a| && IsWs(a[i]) ensures a[i] == ' ' {
        assert a[i] == s[i];
      }
      forall i | 0 <= i < |b| && IsWs(b[i]) ensures b[i] == ' ' {
        assert b[i] == s[|a| + i];
      }
    }
    if OnlySpaces(a) && OnlySpaces(b) {
      forall i | 0 <= i < |s| && IsWs(s[i]) ensures s[i] == ' ' {
        if i >= |a| {
          assert s[i] == b[i - |a|];
        }
      }
    }
  }

  lemma NoDoubleSpaceAppend(a: string, b: string)
    ensures NoDoubleSpace(a + b) <==>
      NoDoubleSpace(a) && NoDoubleSpace(b) && !(a != [] && b != [] && a[|a| - 1] == ' ' && b[0] == ' ')
  {
    var s := a + b;
    if NoDoubleSpace(a) && NoDoubleSpace(b) && !(a != [] && b != [] && a[|a| - 1] == ' ' && b[0] == ' ') {
      forall i | 0 < i < |s| ensures !SpacePairAt(s, i) {
        if i > |a| {
          assert s[i - 1] == b[i - 1 - |a|] && s[i] == b[i - |a|];
          assert !SpacePairAt(b, i - |a|);
        } else if i < |a| {
          assert s[i - 1] == a[i - 1] && s[i] == a[i];
          assert !SpacePairAt(a, i);
        }
      }
    }
    if NoDoubleSpace(s) {
      forall i | 0 < i < |a| ensures !SpacePairAt(a, i) {
        assert s[i - 1] == a[i - 1] && s[i] == a[i];
        assert !SpacePairAt(s, i);
      }
      forall i | 0 < i < |b| ensures !SpacePairAt(b, i) {
        assert s[|a| + i - 1] == b[i - 1] && s[|a| + i] == b[i];
        assert !SpacePairAt(s, |a| + i);
      }
      if a != [] && b != [] && a[|a| - 1] == ' ' {
        assert s[|a| - 1] == ' ' && s[|a|] == b[0];
        assert !SpacePairAt(s, |a|);
      }
    }
  }

  lemma AppendAssoc(x: string, y: string, z: string)
    ensures x + (y + z) == (x + y) + z
  {
  }

  lemma ConcatAt(x: string, y: string, k: nat)
    requires k < |y|
    ensures |x| + k < |x + y| && (x + y)[|x| + k] == y[k]
  {
  }

  /** Text that has whitespace where, and only where, a normal text has
      it, and the very same whitespace characters, is normal too. */
  lemma SameWhitespaceNormal(s: string, t: string)
    requires Normal(s) && |t| == |s|
    requires forall i :: 0 <= i < |s| ==> (IsWs(t[i]) <==> IsWs(s[i]))
    requires forall i :: 0 <= i < |s| ==> IsWs(t[i]) ==> t[i] == s[i]
    ensures Normal(t)
  {
    forall i | 0 < i < |t| ensures !SpacePairAt(t, i) {
      assert !SpacePairAt(s, i);
    }
  }
}
