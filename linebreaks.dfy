/**
 * Line splitting in the current text splitter: every `<br>` variant matched by
 * `/<br\s*\/?>/gi` becomes a newline, the result is split on newlines, the
 * lines are processed one by one and joined again with `<br>`.
 */
module LineBreaks {
  import opened Seqs
  import opened CharClasses

  /** The `<br` that opens a break, in either case. */
  predicate OpensBreak(s: string)
  {
    |s| >= 3 && s[0] == '<' && (s[1] == 'b' || s[1] == 'B') && (s[2] == 'r' || s[2] == 'R')
  }

  /**
   * `b` is one whole match of `<br\s*\/?>`: `<br` in any case, white space,
   * an optional `/` and the closing `>`.
   */
  predicate IsBreak(b: string)
  {
    && OpensBreak(b)
    && |b| >= 4 && b[|b| - 1] == '>'
    && (AllSpace(b[3..|b| - 1]) || (|b| >= 5 && b[|b| - 2] == '/' && AllSpace(b[3..|b| - 2])))
  }

  /**
   * Length of the match of `<br\s*\/?>` at the start of `s`, or 0 when there
   * is none. The white space is consumed greedily; a shorter run could never
   * be followed by `/` or `>`, so there is nothing to backtrack to.
   */
  function BreakAt(s: string): (n: nat)
    ensures n <= |s|
    ensures n > 0 ==> n >= 4 && OpensBreak(s) && s[n - 1] == '>'
  {
    if !OpensBreak(s) then 0
    else
      var k := 3 + SpaceRun(s[3..]);
      var k' := if k < |s| && s[k] == '/' then k + 1 else k;
      if k' < |s| && s[k'] == '>' then k' + 1 else 0
  }

  /** Every match the scanner reports is a break. */
  lemma {:induction false} BreakAtSound(s: string)
    requires BreakAt(s) > 0
    ensures IsBreak(s[..BreakAt(s)])
  {
    var n := BreakAt(s);
    var b := s[..n];
    var r := SpaceRun(s[3..]);
    var k := 3 + r;
    assert forall i | 0 <= i < r :: s[3..][..r][i] == s[3 + i];
    if k < |s| && s[k] == '/' {
      assert b[3..|b| - 2] == s[3..][..r];
    } else {
      assert b[3..|b| - 1] == s[3..][..r];
    }
  }

  /** Every break at the start of a text is found whole, whatever follows it. */
  lemma {:induction false} BreakAtComplete(b: string, rest: string)
    requires IsBreak(b)
    ensures BreakAt(b + rest) == |b|
  {
    var s := b + rest;
    assert s[..|b|] == b;
    if AllSpace(b[3..|b| - 1]) {
      DropConcat(b, rest, 3, |b| - 1);
      SpaceRunOf(b[3..|b| - 1], b[|b| - 1..] + rest);
    } else {
      DropConcat(b, rest, 3, |b| - 2);
      SpaceRunOf(b[3..|b| - 2], b[|b| - 2..] + rest);
    }
  }

  /** Whether a break matches at the start depends only on the characters it covers. */
  lemma {:induction false} BreakAtPrefix(x: string, y: string)
    requires BreakAt(x) > 0
    requires |y| >= BreakAt(x) && y[..BreakAt(x)] == x[..BreakAt(x)]
    ensures BreakAt(y) == BreakAt(x)
  {
    var n := BreakAt(x);
    BreakAtSound(x);
    BreakAtComplete(x[..n], y[n..]);
    assert x[..n] + y[n..] == y;
  }

  /**
   * `s.replace(/<br\s*\/?>/gi, '\n')`: a left-to-right scan that replaces
   * each break by one newline and copies every other character.
   */
  function ReplaceBreaks(s: string): (r: string)
    ensures |r| <= |s|
    ensures r == [] <==> s == []
    decreases |s|
  {
    if s == [] then []
    else
      var n := BreakAt(s);
      if n > 0 then "\n" + ReplaceBreaks(s[n..])
      else [s[0]] + ReplaceBreaks(s[1..])
  }

  /** A character that starts no break is copied. */
  lemma {:induction false} ReplaceCopy(s: string)
    requires s != [] && BreakAt(s) == 0
    ensures ReplaceBreaks(s) == [s[0]] + ReplaceBreaks(s[1..])
  {
  }

  /** Text without `<` is copied, whatever follows it. */
  lemma {:induction false} ReplacePlain(a: string, rest: string)
    requires '<' !in a
    ensures ReplaceBreaks(a + rest) == a + ReplaceBreaks(rest)
    decreases |a|
  {
    if a == [] {
      assert a + rest == rest;
    } else {
      var s := a + rest;
      HeadTail(a, rest);
      assert !OpensBreak(s);
      ReplaceCopy(s);
      assert '<' !in a[1..] by {
        assert forall c | c in a[1..] :: c in a;
      }
      ReplacePlain(a[1..], rest);
      HeadTail(a, ReplaceBreaks(rest));
    }
  }

  /** A break, in any of its spellings, becomes exactly one newline. */
  lemma {:induction false} ReplaceBreak(b: string, rest: string)
    requires IsBreak(b)
    ensures ReplaceBreaks(b + rest) == "\n" + ReplaceBreaks(rest)
  {
    BreakAtComplete(b, rest);
    assert (b + rest)[|b|..] == rest;
  }

  /** A text with no `<` has no break and comes back unchanged. */
  lemma {:induction false} ReplaceIdentity(s: string)
    requires '<' !in s
    ensures ReplaceBreaks(s) == s
  {
    ReplacePlain(s, []);
    assert s + [] == s;
  }

  /**
   * The characters before the first newline of the output were copied from
   * the input one for one.
   */
  lemma {:induction false} CopiedPrefix(x: string, k: nat)
    requires k <= |ReplaceBreaks(x)|
    requires '\n' !in ReplaceBreaks(x)[..k]
    ensures k <= |x| && x[..k] == ReplaceBreaks(x)[..k]
    decreases |x|
  {
    var t := ReplaceBreaks(x);
    if k > 0 {
      assert t[0] != '\n' by {
        assert t[..k][0] == t[0];
      }
      assert x != [] && BreakAt(x) == 0;
      ReplaceCopy(x);
      var t' := ReplaceBreaks(x[1..]);
      ConsTake(x[0], t', k);
      assert '\n' !in t'[..k - 1];
      CopiedPrefix(x[1..], k - 1);
      assert [x[0]] + x[1..] == x;
      ConsTake(x[0], x[1..], k);
    }
  }

  /**
   * The scan is one pass and its output is not rescanned, so a break can appear
   * in the output, but only around a newline the scan wrote or copied: any
   * match of `<br\s*\/?>` in the output contains a newline.
   */
  lemma {:induction false} OutputBreaksHoldNewline(s: string, i: nat)
    requires i <= |ReplaceBreaks(s)|
    requires BreakAt(ReplaceBreaks(s)[i..]) > 0
    ensures '\n' in ReplaceBreaks(s)[i..][..BreakAt(ReplaceBreaks(s)[i..])]
    decreases |s|
  {
    var t := ReplaceBreaks(s);
    var n := BreakAt(t[i..]);
    if s != [] {
      var m := BreakAt(s);
      var rest := if m > 0 then s[m..] else s[1..];
      var t' := ReplaceBreaks(rest);
      if m > 0 {
        assert t == "\n" + t';
      } else {
        ReplaceCopy(s);
      }
      assert t[1..] == t';
      if i > 0 {
        assert t[i..] == t'[i - 1..];
        OutputBreaksHoldNewline(rest, i - 1);
      } else if '\n' !in t[..n] {
        assert t[0] == '<';
        CopiedPrefix(s, n);
        BreakAtPrefix(t, s);
        assert false;
      }
    }
  }

  /** `lines`: the pieces between the line boundaries. */
  function Lines(html: string): (r: seq<string>)
    ensures |r| > 0
    ensures forall j | 0 <= j < |r| :: '\n' !in r[j]
  {
    SplitPiecesFree(ReplaceBreaks(html), '\n');
    Split(ReplaceBreaks(html), '\n')
  }

  /** Number of line boundaries: newlines and breaks, counted in the same left-to-right scan. */
  function Boundaries(s: string): nat
    decreases |s|
  {
    if s == [] then 0
    else if BreakAt(s) > 0 then 1 + Boundaries(s[BreakAt(s)..])
    else (if s[0] == '\n' then 1 else 0) + Boundaries(s[1..])
  }

  /** Each boundary becomes one newline of the replaced text. */
  lemma {:induction false} BoundariesAreNewlines(s: string)
    ensures Count(ReplaceBreaks(s), '\n') == Boundaries(s)
    decreases |s|
  {
    if s != [] {
      var m := BreakAt(s);
      if m > 0 {
        BoundariesAreNewlines(s[m..]);
      } else {
        BoundariesAreNewlines(s[1..]);
      }
    }
  }

  /** There is one more line than there are boundaries. */
  lemma {:induction false} LinesCount(html: string)
    ensures |Lines(html)| == Boundaries(html) + 1
  {
    SplitCount(ReplaceBreaks(html), '\n');
    BoundariesAreNewlines(html);
  }

  /** The lines, rejoined with newlines, are the replaced text: nothing is lost or reordered. */
  lemma {:induction false} LinesRejoin(html: string)
    ensures Join(Lines(html), "\n") == ReplaceBreaks(html)
  {
    JoinSplit(ReplaceBreaks(html), '\n');
  }

  /** Where a piece of a split lies in the split text. */
  lemma {:induction false} SplitPieceOffset(s: string, sep: char, j: nat) returns (o: nat)
    requires j < |Split(s, sep)|
    ensures o + |Split(s, sep)[j]| <= |s|
    ensures s[o..o + |Split(s, sep)[j]|] == Split(s, sep)[j]
    decreases |s|
  {
    if s == [] {
      o := 0;
    } else {
      var rest := Split(s[1..], sep);
      if s[0] == sep {
        if j == 0 {
          o := 0;
        } else {
          var o' := SplitPieceOffset(s[1..], sep, j - 1);
          o := o' + 1;
          TailSlice(s, o', o' + |rest[j - 1]|);
        }
      } else {
        if j == 0 {
          var p := rest[0];
          o := 0;
          SplitFirstPiece(s[1..], sep);
          assert s[..1 + |p|] == [s[0]] + s[1..][..|p|];
        } else {
          var o' := SplitPieceOffset(s[1..], sep, j);
          o := o' + 1;
          TailSlice(s, o', o' + |rest[j]|);
        }
      }
    }
  }

  /** The first piece of a split is a prefix of the split text. */
  lemma {:induction false} SplitFirstPiece(s: string, sep: char)
    ensures |Split(s, sep)[0]| <= |s|
    ensures s[..|Split(s, sep)[0]|] == Split(s, sep)[0]
    decreases |s|
  {
    if s != [] && s[0] != sep {
      SplitFirstPiece(s[1..], sep);
      var p := Split(s[1..], sep)[0];
      assert s[..1 + |p|] == [s[0]] + s[1..][..|p|];
    }
  }

  /** A break inside a piece of `t` is a break of `t` at the same place, with the same characters. */
  lemma {:induction false} BreakInPiece(t: string, o: nat, piece: string, i: nat)
    requires o + |piece| <= |t| && t[o..o + |piece|] == piece
    requires i <= |piece| && BreakAt(piece[i..]) > 0
    ensures BreakAt(t[o + i..]) == BreakAt(piece[i..])
    ensures t[o + i..][..BreakAt(piece[i..])] == piece[i..][..BreakAt(piece[i..])]
  {
    var n := BreakAt(piece[i..]);
    var u, v := t[o + i..][..n], piece[i..][..n];
    forall k | 0 <= k < n ensures u[k] == v[k] {
      assert u[k] == t[o + i + k];
      assert v[k] == piece[i + k];
      assert t[o..o + |piece|][i + k] == t[o + i + k];
    }
    assert u == v;
    BreakAtPrefix(piece[i..], t[o + i..]);
  }

  /** Every match of `<br\s*\/?>` in `t` contains a newline. */
  predicate BreaksHoldNewline(t: string)
  {
    forall i | 0 <= i <= |t| && BreakAt(t[i..]) > 0 :: '\n' in t[i..][..BreakAt(t[i..])]
  }

  /** A piece of `t` holding a break holds a newline, when every break of `t` does. */
  lemma {:induction false} NewlineInPiece(t: string, o: nat, piece: string, i: nat)
    requires BreaksHoldNewline(t)
    requires o + |piece| <= |t| && t[o..o + |piece|] == piece
    requires i <= |piece| && BreakAt(piece[i..]) > 0
    ensures '\n' in piece
  {
    var n := BreakAt(piece[i..]);
    BreakInPiece(t, o, piece, i);
    assert '\n' in t[o + i..][..n];
    assert forall c | c in piece[i..][..n] :: c in piece;
  }

  /** When every break holds a newline, no piece between newlines holds a break. */
  lemma {:induction false} PieceHasNoBreak(t: string, j: nat, i: nat)
    requires BreaksHoldNewline(t)
    requires j < |Split(t, '\n')| && i <= |Split(t, '\n')[j]|
    ensures BreakAt(Split(t, '\n')[j][i..]) == 0
  {
    var line := Split(t, '\n')[j];
    var n := BreakAt(line[i..]);
    if n > 0 {
      var o := SplitPieceOffset(t, '\n', j);
      NewlineInPiece(t, o, line, i);
      SplitPiecesFree(t, '\n');
      assert false;
    }
  }

  /** No line holds a break at position `i`. */
  lemma {:induction false} LineHasNoBreak(html: string, j: nat, i: nat)
    requires j < |Lines(html)| && i <= |Lines(html)[j]|
    ensures BreakAt(Lines(html)[j][i..]) == 0
  {
    var t := ReplaceBreaks(html);
    forall k | 0 <= k <= |t| && BreakAt(t[k..]) > 0 ensures '\n' in t[k..][..BreakAt(t[k..])] {
      OutputBreaksHoldNewline(html, k);
    }
    PieceHasNoBreak(t, j, i);
  }

  /**
   * Every break is a line boundary: no line contains a match of
   * `<br\s*\/?>` at any position, in any case.
   */
  lemma {:induction false} LinesHaveNoBreaks(html: string)
    ensures forall j, i | 0 <= j < |Lines(html)| && 0 <= i <= |Lines(html)[j]| :: BreakAt(Lines(html)[j][i..]) == 0
  {
    forall j, i | 0 <= j < |Lines(html)| && 0 <= i <= |Lines(html)[j]| ensures BreakAt(Lines(html)[j][i..]) == 0 {
      LineHasNoBreak(html, j, i);
    }
  }

  /** `lines.join('<br>')`. */
  function RenderLines(lines: seq<string>): (r: string)
    ensures lines != [] ==> lines[0] <= r
    ensures |lines| == 1 ==> r == lines[0]
    ensures |lines| > 1 ==> lines[0] + "<br>" <= r
  {
    Join(lines, "<br>")
  }

  /** No `<` in `l` starts a `<b` or `<B`, except possibly one at its very end. */
  predicate NoBreakOpening(l: string)
  {
    forall i | 0 <= i < |l| - 1 :: l[i] == '<' ==> l[i + 1] != 'b' && l[i + 1] != 'B'
  }

  /** The rest of a line without break openings has none either. */
  lemma {:induction false} NoBreakOpeningTail(l: string)
    requires l != [] && NoBreakOpening(l)
    ensures NoBreakOpening(l[1..])
  {
    forall i | 0 <= i < |l[1..]| - 1
      ensures l[1..][i] == '<' ==> l[1..][i + 1] != 'b' && l[1..][i + 1] != 'B'
    {
      assert l[1..][i] == l[i + 1] && l[1..][i + 1] == l[i + 2];
    }
  }

  /** The joining `<br>` is a break. */
  lemma {:induction false} ReplaceJoiningBreak(rest: string)
    ensures ReplaceBreaks("<br>" + rest) == "\n" + ReplaceBreaks(rest)
  {
    var br := "<br>";
    assert IsBreak(br) by {
      assert br[3..|br| - 1] == [];
    }
    ReplaceBreak(br, rest);
  }

  /** A line without break openings, followed by `<br>`, does not start with a break. */
  lemma {:induction false} LineStartsNoBreak(l: string, rest: string)
    requires l != [] && NoBreakOpening(l)
    ensures BreakAt(l + ("<br>" + rest)) == 0
  {
    var s := l + ("<br>" + rest);
    assert !OpensBreak(s) by {
      if |l| > 1 {
        assert s[1] == l[1];
        assert l[0] == '<' ==> l[1] != 'b' && l[1] != 'B';
      } else {
        assert s[1] == '<';
      }
    }
  }

  /** A line followed by the joining `<br>` is copied whole, then the `<br>` becomes a newline. */
  lemma {:induction false} ReplaceLineThenBreak(l: string, rest: string)
    requires '\n' !in l && NoBreakOpening(l)
    ensures ReplaceBreaks(l + ("<br>" + rest)) == l + ("\n" + ReplaceBreaks(rest))
    decreases |l|
  {
    if l == [] {
      ReplaceJoiningBreak(rest);
      assert l + ("<br>" + rest) == "<br>" + rest;
    } else {
      var joined := "<br>" + rest;
      var s := l + joined;
      LineStartsNoBreak(l, rest);
      ReplaceCopy(s);
      HeadTail(l, joined);
      NoBreakOpeningTail(l);
      ReplaceLineThenBreak(l[1..], rest);
      HeadTail(l, "\n" + ReplaceBreaks(rest));
    }
  }

  /** Lines without newline or break openings, joined with `<br>`, come back as the same lines in the same order. */
  lemma {:induction false} LinesOfRender(lines: seq<string>)
    requires |lines| > 0
    requires forall j | 0 <= j < |lines| :: '\n' !in lines[j] && NoBreakOpening(lines[j])
    ensures Lines(RenderLines(lines)) == lines
    decreases |lines|
  {
    ReplaceJoined(lines);
    SplitJoin(lines, '\n');
  }

  /** Replacing the breaks of a `<br>`-join gives the `\n`-join. */
  lemma {:induction false} ReplaceJoined(lines: seq<string>)
    requires |lines| > 0
    requires forall j | 0 <= j < |lines| :: '\n' !in lines[j] && NoBreakOpening(lines[j])
    ensures ReplaceBreaks(Join(lines, "<br>")) == Join(lines, "\n")
    decreases |lines|
  {
    if |lines| == 1 {
      ReplaceLineAlone(lines[0]);
    } else {
      var rest := lines[1..];
      assert forall j | 0 <= j < |rest| :: rest[j] == lines[j + 1];
      ReplaceJoined(rest);
      JoinCons(lines, "<br>");
      JoinCons(lines, "\n");
      ReplaceLineThenBreak(lines[0], Join(rest, "<br>"));
    }
  }

  /** A line without newline or break openings has no break: it is copied. */
  lemma {:induction false} ReplaceLineAlone(l: string)
    requires '\n' !in l && NoBreakOpening(l)
    ensures ReplaceBreaks(l) == l
    decreases |l|
  {
    if l != [] {
      assert BreakAt(l) == 0 by {
        if |l| > 1 {
          assert l[0] == '<' ==> l[1] != 'b' && l[1] != 'B';
        }
      }
      ReplaceLineAlone(l[1..]);
      assert [l[0]] + l[1..] == l;
    }
  }

  /** The pieces of `<br<br>>`: an unfinished `<br`, a break, and `>`. */
  lemma {:induction false} SinglePassPieces(s: string)
    requires s == "<br<br>>"
    ensures |s| == 8 && BreakAt(s) == 0
    ensures s[0] == '<' && '<' !in s[1..3] && '<' !in s[7..] && '\n' !in s[..3] && '\n' !in s[7..]
    ensures IsBreak(s[3..7])
    ensures BreakAt(s[..3] + ("\n" + s[7..])) == 5
  {
    assert SpaceRun(s[3..]) == 0;
    var t := s[..3] + ("\n" + s[7..]);
    assert t == "<br\n>";
    assert SpaceRun(t[3..]) == 1;
  }

  /**
   * A character that starts no break, text without `<`, a break and text
   * without `<`: only the break is replaced.
   */
  lemma {:induction false} ReplaceAroundBreak(p: char, a: string, b: string, c: string)
    requires BreakAt([p] + (a + (b + c))) == 0
    requires '<' !in a && IsBreak(b) && '<' !in c
    ensures ReplaceBreaks([p] + (a + (b + c))) == ([p] + a) + ("\n" + c)
  {
    var s := [p] + (a + (b + c));
    ReplaceCopy(s);
    assert s[1..] == a + (b + c);
    ReplacePlain(a, b + c);
    ReplaceBreak(b, c);
    ReplaceIdentity(c);
  }

  /** Two pieces without newline around one newline are two lines. */
  lemma {:induction false} SplitAroundNewline(x: string, c: string)
    requires '\n' !in x && '\n' !in c
    ensures Split(x + ("\n" + c), '\n') == [x, c]
  {
    SplitPrefix(x, '\n', c);
    SplitFree(c, '\n');
  }

  /**
   * A break split across an inner break is not matched twice: `<br<br>>`
   * becomes `<br` + newline + `>`, which is itself a break that the single
   * pass does not revisit, and the lines are `<br` and `>`.
   */
  lemma {:induction false} SinglePass(s: string)
    requires s == "<br<br>>"
    ensures ReplaceBreaks(s) == s[..3] + ("\n" + s[7..])
    ensures BreakAt(ReplaceBreaks(s)) == 5
    ensures Lines(s) == [s[..3], s[7..]]
  {
    SinglePassPieces(s);
    var a, b, c := s[1..3], s[3..7], s[7..];
    assert s == [s[0]] + (a + (b + c));
    assert s[..3] == [s[0]] + a;
    ReplaceAroundBreak(s[0], a, b, c);
    SplitAroundNewline(s[..3], c);
  }
}
