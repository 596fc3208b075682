/**
 * The word tokenizer of the current text splitter: one global `replace` with
 * the pattern
 *   (<span[^>]*>[\s\S]*?<\/span>)|([\w'’]+|&lt;|&gt;|[^\w\s<]+)
 * and a callback that promotes an existing span to a word or wraps a plain
 * token in a word span. The regular expression is written here as a
 * left-to-right scanner producing tokens; the characters no alternative
 * matches are kept as gaps and copied unchanged.
 */
module Tokenizer {
  import opened Seqs
  import opened CharClasses

  // ---------------------------------------------------------------------------
  // Searching

  /** `p` occurs in `s` at index `k`. */
  predicate OccursAt(s: string, p: string, k: nat)
  {
    k + |p| <= |s| && s[k..k + |p|] == p
  }

  /** The first index at or after `from` where `p` occurs in `s`, if any. */
  function Find(s: string, p: string, from: nat): (r: Option<nat>)
    ensures r.Some? ==> from <= r.value && OccursAt(s, p, r.value)
    ensures r.Some? ==> forall k | from <= k < r.value :: !OccursAt(s, p, k)
    ensures r.None? ==> forall k | from <= k :: !OccursAt(s, p, k)
    decreases |s| - from
  {
    if from + |p| > |s| then None
    else if s[from..from + |p|] == p then Some(from)
    else Find(s, p, from + 1)
  }

  // ---------------------------------------------------------------------------
  // The first alternative: an existing span, up to the first `</span>`

  const SpanOpen: string := "<span"
  const SpanClose: string := "</span>"

  /**
   * `s[..n]` is the match of `<span[^>]*>[\s\S]*?<\/span>` whose opening tag
   * ends at the `>` at index `j`: `[^>]*` cannot cross a `>`, so `j` is the
   * first `>` after `<span`, and the lazy `[\s\S]*?` stops at the first
   * `</span>` after it.
   */
  predicate IsSpanMatch(s: string, j: nat, n: nat)
  {
    && 5 <= j && j + 8 <= n <= |s|
    && s[..5] == SpanOpen
    && s[j] == '>' && '>' !in s[5..j]
    && OccursAt(s, SpanClose, n - 7)
    && forall k | j + 1 <= k < n - 7 :: !OccursAt(s, SpanClose, k)
  }

  /** Length of the span match at the start of `s`, or 0 when there is none. */
  function SpanAt(s: string): (n: nat)
    ensures n <= |s|
    ensures n > 0 ==> 13 <= n && s[..5] == SpanOpen && OccursAt(s, SpanClose, n - 7)
  {
    if |s| < 5 || s[..5] != SpanOpen then 0
    else
      match Find(s, ">", 5)
      case None => 0
      case Some(j) =>
        match Find(s, SpanClose, j + 1)
        case None => 0
        case Some(k) => k + 7
  }

  /** A one-element pattern occurs exactly where its element is. */
  lemma {:induction false} OccursOne(s: string, c: char, i: nat)
    ensures OccursAt(s, [c], i) <==> i < |s| && s[i] == c
  {
    if i < |s| {
      assert s[i..i + 1] == [s[i]];
    }
  }

  /** The `>` the search finds after `<span` is the first `>` there. */
  lemma {:induction false} FirstGreater(s: string, j: nat)
    requires 5 <= j < |s|
    ensures (Find(s, ">", 5) == Some(j)) <==> (s[j] == '>' && '>' !in s[5..j])
  {
    forall i | 5 <= i <= j {
      OccursOne(s, '>', i);
    }
    assert ('>' !in s[5..j]) <==> forall i | 5 <= i < j :: s[i] != '>' by {
      assert forall i | 5 <= i < j :: s[5..j][i - 5] == s[i];
    }
  }

  /** Every span match the scanner reports is a span match. */
  lemma {:induction false} SpanAtSound(s: string) returns (j: nat)
    requires SpanAt(s) > 0
    ensures IsSpanMatch(s, j, SpanAt(s))
  {
    j := Find(s, ">", 5).value;
    FirstGreater(s, j);
  }

  /** Every span match at the start of `s` is the one the scanner reports. */
  lemma {:induction false} SpanAtComplete(s: string, j: nat, n: nat)
    requires IsSpanMatch(s, j, n)
    ensures SpanAt(s) == n
  {
    FirstGreater(s, j);
    var f := Find(s, SpanClose, j + 1);
    assert f.Some? && f.value <= n - 7;
  }

  // ---------------------------------------------------------------------------
  // The second alternative: a run of word characters, `&lt;`, `&gt;`, or a
  // run of symbols

  /** `[\w'’]`. */
  predicate InWordRun(c: char)
  {
    IsWordChar(c) || c == '\'' || c == '\U{2019}'
  }

  /** `[^\w\s<]`. */
  predicate InSymbolRun(c: char)
  {
    !IsWordChar(c) && !IsSpace(c) && c != '<'
  }

  /** Length of the greedy `[\w'’]+` run at the start of `s`. */
  function WordRun(s: string): (n: nat)
    ensures n <= |s|
    ensures forall i | 0 <= i < n :: InWordRun(s[i])
    ensures n == |s| || !InWordRun(s[n])
    decreases |s|
  {
    if s == [] || !InWordRun(s[0]) then 0 else 1 + WordRun(s[1..])
  }

  /** Length of the greedy `[^\w\s<]+` run at the start of `s`. */
  function SymbolRun(s: string): (n: nat)
    ensures n <= |s|
    ensures forall i | 0 <= i < n :: InSymbolRun(s[i])
    ensures n == |s| || !InSymbolRun(s[n])
    decreases |s|
  {
    if s == [] || !InSymbolRun(s[0]) then 0 else 1 + SymbolRun(s[1..])
  }

  /** `s` starts with the literal `&lt;` or `&gt;`. */
  predicate StartsEscapedAngle(s: string)
  {
    |s| >= 4 && (s[..4] == "&lt;" || s[..4] == "&gt;")
  }

  /**
   * Length of the match of `[\w'’]+|&lt;|&gt;|[^\w\s<]+` at the start of
   * `s`, trying the alternatives in order, or 0 when none matches.
   */
  function PlainAt(s: string): (n: nat)
    ensures n <= |s|
    ensures n == 0 <==> s == [] || (!InWordRun(s[0]) && !InSymbolRun(s[0]))
    ensures n > 0 && InWordRun(s[0]) ==>
      (forall i | 0 <= i < n :: InWordRun(s[i])) && (n == |s| || !InWordRun(s[n]))
    ensures n > 0 && !InWordRun(s[0]) && StartsEscapedAngle(s) ==> n == 4
    ensures n > 0 && !InWordRun(s[0]) && !StartsEscapedAngle(s) ==>
      (forall i | 0 <= i < n :: InSymbolRun(s[i])) && (n == |s| || !InSymbolRun(s[n]))
  {
    var w := WordRun(s);
    if w > 0 then w
    else if StartsEscapedAngle(s) then
      assert s[0] == s[..4][0] == '&';
      4
    else SymbolRun(s)
  }

  /** No alternative of the pattern matches at the start of `s`. */
  predicate NoMatchAt(s: string)
  {
    SpanAt(s) == 0 && PlainAt(s) == 0
  }

  /**
   * The characters no alternative matches are exactly the white space and the
   * `<` that does not start a complete span.
   */
  lemma {:induction false} NoMatchChars(s: string)
    requires s != []
    ensures NoMatchAt(s) <==> IsSpace(s[0]) || (s[0] == '<' && SpanAt(s) == 0)
  {
    if IsSpace(s[0]) && |s| >= 5 {
      assert s[..5][0] == s[0];
    }
  }

  // ---------------------------------------------------------------------------
  // Tokens

  /**
   * A piece of a line: white space and stray `<` left between the matches,
   * an existing span, or a plain word.
   */
  datatype Token = Gap(text: string) | Span(text: string) | Word(text: string)

  /** The text of the tokens, in order. */
  function Flatten(ts: seq<Token>): string
  {
    if ts == [] then [] else ts[0].text + Flatten(ts[1..])
  }

  /** Puts a gap character in front of the tokens, merging it with a leading gap. */
  function AddGap(c: char, ts: seq<Token>): (r: seq<Token>)
    ensures |r| > 0 && r[0].Gap?
    ensures |r| <= |ts| + 1
  {
    if ts != [] && ts[0].Gap? then [Gap([c] + ts[0].text)] + ts[1..] else [Gap([c])] + ts
  }

  /**
   * The matches of the pattern, leftmost first, with the unmatched characters
   * between them collected into gaps.
   */
  function Tokenize(s: string): (r: seq<Token>)
    ensures |r| <= |s|
    ensures r == [] <==> s == []
    decreases |s|
  {
    if s == [] then []
    else
      var sp := SpanAt(s);
      if sp > 0 then [Span(s[..sp])] + Tokenize(s[sp..])
      else
        var p := PlainAt(s);
        if p > 0 then [Word(s[..p])] + Tokenize(s[p..])
        else AddGap(s[0], Tokenize(s[1..]))
  }

  /**
   * What a token says about the text at the position where it begins: a span
   * is the span match there; a word is the plain match there, where no span
   * matches; at every character of a gap, nothing matches.
   */
  predicate Fits(t: Token, s: string)
  {
    match t
    case Span(x) => SpanAt(s) == |x|
    case Word(x) => SpanAt(s) == 0 && PlainAt(s) == |x|
    case Gap(x) => |x| <= |s| && forall p | 0 <= p < |x| :: NoMatchAt(s[p..])
  }

  /**
   * `ts` reads `s` from left to right, each token non-empty, fitting where it
   * begins and followed by the tokens of the rest.
   */
  predicate Covers(ts: seq<Token>, s: string)
    decreases |ts|
  {
    if ts == [] then s == []
    else
      var x := ts[0].text;
      && x != [] && x <= s && Fits(ts[0], s)
      && Covers(ts[1..], s[|x|..])
  }

  /** No two gaps are next to each other: each gap is a maximal unmatched stretch. */
  predicate GapsMerged(ts: seq<Token>)
  {
    forall i | 0 <= i < |ts| - 1 :: !(ts[i].Gap? && ts[i + 1].Gap?)
  }

  /** Dropping the first token keeps the gaps merged. */
  lemma {:induction false} GapsMergedTail(ts: seq<Token>)
    requires ts != [] && GapsMerged(ts)
    ensures GapsMerged(ts[1..])
  {
    forall i | 0 <= i < |ts| - 2 ensures !(ts[1..][i].Gap? && ts[1..][i + 1].Gap?) {
      assert ts[1..][i] == ts[i + 1];
      assert ts[1..][i + 1] == ts[i + 2];
    }
  }

  /** Putting a token in front keeps the gaps merged, unless two gaps meet. */
  lemma {:induction false} GapsMergedCons(t: Token, rest: seq<Token>)
    requires GapsMerged(rest)
    requires rest == [] || !(t.Gap? && rest[0].Gap?)
    ensures GapsMerged([t] + rest)
  {
    var ts := [t] + rest;
    forall i | 0 <= i < |ts| - 1 ensures !(ts[i].Gap? && ts[i + 1].Gap?) {
      if i > 0 {
        assert ts[i] == rest[i - 1];
        assert ts[i + 1] == rest[i];
      }
    }
  }

  /** A token that fits in front of the tokens of the rest of the text. */
  lemma {:induction false} CoversCons(t: Token, rest: seq<Token>, s: string)
    requires t.text != [] && t.text <= s && Fits(t, s)
    requires Covers(rest, s[|t.text|..])
    ensures Covers([t] + rest, s)
  {
    assert ([t] + rest)[1..] == rest;
  }

  /** The tokenizer reads its input as `Covers` describes, with merged gaps. */
  lemma {:induction false} TokenizeCovers(s: string)
    ensures Covers(Tokenize(s), s)
    ensures GapsMerged(Tokenize(s))
    decreases |s|
  {
    if s != [] {
      var sp := SpanAt(s);
      var p := PlainAt(s);
      if sp > 0 {
        TokenizeCovers(s[sp..]);
        CoversCons(Span(s[..sp]), Tokenize(s[sp..]), s);
        GapsMergedCons(Span(s[..sp]), Tokenize(s[sp..]));
      } else if p > 0 {
        TokenizeCovers(s[p..]);
        CoversCons(Word(s[..p]), Tokenize(s[p..]), s);
        GapsMergedCons(Word(s[..p]), Tokenize(s[p..]));
      } else {
        TokenizeCovers(s[1..]);
        GapCovers(s);
      }
    }
  }

  /** The gap step of `TokenizeCovers`. */
  lemma {:induction false} GapCovers(s: string)
    requires s != [] && NoMatchAt(s)
    requires Covers(Tokenize(s[1..]), s[1..]) && GapsMerged(Tokenize(s[1..]))
    ensures Covers(Tokenize(s), s) && GapsMerged(Tokenize(s))
  {
    var rest := Tokenize(s[1..]);
    assert Tokenize(s) == AddGap(s[0], rest);
    if rest != [] && rest[0].Gap? {
      GapGrows(s, rest);
    } else {
      assert s[0..] == s;
      assert [s[0]] <= s;
      CoversCons(Gap([s[0]]), rest, s);
      GapsMergedCons(Gap([s[0]]), rest);
    }
  }

  /** An unmatched character in front of a gap that fits makes a longer gap that fits. */
  lemma {:induction false} GapFitsLonger(s: string, g: string)
    requires s != [] && NoMatchAt(s)
    requires g <= s[1..] && Fits(Gap(g), s[1..])
    ensures [s[0]] + g <= s && Fits(Gap([s[0]] + g), s)
  {
    var x := [s[0]] + g;
    assert s == [s[0]] + s[1..];
    forall p | 0 <= p < |x| ensures NoMatchAt(s[p..]) {
      if p > 0 {
        assert s[p..] == s[1..][p - 1..];
      }
    }
  }

  /** Replacing the first gap by another keeps the gaps merged. */
  lemma {:induction false} GapsMergedNewGap(x: string, rest: seq<Token>)
    requires rest != [] && rest[0].Gap? && GapsMerged(rest)
    ensures GapsMerged([Gap(x)] + rest[1..])
  {
    GapsMergedTail(rest);
    if rest[1..] != [] {
      assert rest[1..][0] == rest[1];
    }
    GapsMergedCons(Gap(x), rest[1..]);
  }

  /** An unmatched character joins the gap that follows it. */
  lemma {:induction false} GapGrows(s: string, rest: seq<Token>)
    requires s != [] && NoMatchAt(s)
    requires Covers(rest, s[1..]) && GapsMerged(rest)
    requires rest != [] && rest[0].Gap?
    ensures Covers([Gap([s[0]] + rest[0].text)] + rest[1..], s)
    ensures GapsMerged([Gap([s[0]] + rest[0].text)] + rest[1..])
  {
    var g := rest[0].text;
    var x := [s[0]] + g;
    GapFitsLonger(s, g);
    assert s[|x|..] == s[1..][|g|..];
    CoversCons(Gap(x), rest[1..], s);
    GapsMergedNewGap(x, rest);
  }

  /** Tokens that cover a text spell it out: nothing is lost, added or reordered. */
  lemma {:induction false} CoversFlatten(ts: seq<Token>, s: string)
    requires Covers(ts, s)
    ensures Flatten(ts) == s
    decreases |ts|
  {
    if ts != [] {
      var x := ts[0].text;
      CoversFlatten(ts[1..], s[|x|..]);
      assert s == s[..|x|] + s[|x|..];
    }
  }

  /**
   * There is only one way to cover a text with merged gaps: the match
   * semantics of the pattern fixes the tokens.
   */
  lemma {:induction false} CoversUnique(ts: seq<Token>, us: seq<Token>, s: string)
    requires Covers(ts, s) && GapsMerged(ts)
    requires Covers(us, s) && GapsMerged(us)
    ensures ts == us
    decreases |ts|
  {
    if ts != [] && us != [] {
      var x, y := ts[0].text, us[0].text;
      if ts[0].Gap? && us[0].Gap? {
        GapEnd(ts, us, s);
        GapEnd(us, ts, s);
      }
      SameHead(ts[0], us[0], s);
      GapsMergedTail(ts);
      GapsMergedTail(us);
      CoversUnique(ts[1..], us[1..], s[|x|..]);
      assert ts == [ts[0]] + ts[1..] && us == [us[0]] + us[1..];
    }
  }

  /** Right after a leading gap the text ends or something matches. */
  lemma {:induction false} AfterGap(ts: seq<Token>, s: string)
    requires Covers(ts, s) && GapsMerged(ts)
    requires ts != [] && ts[0].Gap?
    ensures |ts[0].text| == |s| || !NoMatchAt(s[|ts[0].text|..])
  {
    var x := ts[0].text;
    var rest := ts[1..];
    if rest == [] {
      assert s[|x|..] == [];
    } else {
      assert ts[1] == rest[0];
      assert !rest[0].Gap?;
      assert Fits(rest[0], s[|x|..]);
    }
  }

  /**
   * A gap covering `ts[0]` does not stop before a gap covering `us[0]` does:
   * after a gap comes a match, and a gap has no match inside it.
   */
  lemma {:induction false} GapEnd(ts: seq<Token>, us: seq<Token>, s: string)
    requires Covers(ts, s) && GapsMerged(ts)
    requires Covers(us, s)
    requires ts != [] && us != [] && ts[0].Gap? && us[0].Gap?
    ensures |ts[0].text| >= |us[0].text|
  {
    AfterGap(ts, s);
    assert Fits(us[0], s);
  }

  /** Two tokens that both fit where they begin, gaps of equal length, are equal. */
  lemma {:induction false} SameHead(t: Token, u: Token, s: string)
    requires t.text != [] && t.text <= s && Fits(t, s)
    requires u.text != [] && u.text <= s && Fits(u, s)
    requires t.Gap? && u.Gap? ==> |t.text| == |u.text|
    ensures t == u
  {
    assert s[0..] == s;
    assert t.text == s[..|t.text|] && u.text == s[..|u.text|];
  }

  /** The tokenizer is the only tokenization of its input with merged gaps. */
  lemma {:induction false} TokenizeUnique(s: string, ts: seq<Token>)
    requires Covers(ts, s) && GapsMerged(ts)
    ensures ts == Tokenize(s)
  {
    TokenizeCovers(s);
    CoversUnique(ts, Tokenize(s), s);
  }

  /** Concatenating the tokens gives back the line: the tokenizer is lossless. */
  lemma {:induction false} TokenizeLossless(s: string)
    ensures Flatten(Tokenize(s)) == s
  {
    TokenizeCovers(s);
    CoversFlatten(Tokenize(s), s);
  }

  /** What each kind of token is made of. */
  predicate TokenShape(t: Token)
  {
    match t
    case Gap(x) => x != [] && forall i | 0 <= i < |x| :: IsSpace(x[i]) || x[i] == '<'
    case Span(x) => |x| >= 13 && x[..5] == SpanOpen && x[|x| - 7..] == SpanClose
    case Word(x) =>
      || (x != [] && forall i | 0 <= i < |x| :: InWordRun(x[i]))
      || x == "&lt;" || x == "&gt;"
      || (x != [] && forall i | 0 <= i < |x| :: InSymbolRun(x[i]))
  }

  /** A token that fits where it begins has its kind's shape. */
  lemma {:induction false} FitsShape(t: Token, s: string)
    requires t.text != [] && t.text <= s && Fits(t, s)
    ensures TokenShape(t)
  {
    var x := t.text;
    assert x == s[..|x|];
    match t
    case Gap(_) =>
      forall i | 0 <= i < |x| ensures IsSpace(x[i]) || x[i] == '<' {
        assert s[i..] != [] && s[i..][0] == x[i];
        NoMatchChars(s[i..]);
      }
    case Span(_) =>
      var j := SpanAtSound(s);
      assert x[..5] == s[..5];
      assert x[|x| - 7..] == s[|x| - 7..|x|];
    case Word(_) =>
      if !InWordRun(s[0]) && StartsEscapedAngle(s) {
        assert x == s[..4];
      }
  }

  /**
   * Every token of a tokenized line has its shape: gaps are white space and
   * stray `<`, spans run from `<span` to `</span>`, and words are one run of
   * word characters, an escaped angle bracket, or one run of symbols.
   */
  lemma {:induction false} TokenizeShapes(s: string)
    ensures forall i | 0 <= i < |Tokenize(s)| :: TokenShape(Tokenize(s)[i])
  {
    TokenizeCovers(s);
    CoversShapes(Tokenize(s), s);
  }

  lemma {:induction false} CoversShapes(ts: seq<Token>, s: string)
    requires Covers(ts, s)
    ensures forall i | 0 <= i < |ts| :: TokenShape(ts[i])
    decreases |ts|
  {
    if ts != [] {
      FitsShape(ts[0], s);
      CoversShapes(ts[1..], s[|ts[0].text|..]);
      assert forall i | 1 <= i < |ts| :: ts[i] == ts[1..][i - 1];
    }
  }

  /** Words never hold white space or `<`: white space is only ever in gaps and spans. */
  lemma {:induction false} WordsHaveNoSpace(t: Token)
    requires t.Word? && TokenShape(t)
    ensures forall i | 0 <= i < |t.text| :: !IsSpace(t.text[i]) && t.text[i] != '<'
  {
  }

  // ---------------------------------------------------------------------------
  // Rewriting the matches

  const ClassAttr: string := "class=\""
  const Marker: string := "word "

  /**
   * `p1.replace(/class="/, 'class="word ')`: `word ` inserted after the first
   * `class="` of the whole match, wherever it is; unchanged when there is none.
   */
  function Promote(span: string): (r: string)
    ensures r == span <==> Find(span, ClassAttr, 0).None?
    ensures Find(span, ClassAttr, 0).Some? ==> |r| == |span| + |Marker|
  {
    match Find(span, ClassAttr, 0)
    case None => span
    case Some(k) => span[..k + 7] + Marker + span[k + 7..]
  }

  /**
   * Promoting puts `word ` right after the first `class="`, in front of the
   * classes already there, and leaves everything else where it was; a span
   * without `class="` gets no marker.
   */
  lemma {:induction false} PromoteInsertsMarker(span: string)
    ensures Find(span, ClassAttr, 0).None? ==> Promote(span) == span
    ensures Find(span, ClassAttr, 0).Some? ==>
      var k := Find(span, ClassAttr, 0).value;
      && Promote(span)[..k + 7] == span[..k + 7]
      && Promote(span)[k + 7..k + 12] == Marker
      && Promote(span)[k + 12..] == span[k + 7..]
  {
  }

  /** An occurrence with none before it is the one `Find` reports. */
  lemma {:induction false} FindFirst(s: string, p: string, k: nat)
    requires OccursAt(s, p, k)
    requires forall i | 0 <= i < k :: !OccursAt(s, p, i)
    ensures Find(s, p, 0) == Some(k)
  {
  }

  /** The first `class="` of a promoted span is where it was, now followed by `word `. */
  lemma {:induction false} PromoteFirstClass(span: string)
    requires Find(span, ClassAttr, 0).Some?
    ensures Find(Promote(span), ClassAttr, 0) == Find(span, ClassAttr, 0)
  {
    var k := Find(span, ClassAttr, 0).value;
    var r := Promote(span);
    PromoteInsertsMarker(span);
    assert r[..k + 7] == span[..k + 7];
    forall i | 0 <= i <= k ensures OccursAt(r, ClassAttr, i) == OccursAt(span, ClassAttr, i) {
      assert r[i..i + 7] == r[..k + 7][i..i + 7];
      assert span[i..i + 7] == span[..k + 7][i..i + 7];
    }
    FindFirst(r, ClassAttr, k);
  }

  /** Removing the marker after the first `class="`: the partner of `Promote`. */
  function Demote(m: string): string
  {
    match Find(m, ClassAttr, 0)
    case None => m
    case Some(k) =>
      if k + 12 <= |m| && m[k + 7..k + 12] == Marker then m[..k + 7] + m[k + 12..] else m
  }

  /** Promotion loses nothing: demoting a promoted span gives the span back. */
  lemma {:induction false} DemotePromote(span: string)
    ensures Demote(Promote(span)) == span
  {
    if Find(span, ClassAttr, 0).Some? {
      var k := Find(span, ClassAttr, 0).value;
      var r := Promote(span);
      PromoteInsertsMarker(span);
      PromoteFirstClass(span);
      assert Find(r, ClassAttr, 0) == Some(k);
      assert |r| == |span| + 5 && r[k + 7..k + 12] == Marker;
      assert Demote(r) == r[..k + 7] + r[k + 12..];
      assert r[..k + 7] == span[..k + 7] && r[k + 12..] == span[k + 7..];
      assert span == span[..k + 7] + span[k + 7..];
    }
  }

  const WordOpen: string := "<span class=\"word\">"

  /** The text a plain word puts in its span: `&lt;` and `&gt;` become `<` and `>`. */
  function Content(w: string): (r: string)
    ensures |r| <= |w|
    ensures r != w ==> |w| == 4 && w[0] == '&' && w[3] == ';' && |r| == 1
  {
    if w == "&lt;" then "<" else if w == "&gt;" then ">" else w
  }

  /** The replacement of one token. */
  function Markup(t: Token): (r: string)
    ensures t.Gap? ==> r == t.text
    ensures t.Word? ==> WordOpen <= r && |r| >= |WordOpen| + |SpanClose|
    ensures t.Word? ==> r[|r| - |SpanClose|..] == SpanClose
    ensures |t.text| <= |r|
  {
    match t
    case Gap(x) => x
    case Span(x) => Promote(x)
    case Word(x) => WordOpen + Content(x) + SpanClose
  }

  /** The replacements, in order. */
  function MarkupAll(ts: seq<Token>): (r: string)
    ensures |Flatten(ts)| <= |r|
    ensures (forall i | 0 <= i < |ts| :: ts[i].Gap?) ==> r == Flatten(ts)
  {
    if ts == [] then []
    else
      assert forall i | 0 <= i < |ts| - 1 :: ts[1..][i] == ts[i + 1];
      Markup(ts[0]) + MarkupAll(ts[1..])
  }

  /** Reads the token back from its replacement, given its kind. */
  function Unmarkup(kind: Token, m: string): string
  {
    match kind
    case Gap(_) => m
    case Span(_) => Demote(m)
    case Word(_) =>
      if |m| >= |WordOpen| + |SpanClose| && m[..|WordOpen|] == WordOpen && m[|m| - 7..] == SpanClose then
        var c := m[|WordOpen|..|m| - 7];
        if c == "<" then "&lt;" else c
      else m
  }

  /**
   * Only matches are rewritten, and nothing of them is lost: gaps are copied
   * as they are, and every token except the word `&gt;` (whose `>` reads back
   * as the symbol `>`) is recovered from its replacement.
   */
  lemma {:induction false} UnmarkupMarkup(t: Token)
    requires TokenShape(t) && t != Word("&gt;")
    ensures Unmarkup(t, Markup(t)) == t.text
  {
    match t
    case Gap(_) =>
    case Span(x) => DemotePromote(x);
    case Word(x) =>
      var m := Markup(t);
      assert m[..|WordOpen|] == WordOpen;
      assert m[|WordOpen|..|m| - 7] == Content(x);
      if x != "&lt;" {
        assert x != "<" by {
          if |x| == 1 {
            assert x[0] != '<';
          }
        }
      }
  }

  /** `&gt;` and the symbol `>` end up with the same replacement. */
  lemma {:induction false} EscapedGreaterMerges()
    ensures Markup(Word("&gt;")) == Markup(Word(">"))
  {
  }

  // ---------------------------------------------------------------------------
  // Token boundaries

  /** A word run stops exactly where the word characters stop. */
  lemma {:induction false} WordRunOf(x: string, y: string)
    requires forall i | 0 <= i < |x| :: InWordRun(x[i])
    requires y == [] || !InWordRun(y[0])
    ensures WordRun(x + y) == |x|
  {
    var s := x + y;
    assert forall i | 0 <= i < |x| :: s[i] == x[i];
    assert |x| < |s| ==> s[|x|] == y[0];
  }

  /** A symbol run stops exactly where the symbols stop. */
  lemma {:induction false} SymbolRunOf(x: string, y: string)
    requires forall i | 0 <= i < |x| :: InSymbolRun(x[i])
    requires y == [] || !InSymbolRun(y[0])
    ensures SymbolRun(x + y) == |x|
  {
    var s := x + y;
    assert forall i | 0 <= i < |x| :: s[i] == x[i];
    assert |x| < |s| ==> s[|x|] == y[0];
  }

  /** Only a `<` can start a span. */
  lemma {:induction false} NoSpanWithoutAngle(s: string)
    requires s == [] || s[0] != '<'
    ensures SpanAt(s) == 0
  {
    if |s| >= 5 {
      assert s[..5][0] == s[0];
    }
  }

  /** A maximal run of word characters at the start is one word. */
  lemma {:induction false} TokenizeWordFirst(w: string, rest: string)
    requires w != [] && forall i | 0 <= i < |w| :: InWordRun(w[i])
    requires rest == [] || !InWordRun(rest[0])
    ensures Tokenize(w + rest) == [Word(w)] + Tokenize(rest)
  {
    var s := w + rest;
    NoSpanWithoutAngle(s);
    WordRunOf(w, rest);
    assert PlainAt(s) == |w|;
    assert s[..|w|] == w && s[|w|..] == rest;
  }

  /** A maximal run of symbols at the start, not `&lt;` or `&gt;`, is one word. */
  lemma {:induction false} TokenizeSymbolsFirst(p: string, rest: string)
    requires p != [] && !InWordRun(p[0]) && !StartsEscapedAngle(p + rest)
    requires forall i | 0 <= i < |p| :: InSymbolRun(p[i])
    requires rest == [] || !InSymbolRun(rest[0])
    ensures Tokenize(p + rest) == [Word(p)] + Tokenize(rest)
  {
    var s := p + rest;
    NoSpanWithoutAngle(s);
    SymbolRunOf(p, rest);
    assert PlainAt(s) == |p|;
    assert s[..|p|] == p && s[|p|..] == rest;
  }

  /**
   * A run of word characters directly followed by punctuation or symbols is
   * two words: the symbols never join the word, as in `Co.` or `café`.
   */
  lemma {:induction false} TokenizeWordThenSymbols(w: string, p: string)
    requires w != [] && forall i | 0 <= i < |w| :: InWordRun(w[i])
    requires p != [] && !InWordRun(p[0]) && !StartsEscapedAngle(p)
    requires forall i | 0 <= i < |p| :: InSymbolRun(p[i])
    ensures Tokenize(w + p) == [Word(w), Word(p)]
  {
    TokenizeWordFirst(w, p);
    TokenizeSymbolsFirst(p, []);
    assert p + [] == p;
  }

  /** A `<` that starts no complete span is left in a gap. */
  lemma {:induction false} TokenizeStrayAngle(s: string)
    requires s != [] && s[0] == '<' && SpanAt(s) == 0
    ensures Tokenize(s) == AddGap('<', Tokenize(s[1..]))
  {
    NoMatchChars(s);
  }

  /** The literal `&lt;` on its own is one plain word, not a symbol run, and its span holds `<`. */
  lemma {:induction false} TokenizeEscapedLess(k: string)
    requires k == "&lt;"
    ensures Tokenize(k) == [Word(k)]
    ensures MarkupAll(Tokenize(k)) == WordOpen + ("<" + SpanClose)
  {
    NoSpanWithoutAngle(k);
    assert StartsEscapedAngle(k) && !InWordRun(k[0]);
    assert k[..4] == k && k[4..] == [];
    var ts := [Word(k)];
    assert ts[1..] == [];
    assert MarkupAll(ts) == Markup(ts[0]) + MarkupAll(ts[1..]);
  }

  /** A stray `<` in front of a word is a gap of its own. */
  lemma {:induction false} TokenizeStrayAngleWord(rest: string, a: Token, b: Token, c: Token)
    requires SpanAt("<" + rest) == 0
    requires Tokenize(rest) == [a, b, c] && a.Word?
    ensures Tokenize("<" + rest) == [Gap("<"), a, b, c]
  {
    var s := "<" + rest;
    assert s[0] == '<' && s[1..] == rest;
    TokenizeStrayAngle(s);
    assert AddGap('<', [a, b, c]) == [Gap(['<'])] + [a, b, c];
  }

  /** `<span>` followed by word characters only has no closing tag: it starts no span. */
  lemma {:induction false} UnclosedSpanAt(text: string)
    requires forall i | 0 <= i < |text| :: IsWordChar(text[i])
    ensures SpanAt(SpanOpen + (">" + text)) == 0
  {
    var s := SpanOpen + (">" + text);
    assert s[..5] == SpanOpen;
    FirstGreater(s, 5);
    assert Find(s, ">", 5) == Some(5);
    forall k | 6 <= k && k + 7 <= |s| ensures !OccursAt(s, SpanClose, k) {
      assert s[k..k + 7][0] == s[k] == text[k - 6];
    }
    assert Find(s, SpanClose, 6).None?;
  }

  /** The tag name `span` is a run of word characters. */
  lemma {:induction false} SpanNameWord()
    ensures SpanOpen[1..] != [] && forall i | 0 <= i < |SpanOpen[1..]| :: InWordRun(SpanOpen[1..][i])
  {
  }

  /** `>` followed by a word is two words. */
  lemma {:induction false} TokenizeGreaterThenWord(text: string)
    requires text != [] && forall i | 0 <= i < |text| :: IsWordChar(text[i])
    ensures Tokenize(">" + text) == [Word(">"), Word(text)]
  {
    var tail := ">" + text;
    assert tail[0] == '>' && tail[1..] == text;
    assert !StartsEscapedAngle(tail) by {
      if |tail| >= 4 {
        assert tail[..4][0] == '>';
      }
    }
    assert Tokenize(text) == [Word(text)] by {
      TokenizeWordFirst(text, []);
      assert text + [] == text;
    }
    TokenizeSymbolsFirst(">", text);
  }

  /** A tag name, `>` and a word are three words. */
  lemma {:induction false} TokenizeNameThenWord(name: string, text: string)
    requires name != [] && forall i | 0 <= i < |name| :: InWordRun(name[i])
    requires text != [] && forall i | 0 <= i < |text| :: IsWordChar(text[i])
    ensures Tokenize(name + (">" + text)) == [Word(name), Word(">"), Word(text)]
  {
    TokenizeGreaterThenWord(text);
    TokenizeWordFirst(name, ">" + text);
    ConsTwo(Word(name), Word(">"), Word(text));
  }

  /** A `<` that starts no span, then a name, `>` and a word: a gap and three words. */
  lemma {:induction false} TokenizeStrayTag(name: string, text: string)
    requires name != [] && forall i | 0 <= i < |name| :: InWordRun(name[i])
    requires text != [] && forall i | 0 <= i < |text| :: IsWordChar(text[i])
    requires SpanAt("<" + (name + (">" + text))) == 0
    ensures Tokenize("<" + (name + (">" + text))) == [Gap("<"), Word(name), Word(">"), Word(text)]
  {
    TokenizeNameThenWord(name, text);
    TokenizeStrayAngleWord(name + (">" + text), Word(name), Word(">"), Word(text));
  }

  /**
   * An opening `<span>` with no `</span>` after it is no span: `<span>oops`
   * is a gap `<` and the words `span`, `>` and `oops`.
   */
  lemma {:induction false} TokenizeUnclosedSpan(text: string)
    requires text != [] && forall i | 0 <= i < |text| :: IsWordChar(text[i])
    ensures Tokenize(SpanOpen + (">" + text)) == [Gap("<"), Word(SpanOpen[1..]), Word(">"), Word(text)]
  {
    var name := SpanOpen[1..];
    assert SpanOpen == "<" + name;
    assert SpanOpen + (">" + text) == "<" + (name + (">" + text));
    UnclosedSpanAt(text);
    SpanNameWord();
    TokenizeStrayTag(name, text);
  }

  /** `Co.` is the word `Co` and the word `.`. */
  lemma {:induction false} TokenizeAbbreviation(s: string)
    requires s == "Co."
    ensures Tokenize(s) == [Word("Co"), Word(".")]
  {
    assert s == "Co" + ".";
    TokenizeWordThenSymbols("Co", ".");
  }

  /** `café` is the word `caf` and the word `é`: the accented letter is not in `\w`. */
  lemma {:induction false} TokenizeAccented(s: string)
    requires s == "caf\U{00E9}"
    ensures Tokenize(s) == [Word("caf"), Word("\U{00E9}")]
  {
    assert s == "caf" + "\U{00E9}";
    TokenizeWordThenSymbols("caf", "\U{00E9}");
  }

  /** Only the names `lt` and `gt` make a reference `&lt;` or `&gt;`. */
  lemma {:induction false} NotEscapedAngle(name: string)
    requires name != [] && forall i | 0 <= i < |name| :: IsWordChar(name[i])
    requires name != "lt" && name != "gt"
    ensures !StartsEscapedAngle("&" + (name + ";"))
  {
    var r := "&" + (name + ";");
    if |name| == 2 {
      assert r[..4] == ['&', name[0], name[1], ';'];
      assert name == [name[0], name[1]];
    } else if |name| > 2 {
      assert r[..4][3] == name[2];
    }
  }

  /**
   * A character reference the decoder leaves alone is no single word: a word
   * followed by `&name;`, the name made of `\w` characters, is four words:
   * the word, `&`, the name and `;`. So `Caf&eacute;` is `Caf`, `&`, `eacute`
   * and `;`.
   */
  lemma {:induction false} TokenizeUnknownReference(w: string, name: string)
    requires w != [] && forall i | 0 <= i < |w| :: InWordRun(w[i])
    requires name != [] && forall i | 0 <= i < |name| :: IsWordChar(name[i])
    requires name != "lt" && name != "gt"
    ensures Tokenize(w + ("&" + (name + ";"))) == [Word(w), Word("&"), Word(name), Word(";")]
  {
    NotEscapedAngle(name);
    TokenizeBetweenSymbols('&', name, ';');
    var r := "&" + (name + ";");
    assert r[0] == '&';
    TokenizeWordFirst(w, r);
    ConsThree(Word(w), Word("&"), Word(name), Word(";"));
  }

  /** A run of `\w` characters between two single symbols is three words. */
  lemma {:induction false} TokenizeBetweenSymbols(p: char, name: string, q: char)
    requires InSymbolRun(p) && !InWordRun(p) && InSymbolRun(q) && !InWordRun(q)
    requires name != [] && forall i | 0 <= i < |name| :: IsWordChar(name[i])
    requires !StartsEscapedAngle([p] + (name + [q]))
    ensures Tokenize([p] + (name + [q])) == [Word([p]), Word(name), Word([q])]
  {
    var x := name + [q];
    TokenizeWordThenSymbols(name, [q]);
    assert x[0] == name[0];
    TokenizeSymbolsFirst([p], x);
    ConsTwo(Word([p]), Word(name), Word([q]));
  }
}
