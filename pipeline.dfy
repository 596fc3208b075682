/**
 * The current text splitter put together: the element's markup is cut into
 * lines at the `<br>` variants and newlines; each line is decoded, tokenized
 * and rewritten into word spans; the text of every word element then becomes
 * one letter span per code point; the lines are joined again with `<br>`.
 */
module TextSplitter {
  import opened Seqs
  import opened EntityDecoder
  import opened LineBreaks
  import opened Tokenizer
  import opened Letters

  /** The tokens of one line, after decoding: together they spell the decoded line. */
  function LineTokens(line: string): (r: seq<Token>)
    ensures Flatten(r) == Decode(line)
    ensures |r| <= |line|
  {
    TokenizeLossless(Decode(line));
    Tokenize(Decode(line))
  }

  /**
   * `htmlString`: the line with every match replaced by its word markup, piece
   * by piece; rewriting never shortens the decoded line.
   */
  function LineMarkup(line: string): (r: string)
    ensures r == Join(Pieces(LineTokens(line)), [])
    ensures |Decode(line)| <= |r|
  {
    MarkupAllPieces(LineTokens(line));
    MarkupAll(LineTokens(line))
  }

  /** The replacement of each token, in order. */
  function Pieces(ts: seq<Token>): seq<string>
  {
    seq(|ts|, i requires 0 <= i < |ts| => Markup(ts[i]))
  }

  /** The markup of a token list is its pieces, one after the other. */
  lemma {:induction false} MarkupAllPieces(ts: seq<Token>)
    ensures MarkupAll(ts) == Join(Pieces(ts), [])
    decreases |ts|
  {
    if |ts| > 1 {
      MarkupAllPieces(ts[1..]);
      assert Pieces(ts)[1..] == Pieces(ts[1..]);
    }
  }

  /**
   * The line markup is the decoded line, token by token, with only the matches
   * rewritten: the tokens spell the decoded line, the markup is their pieces
   * in order, and every piece reads back to its token (save the word `&gt;`,
   * which reads back as `>`).
   */
  lemma {:induction false} LineMarkupTokens(line: string)
    ensures Flatten(LineTokens(line)) == Decode(line)
    ensures LineMarkup(line) == Join(Pieces(LineTokens(line)), [])
    ensures forall i | 0 <= i < |LineTokens(line)| && LineTokens(line)[i] != Word("&gt;") ::
      Unmarkup(LineTokens(line)[i], Pieces(LineTokens(line))[i]) == LineTokens(line)[i].text
  {
    var ts := LineTokens(line);
    TokenizeLossless(Decode(line));
    MarkupAllPieces(ts);
    TokenizeShapes(Decode(line));
    forall i | 0 <= i < |ts| && ts[i] != Word("&gt;") ensures Unmarkup(ts[i], Pieces(ts)[i]) == ts[i].text {
      UnmarkupMarkup(ts[i]);
    }
  }

  /** A line without `&` is tokenized as it stands: nothing is decoded. */
  lemma {:induction false} LineTokensPlain(line: string)
    requires '&' !in line
    ensures LineTokens(line) == Tokenize(line)
  {
    DecodeIdentity(line);
  }

  /**
   * Escaped text is decoded twice: `&amp;lt;` decodes to `&lt;`, which is then
   * a plain word whose span holds `<`.
   */
  lemma {:induction false} DoubleDecodedLess(k: string, s: string)
    requires k == "&lt;" && s == "&amp;lt;"
    ensures LineTokens(s) == [Word(k)]
    ensures LineMarkup(s) == WordOpen + ("<" + SpanClose)
  {
    DecodeEscapedLess(k, s);
    TokenizeEscapedLess(k);
  }

  // ---------------------------------------------------------------------------
  // Word elements and their letters

  /**
   * The text of a tagged fragment, tags removed: what a browser reports as the
   * text content of simple markup (an unterminated tag is kept as text).
   */
  function StripTags(m: string): (r: string)
    ensures |r| <= |m|
    ensures forall c | c in r :: c in m
    decreases |m|
  {
    if m == [] then []
    else if m[0] == '<' then
      match Find(m, ">", 0)
      case None => m
      case Some(k) =>
        assert forall c | c in m[k + 1..] :: c in m;
        StripTags(m[k + 1..])
    else
      assert forall c | c in m[1..] :: c in m;
      [m[0]] + StripTags(m[1..])
  }

  /** Text without `<` is its own text content. */
  lemma {:induction false} StripTagsPlain(m: string)
    requires '<' !in m
    ensures StripTags(m) == m
    decreases |m|
  {
    if m != [] {
      StripTagsPlain(m[1..]);
      assert [m[0]] + m[1..] == m;
    }
  }

  /**
   * The text content of the element a token becomes, when that element has
   * the class `word`: a plain word is wrapped in a word span, and an existing
   * span is one once the marker was inserted.
   */
  function WordText(t: Token): (r: Option<string>)
    ensures t.Gap? ==> r.None?
    ensures t.Word? ==> r.Some? && |r.value| <= |t.text|
    ensures r.Some? ==> |r.value| <= |t.text| + |Marker|
  {
    match t
    case Gap(_) => None
    case Word(x) => Some(Content(x))
    case Span(x) => if Find(x, ClassAttr, 0).Some? then Some(StripTags(Promote(x))) else None
  }

  /** `doc.querySelectorAll('.word')`, as text contents, in document order. */
  function WordTexts(ts: seq<Token>): (r: seq<string>)
    ensures |r| <= |ts|
  {
    if ts == [] then []
    else
      match WordText(ts[0])
      case None => WordTexts(ts[1..])
      case Some(w) => [w] + WordTexts(ts[1..])
  }

  /** Number of plain words among the tokens. */
  function WordCount(ts: seq<Token>): nat
  {
    if ts == [] then 0 else (if ts[0].Word? then 1 else 0) + WordCount(ts[1..])
  }

  /**
   * Every plain word of the line is a word element; so is each promoted span,
   * and nothing else: gaps never are.
   */
  lemma {:induction false} WordTextsCount(ts: seq<Token>)
    ensures WordCount(ts) <= |WordTexts(ts)| <= |ts|
    ensures (forall i | 0 <= i < |ts| :: ts[i].Gap?) ==> WordTexts(ts) == []
    decreases |ts|
  {
    if ts != [] {
      WordTextsCount(ts[1..]);
      assert forall i | 0 <= i < |ts| - 1 :: ts[1..][i] == ts[i + 1];
    }
  }

  /**
   * The letter step of one line: the text of every word element, each
   * rewritten in place into its letter spans. Every word gets its own code
   * points back, one span each, in order.
   */
  method LineLetters(line: string) returns (r: seq<string>)
    ensures |r| == |WordTexts(LineTokens(line))|
    ensures forall i | 0 <= i < |r| :: r[i] == LetterSpans(WordTexts(LineTokens(line))[i])
    ensures forall i | 0 <= i < |r| :: ReadLetters(r[i]) == WordTexts(LineTokens(line))[i]
  {
    r := WordLetters(WordTexts(LineTokens(line)));
  }

  // ---------------------------------------------------------------------------
  // Lines

  /** `lines.map(...)`: every line rewritten on its own. */
  function LineMarkups(lines: seq<string>): seq<string>
  {
    seq(|lines|, j requires 0 <= j < |lines| => LineMarkup(lines[j]))
  }

  /** The element's new markup, before the letter step: the rewritten lines joined with `<br>`. */
  function TextMarkup(html: string): (r: string)
    ensures LineMarkup(Lines(html)[0]) <= r
    ensures |Lines(html)| == 1 ==> r == LineMarkup(Lines(html)[0])
  {
    var ms := LineMarkups(Lines(html));
    assert ms[0] == LineMarkup(Lines(html)[0]);
    RenderLines(ms)
  }

  /**
   * There is one rewritten line per line of the input, one more than there
   * are boundaries, and when the rewritten lines hold no newline and no
   * `<b`, splitting the result again gives them back, in their order.
   */
  lemma {:induction false} TextMarkupLines(html: string)
    ensures |LineMarkups(Lines(html))| == Boundaries(html) + 1
    ensures (forall j | 0 <= j < |Lines(html)| ::
               '\n' !in LineMarkup(Lines(html)[j]) && NoBreakOpening(LineMarkup(Lines(html)[j])))
            ==> Lines(TextMarkup(html)) == LineMarkups(Lines(html))
  {
    LinesCount(html);
    var ms := LineMarkups(Lines(html));
    if forall j | 0 <= j < |ms| :: '\n' !in ms[j] && NoBreakOpening(ms[j]) {
      LinesOfRender(ms);
    }
  }
}
