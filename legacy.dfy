/**
 * The older text splitter: the element's `innerText` is split on newlines,
 * every line on single spaces, and every word with `split('')` into UTF-16
 * code units; each code unit goes in a letter span, each word in a word span,
 * words are joined with one space and lines with `<br>`. Nothing is decoded
 * or escaped, so the text is modelled as a sequence of code units.
 */
module LegacyText {
  import opened Seqs

  /** One UTF-16 code unit. */
  newtype Unit = x: int | 0 <= x < 0x1_0000

  type Units = seq<Unit>

  /** The UTF-16 code units of a text whose characters all lie in the basic plane. */
  function CodeUnits(s: string): (r: Units)
    requires forall i | 0 <= i < |s| :: s[i] as int < 0x1_0000
    ensures |r| == |s|
    ensures forall i | 0 <= i < |s| :: r[i] as int == s[i] as int
  {
    seq(|s|, i requires 0 <= i < |s| => s[i] as int as Unit)
  }

  const NewLine: Unit := '\n' as int as Unit
  const Space: Unit := ' ' as int as Unit
  const LetterOpen: Units := CodeUnits("<span class=\"letter\">")
  const WordOpen: Units := CodeUnits("<span class=\"word\">")
  const Close: Units := CodeUnits("</span>")
  const Br: Units := CodeUnits("<br>")

  /**
   * `<span class="word">` + one letter span per code unit + `</span>`: every
   * code unit costs one opening and one closing letter tag.
   */
  function WordMarkup(word: Units): (r: Units)
    ensures WordOpen <= r
    ensures |r| == |WordOpen| + |word| * (|LetterOpen| + 1 + |Close|) + |Close|
  {
    WrapEachLength(word, LetterOpen, Close);
    WordOpen + (WrapEach(word, LetterOpen, Close) + Close)
  }

  /** Word spans joined by single spaces. */
  function WordsMarkup(words: seq<Units>): (r: Units)
    ensures words != [] ==> WordOpen <= r
    ensures words == [] <==> r == []
  {
    if words == [] then []
    else if |words| == 1 then WordMarkup(words[0])
    else WordMarkup(words[0]) + ([Space] + WordsMarkup(words[1..]))
  }

  /** One line: `line.split(' ').map(word span).join(' ')`. */
  function LineMarkup(line: Units): (r: Units)
    ensures WordOpen <= r
  {
    WordsMarkup(Split(line, Space))
  }

  /** Lines joined by `<br>`. */
  function LinesMarkup(lines: seq<Units>): (r: Units)
    ensures lines != [] ==> WordOpen <= r
    ensures lines == [] <==> r == []
  {
    if lines == [] then []
    else if |lines| == 1 then LineMarkup(lines[0])
    else LineMarkup(lines[0]) + (Br + LinesMarkup(lines[1..]))
  }

  /** The new `innerHTML` for the text `innerText`. */
  function TextMarkup(text: Units): (r: Units)
    ensures WordOpen <= r
  {
    LinesMarkup(Split(text, NewLine))
  }

  // ---------------------------------------------------------------------------
  // Reading the markup back

  /** Reads one word span off the front of `m`: its letters and what follows it. */
  function ParseWord(m: Units): (r: Option<(Units, Units)>)
    ensures r.Some? ==> |r.value.1| < |m|
  {
    if !(WordOpen <= m) then None
    else
      var inner := UnwrapEach(m[|WordOpen|..], LetterOpen, Close);
      if Close <= inner.1 then Some((inner.0, inner.1[|Close|..])) else None
  }

  /** Reads space-separated word spans off the front of `m`. */
  function ParseWords(m: Units): (r: Option<(seq<Units>, Units)>)
    ensures r.Some? ==> |r.value.1| < |m|
    decreases |m|
  {
    match ParseWord(m)
    case None => None
    case Some((w, rest)) =>
      if rest != [] && rest[0] == Space then
        match ParseWords(rest[1..])
        case None => None
        case Some((ws, rest')) => Some(([w] + ws, rest'))
      else Some(([w], rest))
  }

  /** Reads `<br>`-separated lines of words, up to the end of `m`. */
  function ParseLines(m: Units): Option<seq<seq<Units>>>
    decreases |m|
  {
    match ParseWords(m)
    case None => None
    case Some((ws, rest)) =>
      if rest == [] then Some([ws])
      else if Br <= rest then
        match ParseLines(rest[|Br|..])
        case None => None
        case Some(ls) => Some([ws] + ls)
      else None
  }

  /** The words of every line, spaces restored. */
  function JoinLines(lines: seq<seq<Units>>): seq<Units>
  {
    if lines == [] then [] else [Join(lines[0], [Space])] + JoinLines(lines[1..])
  }

  /** Takes the tags away and turns each `<br>` back into a newline. */
  function Unrender(m: Units): Option<Units>
  {
    match ParseLines(m)
    case None => None
    case Some(lines) => Some(Join(JoinLines(lines), [NewLine]))
  }

  /** The words of each line: `line.split(' ')`. */
  function LineWords(lines: seq<Units>): (r: seq<seq<Units>>)
    ensures |r| == |lines|
    ensures forall j | 0 <= j < |lines| :: r[j] == Split(lines[j], Space)
  {
    if lines == [] then [] else [Split(lines[0], Space)] + LineWords(lines[1..])
  }

  /** The words of every line of `text`. */
  function Words(text: Units): seq<seq<Units>>
  {
    LineWords(Split(text, NewLine))
  }

  // ---------------------------------------------------------------------------
  // Properties

  /** The tags differ in their second code unit. */
  lemma {:induction false} TagsDiffer()
    ensures |LetterOpen| == 21 && |WordOpen| == 19 && |Close| == 7 && |Br| == 4
    ensures LetterOpen[1] != Close[1] && Br[0] != Space && Close[0] != Space
  {
  }

  /**
   * The letters of a word span stop at its closing tag: one letter span per
   * UTF-16 code unit, read back in order.
   */
  lemma {:induction false} LettersBeforeClose(w: Units, rest: Units)
    ensures UnwrapEach(WrapEach(w, LetterOpen, Close) + (Close + rest), LetterOpen, Close) == (w, Close + rest)
  {
    TagsDiffer();
    var after := Close + rest;
    assert after[1] == Close[1];
    UnwrapWrap(w, LetterOpen, Close, after);
  }

  /** A word span is read back as its letters, whatever follows it. */
  lemma {:induction false} ParseWordMarkup(w: Units, rest: Units)
    ensures ParseWord(WordMarkup(w) + rest) == Some((w, rest))
  {
    var inner := WrapEach(w, LetterOpen, Close);
    var after := Close + rest;
    Regroup(WordOpen, inner, Close, rest);
    PrefixDrop(WordOpen, inner + after);
    LettersBeforeClose(w, rest);
    PrefixDrop(Close, rest);
  }

  /** The word spans of a line are read back as its words, up to a following `<br>` or the end. */
  lemma {:induction false} ParseWordsMarkup(words: seq<Units>, rest: Units)
    requires |words| > 0
    requires rest == [] || rest[0] != Space
    ensures ParseWords(WordsMarkup(words) + rest) == Some((words, rest))
    decreases |words|
  {
    if |words| == 1 {
      assert WordsMarkup(words) == WordMarkup(words[0]);
      ParseWordMarkup(words[0], rest);
      assert words == [words[0]];
    } else {
      var w, ws := words[0], words[1..];
      assert [w] + ws == words;
      ParseWordsMarkup(ws, rest);
      ParseWordsStep(w, ws, rest);
    }
  }

  /** One more word span in front, separated by a space. */
  lemma {:induction false} ParseWordsStep(w: Units, words: seq<Units>, rest: Units)
    requires |words| > 0
    requires ParseWords(WordsMarkup(words) + rest) == Some((words, rest))
    ensures ParseWords(WordsMarkup([w] + words) + rest) == Some(([w] + words, rest))
  {
    var tail := WordsMarkup(words) + rest;
    var after := [Space] + tail;
    ParseWordMarkup(w, after);
    assert ([w] + words)[1..] == words;
    Regroup(WordMarkup(w), [Space], WordsMarkup(words), rest);
    assert after[1..] == tail;
  }

  /** The markup of a single line is read back as its words. */
  lemma {:induction false} ParseOneLine(line: Units)
    ensures ParseLines(LineMarkup(line)) == Some([Split(line, Space)])
  {
    var m := LineMarkup(line);
    ParseWordsMarkup(Split(line, Space), []);
    assert m + [] == m;
  }

  /** The lines of the markup are read back as the words of each line. */
  lemma {:induction false} ParseLinesMarkup(lines: seq<Units>)
    requires |lines| > 0
    ensures ParseLines(LinesMarkup(lines)) == Some(LineWords(lines))
    decreases |lines|
  {
    if |lines| == 1 {
      ParseOneLine(lines[0]);
      assert LinesMarkup(lines) == LineMarkup(lines[0]);
      assert LineWords(lines) == [Split(lines[0], Space)];
    } else {
      ParseLinesMarkup(lines[1..]);
      ParseLinesStep(lines[0], lines[1..]);
      assert [lines[0]] + lines[1..] == lines;
    }
  }

  /** One more line in front, separated by `<br>`. */
  lemma {:induction false} ParseLinesStep(line: Units, lines: seq<Units>)
    requires |lines| > 0
    requires ParseLines(LinesMarkup(lines)) == Some(LineWords(lines))
    ensures ParseLines(LinesMarkup([line] + lines)) == Some(LineWords([line] + lines))
  {
    var tail := LinesMarkup(lines);
    var after := Br + tail;
    var ws := Split(line, Space);
    assert after[0] != Space by {
      TagsDiffer();
    }
    ParseWordsMarkup(ws, after);
    var all := [line] + lines;
    assert all[0] == line && all[1..] == lines;
    assert |all| > 1;
    assert LinesMarkup(all) == LineMarkup(all[0]) + (Br + LinesMarkup(all[1..]));
    assert ParseWords(LinesMarkup(all)) == Some((ws, after));
    assert after != [] && Br <= after && after[|Br|..] == tail;
    assert LineWords([line] + lines) == [ws] + LineWords(lines);
  }

  /** Joining the words of each line with spaces gives the lines back. */
  lemma {:induction false} JoinLinesWords(lines: seq<Units>)
    ensures JoinLines(LineWords(lines)) == lines
    decreases |lines|
  {
    if lines != [] {
      JoinLinesWords(lines[1..]);
      JoinSplit(lines[0], Space);
      assert [lines[0]] + lines[1..] == lines;
    }
  }

  /**
   * Nothing is lost: removing the word and letter tags and turning each `<br>`
   * back into a newline gives the original text.
   */
  lemma {:induction false} UnrenderTextMarkup(text: Units)
    ensures ParseLines(TextMarkup(text)) == Some(Words(text))
    ensures Unrender(TextMarkup(text)) == Some(text)
  {
    var lines := Split(text, NewLine);
    ParseLinesMarkup(lines);
    JoinLinesWords(lines);
    JoinSplit(text, NewLine);
  }

  /**
   * A line with k spaces has k + 1 words, empty ones included for leading,
   * trailing and doubled spaces, and there is one more line than newlines.
   */
  lemma {:induction false} WordAndLineCounts(text: Units)
    ensures |Words(text)| == Count(text, NewLine) + 1
    ensures forall j | 0 <= j < |Words(text)| :: |Words(text)[j]| == Count(Split(text, NewLine)[j], Space) + 1
  {
    SplitCount(text, NewLine);
    forall j | 0 <= j < |Words(text)| ensures |Words(text)[j]| == Count(Split(text, NewLine)[j], Space) + 1 {
      SplitCount(Split(text, NewLine)[j], Space);
    }
  }
}
