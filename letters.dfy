/**
 * The letter step of the current text splitter: the text of each word
 * element is spread into its code points (`[...wordText]`) and each code
 * point is put in a `<span class="letter">`, overwriting the word's content.
 */
module Letters {
  import opened Seqs

  const LetterOpen: string := "<span class=\"letter\">"
  const LetterClose: string := "</span>"

  /**
   * `[...text].map(l => `<span class="letter">${l}</span>`).join('')`: every
   * code point costs exactly one opening and one closing tag.
   */
  function LetterSpans(text: string): (r: string)
    ensures |r| == |text| * (|LetterOpen| + 1 + |LetterClose|)
  {
    WrapEachLength(text, LetterOpen, LetterClose);
    WrapEach(text, LetterOpen, LetterClose)
  }

  /** The letters read back from the letter spans, in order. */
  function ReadLetters(m: string): string
  {
    UnwrapEach(m, LetterOpen, LetterClose).0
  }

  /**
   * One letter span per code point, in order, and nothing after them: reading
   * the letters back gives the word's text.
   */
  lemma {:induction false} LettersRoundTrip(text: string)
    ensures UnwrapEach(LetterSpans(text), LetterOpen, LetterClose) == (text, [])
    ensures ReadLetters(LetterSpans(text)) == text
  {
    UnwrapWrap(text, LetterOpen, LetterClose, []);
    assert LetterSpans(text) + [] == LetterSpans(text);
  }

  /**
   * `words.forEach(word => word.innerHTML = letters(word.textContent))`: the
   * content of every word element, in document order, is replaced by its
   * letter spans.
   */
  method SplitLetters(words: array<string>)
    modifies words
    ensures forall i | 0 <= i < words.Length :: words[i] == LetterSpans(old(words[i]))
  {
    var i := 0;
    while i < words.Length
      invariant 0 <= i <= words.Length
      invariant forall k | 0 <= k < i :: words[k] == LetterSpans(old(words[k]))
      invariant forall k | i <= k < words.Length :: words[k] == old(words[k])
    {
      words[i] := LetterSpans(words[i]);
      i := i + 1;
    }
  }

  /**
   * The letter step over word elements holding `texts`: each element's content
   * becomes its letter spans, which read back as its text.
   */
  method WordLetters(texts: seq<string>) returns (r: seq<string>)
    ensures |r| == |texts|
    ensures forall i | 0 <= i < |r| :: r[i] == LetterSpans(texts[i])
    ensures forall i | 0 <= i < |r| :: ReadLetters(r[i]) == texts[i]
  {
    var words := new string[|texts|](i requires 0 <= i < |texts| => texts[i]);
    SplitLetters(words);
    r := words[..];
    forall i | 0 <= i < |r| ensures ReadLetters(r[i]) == texts[i] {
      LettersRoundTrip(texts[i]);
    }
  }
}
