# Text splitting for staggered reveals

A model of the text-splitting core of the `animations` package. For a
letter-by-letter reveal, the package rewrites an element's content into one
`<span class="word">` per word and one `<span class="letter">` per character
inside it. The package does this in two versions, and the model covers both.

**Current version (`src/text.ts`).**
- **Line splitting.** The element's markup is cut into lines at every `<br>`
  variant and every newline (module `LineBreaks`).
- **Decoding.** Each line is decoded by `decodeHtml`: a single left-to-right
  pass over 24 fixed character references (module `EntityDecoder`).
- **Tokenizing.** The decoded line is cut into tokens (module `Tokenizer`):
  - an existing `<span ...>...</span>`, which is promoted to a word;
  - a plain word, made of a run of `[\w'’]`, `&lt;`, `&gt;` or a run of
    symbols, which is wrapped in a word span;
  - the white space and stray `<` between them, which is copied unchanged.
- **Letters.** The text of every word element is replaced by one letter span
  per code point (module `Letters`).
- **Joining.** The lines are joined again with `<br>` (module
  `TextSplitter`).
- **Stagger.** When no stagger is configured, the observer callback picks one
  from the number of letters (module `Stagger`).

**Older version (`src/index.ts`).**
- `innerText` is split on newlines, every line on single spaces, and every
  word into UTF-16 code units.
- The result is written out as word and letter spans. Words are joined with
  one space and lines with `<br>`.
- It is modelled over code units in module `LegacyText`, together with a
  parser of its output. The parser shows that nothing is lost.

Shared pieces:
- JavaScript's `split`/`join` and the wrapping of each element of a sequence
  in tags live in module `Seqs`.
- The regular-expression character classes `\s` and `\w` live in
  `CharClasses`. `\w` is the ASCII class `[A-Za-z0-9_]`.

Some behaviours of the code, which the model keeps:
- `&nbsp;` decodes to a plain ASCII space. This is what the table in
  `src/text.ts` says; the HTML standard uses U+00A0.
- An unknown reference such as `&eacute;` is not one word. It becomes the
  words `&`, `eacute` and `;` (`Tokenizer.TokenizeUnknownReference`). So
  `Caf&eacute; &amp; Co.` becomes the words `Caf`, `&`, `eacute`, `;`, `&`,
  `Co` and `.`, not `Caf&eacute;` in one piece.
- Promotion inserts `word ` after the first `class="` anywhere in the matched
  span. That need not be in the span's own opening tag.
- Decoding runs before tokenizing. So escaped markup such as
  `&lt;span&gt;x&lt;/span&gt;` is decoded to `<span>x</span>` first, and is
  then matched as an existing span. Having no `class="`, it is left unchanged
  and is not a word element, so its letters are not split.
- Escaped text is decoded twice. `&amp;lt;` decodes to `&lt;`, and the word
  rewrite then puts `<` in its span (`TextSplitter.DoubleDecodedLess`).
- Only elements that start with `<span` are matched as existing spans and
  promoted. An element such as `<em class="x">a</em>` is cut into a stray `<`,
  plain words and white space, and its `class="` gets no marker.

## Model

| member | source | states |
|---|---|---|
| Seqs.Split | src/text.ts:8 | `split` on a one-element separator always gives at least one piece, even for empty input |
| Seqs.SplitCount | src/index.ts:68-72 | there is one more piece than there are separators |
| Seqs.SplitPiecesFree | src/text.ts:8 | no piece of a split holds the separator |
| Seqs.SplitFree | src/text.ts:8 | text without the separator is one piece |
| Seqs.SplitPrefix | src/text.ts:8 | a separator-free stretch followed by the separator is the first piece, and splitting resumes after the separator |
| Seqs.Join | src/text.ts:39 | `join` puts the first part first and, when there are more parts, the separator right after it |
| Seqs.JoinSplit | src/index.ts:68-72 | joining the pieces of a split with the separator gives the input back |
| Seqs.SplitJoin | src/index.ts:82-84 | splitting a join of pieces without the separator gives the pieces back |
| Seqs.WrapEach | src/index.ts:76-79 | wrapping is empty exactly for no elements, and otherwise starts with the opening tag |
| Seqs.WrapEachLength | src/index.ts:76-79 | wrapping adds exactly one opening and one closing tag per element |
| Seqs.UnwrapEach | src/index.ts:76-80 | reading groups back leaves a rest no longer than the input |
| Seqs.UnwrapWrap | src/index.ts:76-80 | the groups of a wrapped sequence read back as its elements, in order, when what follows does not start with the opening tag |
| CharClasses.IsSpace | src/text.ts:13 | a `\s` character is never a `\w` character or a `<` |
| CharClasses.IsWordChar | src/text.ts:13 | a `\w` character is ASCII |
| CharClasses.SpaceRun | src/text.ts:8 | a greedy `\s*` takes only white space, stays within the text, and stops at the end or at a non-space |
| CharClasses.SpaceRunOf | src/text.ts:8 | white space followed by a non-space is consumed exactly |
| EntityDecoder.FirstPrefix | src/text.ts:109 | the alternative that matches is a reference the input starts with, and every alternative before it in pattern order fails; the empty alternative matches only when no reference does |
| EntityDecoder.Replacement | src/text.ts:110 | the empty match inserts nothing when the empty string is not a key, and a key longer than one character with a one-character value is replaced by that value, which is shorter: the fallback to the match itself does not fire on it |
| EntityDecoder.ReplacementOfPattern | src/text.ts:81-110 | with the actual pattern and object, every alternative is replaced by its one-character value, never by itself, and the empty alternative inserts nothing |
| EntityDecoder.PatternReferences | src/text.ts:109 | the pattern has 24 non-empty alternatives, each of the form `&name;` with no `&` or `;` inside |
| EntityDecoder.PatternInEntities | src/text.ts:81-111 | every alternative of the pattern is a key of the replacement object, so a reference is never left as it is by the fallback to the match itself |
| EntityDecoder.EntitiesInPattern | src/text.ts:81-109 | every key of the replacement object is an alternative of the pattern |
| EntityDecoder.EntityValues | src/text.ts:81-106 | every replacement is one character, and the empty match is not a key, so the empty alternative inserts nothing |
| EntityDecoder.AmpersandValue | src/text.ts:83 | `&amp;` is a key and decodes to `&` |
| EntityDecoder.DecodeTable | src/text.ts:81-109 | the pattern and the object together satisfy what the replace relies on: references only, each with a one-character value, and no empty key |
| EntityDecoder.ReferencePrefixFree | src/text.ts:109 | a reference at the start of another reference followed by anything is that reference: no key is a prefix of another, so the alternative order does not matter |
| EntityDecoder.ScanReference | src/text.ts:108-112 | for any well-formed table, a key at the front is replaced by its value and the scan resumes right after the key |
| EntityDecoder.ScanStep | src/text.ts:108-112 | a character other than `&` is matched by the empty alternative only; it is copied, and nothing is inserted before it |
| EntityDecoder.ScanNoAmpersand | src/text.ts:108-112 | a stretch without `&` is copied verbatim whatever follows it |
| EntityDecoder.ScanIdentity | src/text.ts:108-112 | text without `&` is returned unchanged |
| EntityDecoder.ScanUnknownReference | src/text.ts:108-112 | a reference that is not a key is copied verbatim |
| EntityDecoder.ScanKnownAfterUnknown | src/text.ts:108-112 | an unknown reference is kept while a later known key is still decoded |
| EntityDecoder.Scan | src/text.ts:108-112 | for any well-formed table, the replacing scan never lengthens the text |
| EntityDecoder.EscapeAmpersands | src/text.ts:83 | escaping every `&` as `&amp;` adds four characters per `&` |
| EntityDecoder.ScanEscaped | src/text.ts:108-112 | for any table that maps `&amp;` to `&`, decoding undoes the escaping of every `&`: the output is never rescanned |
| EntityDecoder.DecodeKey | src/text.ts:80-114 | `decodeHtml` replaces each of the 24 keys with its character and goes on after it |
| EntityDecoder.DecodePlain | src/text.ts:80-114 | a prefix without `&` passes through `decodeHtml` unchanged |
| EntityDecoder.DecodeIdentity | src/text.ts:80-114 | a string with no `&` comes back unchanged |
| EntityDecoder.DecodeNoKey | src/text.ts:108-111 | a character that starts no key, such as the `&` of `AT&T` or of `& `, is copied and decoding resumes right after it |
| EntityDecoder.Decode | src/text.ts:80-114 | the decoded line is never longer than the line |
| EntityDecoder.DecodeUnknownReference | src/text.ts:80-114 | an unrecognised reference such as `&eacute;` is copied verbatim |
| EntityDecoder.DecodeEscaped | src/text.ts:80-114 | decoding is single-pass: `&` escaped as `&amp;` comes back as `&` and is not decoded again |
| EntityDecoder.DecodeOnce | src/text.ts:108-112 | `&amp;` followed by the rest of a key decodes to the key itself, not to its character |
| EntityDecoder.DecodeEscapedLess | src/text.ts:108-112 | `&amp;lt;` decodes to `&lt;`, not to `<` |
| EntityDecoder.EacuteUnknown | src/text.ts:81-106 | `&eacute;` has the shape of a reference but is not in the table |
| EntityDecoder.DecodeKnownAfterUnknown | src/text.ts:80-114 | with the actual constants: a reference outside the table is copied while a later key is replaced by its character, and text without `&` is copied |
| EntityDecoder.DecodeMixed | src/text.ts:80-114 | `Caf&eacute; &amp; Co.` decodes to `Caf&eacute; & Co.` |
| LineBreaks.BreakAt | src/text.ts:8 | a match lies within the text, starts with `<br` in either case and ends with `>`; no match has length 0 |
| LineBreaks.BreakAtSound | src/text.ts:8 | every match the break scanner reports is `<br`, white space, an optional `/` and `>`, in either letter case |
| LineBreaks.BreakAtComplete | src/text.ts:8 | every `<br>`, `<br/>`, `<br />` or `<BR  >` at the front is matched whole, whatever follows |
| LineBreaks.BreakAtPrefix | src/text.ts:8 | the match depends only on the matched characters |
| LineBreaks.ReplaceBreaks | src/text.ts:8 | replacing breaks by newlines never lengthens the markup, and only empty markup becomes empty |
| LineBreaks.ReplaceCopy | src/text.ts:8 | a character that starts no break is copied, and the replace resumes right after it |
| LineBreaks.ReplacePlain | src/text.ts:8 | a stretch without `<` is copied unchanged |
| LineBreaks.ReplaceBreak | src/text.ts:8 | a break at the front becomes one newline |
| LineBreaks.ReplaceIdentity | src/text.ts:8 | markup without `<` is left as it is |
| LineBreaks.CopiedPrefix | src/text.ts:8 | output up to the first newline is copied input |
| LineBreaks.OutputBreaksHoldNewline | src/text.ts:8 | the replacement is one pass: any break left in the output holds a newline made by it, as in `<br<br>>` |
| LineBreaks.ReplaceAroundBreak | src/text.ts:8 | in a character that starts no break, text without `<`, a break and text without `<`, only the break becomes a newline |
| LineBreaks.SplitAroundNewline | src/text.ts:8 | two pieces without newline around one newline split into exactly those two lines |
| LineBreaks.SinglePass | src/text.ts:8 | `<br<br>>` becomes `<br` + newline + `>`; the output still starts with a break, and the lines are `<br` and `>` |
| LineBreaks.BoundariesAreNewlines | src/text.ts:8 | the newlines after the replacement are the input's boundaries: one per break plus one per newline outside a break (a newline inside a break, as in `<br\n>`, is consumed with it) |
| LineBreaks.Lines | src/text.ts:8 | `split` always gives at least one line, and no line holds a newline |
| LineBreaks.LinesCount | src/text.ts:8 | there is one more line than there are boundaries |
| LineBreaks.LinesRejoin | src/text.ts:8 | joining the lines with newlines gives the replaced markup back: nothing is dropped and the order is kept |
| LineBreaks.SplitPieceOffset | src/text.ts:8 | every piece of a split occurs in the split text |
| LineBreaks.SplitFirstPiece | src/text.ts:8 | the first piece of a split is a prefix of the split text |
| LineBreaks.LineHasNoBreak | src/text.ts:8 | no break starts anywhere in a line |
| LineBreaks.LinesHaveNoBreaks | src/text.ts:8 | no line contains a break or a newline boundary |
| LineBreaks.RenderLines | src/text.ts:39 | the first line comes first; a single line is returned as it is, and with more lines the first is followed by `<br>` |
| LineBreaks.ReplaceLineThenBreak | src/text.ts:8-39 | a line without a newline or `<b` followed by the joining `<br>` reads back as the line and one newline |
| LineBreaks.ReplaceJoined | src/text.ts:8-39 | lines joined with `<br>` become the same lines joined with newlines |
| LineBreaks.ReplaceLineAlone | src/text.ts:8 | a line without a newline or `<b` is left as it is |
| LineBreaks.LinesOfRender | src/text.ts:8-39 | splitting lines joined with `<br>` gives the same lines back, in order, when none holds a newline or `<b` |
| Tokenizer.Find | src/text.ts:13 | the search reports an occurrence at or after the start position with none between, or reports none when there is none |
| Tokenizer.FindFirst | src/text.ts:13 | an occurrence with none before it is the one the search reports |
| Tokenizer.OccursOne | src/text.ts:13 | a one-character pattern occurs exactly where that character is |
| Tokenizer.FirstGreater | src/text.ts:13 | `[^>]*>` stops at the first `>` after `<span` |
| Tokenizer.SpanAt | src/text.ts:13 | a span match lies within the line, is at least 13 characters long, starts with `<span` and ends with `</span>` |
| Tokenizer.SpanAtSound | src/text.ts:13 | every span match starts with `<span`, its opening tag ends at the first `>`, and it ends at the first `</span>` after that (non-greedy) |
| Tokenizer.SpanAtComplete | src/text.ts:13 | every such span at the front is matched, with exactly that length |
| Tokenizer.WordRun | src/text.ts:13 | a greedy `[\w'’]+`: all word characters and apostrophes, stopping only at the end or at another character |
| Tokenizer.SymbolRun | src/text.ts:13 | a greedy `[^\w\s<]+`: no word character, white space or `<`, stopping only at the end or at such a character |
| Tokenizer.PlainAt | src/text.ts:13 | the alternatives are tried in order: a maximal word run, else `&lt;`/`&gt;`, else a maximal symbol run; nothing matches exactly when the first character is in neither run |
| Tokenizer.NoMatchChars | src/text.ts:13-23 | no alternative matches at a character exactly when it is white space or a `<` that does not start a complete span |
| Tokenizer.AddGap | src/text.ts:13-23 | an unmatched character always starts a gap, and adds at most one token |
| Tokenizer.Tokenize | src/text.ts:12-25 | there are never more tokens than characters, and only the empty line has none |
| Tokenizer.TokenizeCovers | src/text.ts:12-25 | the tokens read the line from left to right: each is non-empty and fits where it begins, and no two gaps are adjacent |
| Tokenizer.GapsMergedTail | src/text.ts:12-25 | no two gaps are adjacent in the rest of a token list either |
| Tokenizer.GapsMergedCons | src/text.ts:12-25 | a token not followed by a gap keeps the gaps apart |
| Tokenizer.CoversCons | src/text.ts:12-25 | a fitting token in front of a cover of the rest covers the whole line |
| Tokenizer.GapCovers | src/text.ts:12-25 | an unmatched character joins the gap that follows it, and the cover is kept |
| Tokenizer.GapGrows | src/text.ts:12-25 | a gap extended by an unmatched character still fits |
| Tokenizer.CoversFlatten | src/text.ts:12-25 | a covering token list spells the line |
| Tokenizer.AfterGap | src/text.ts:12-25 | a gap runs to the next match or to the end of the line |
| Tokenizer.GapEnd | src/text.ts:12-25 | a merged gap is at least as long as any gap at the same place |
| Tokenizer.SameHead | src/text.ts:13 | two tokens that fit at the same place are the same token: the alternatives are tried in a fixed order |
| Tokenizer.CoversUnique | src/text.ts:12-25 | there is only one reading of a line with merged gaps |
| Tokenizer.TokenizeUnique | src/text.ts:12-25 | the tokenizer gives that reading: any left-to-right reading with maximal gaps equals it |
| Tokenizer.TokenizeLossless | src/text.ts:12-25 | the gaps and matches, in order, spell the decoded line exactly |
| Tokenizer.FitsShape | src/text.ts:13 | a fitting token has its kind's shape |
| Tokenizer.TokenizeShapes | src/text.ts:13-23 | gaps are white space and stray `<`; spans run from `<span` to `</span>`; words are one word run, `&lt;`/`&gt;`, or one symbol run |
| Tokenizer.CoversShapes | src/text.ts:13 | every token of a cover has its kind's shape |
| Tokenizer.WordsHaveNoSpace | src/text.ts:13-23 | white space is never wrapped: a word holds no white space and no `<` |
| Tokenizer.Promote | src/text.ts:17 | a span is unchanged exactly when it has no `class="`; otherwise it gains the five characters of `word ` |
| Tokenizer.PromoteInsertsMarker | src/text.ts:17 | `word ` goes right after the first `class="`, ahead of the classes already there, and everything else stays; a span with no `class="` is unchanged |
| Tokenizer.PromoteFirstClass | src/text.ts:17 | after promotion the first `class="` is still where it was |
| Tokenizer.DemotePromote | src/text.ts:17 | removing the marker gives the original span back |
| Tokenizer.Content | src/text.ts:20 | a word is its own content, except that the four-character `&lt;` and `&gt;` become one character |
| Tokenizer.Markup | src/text.ts:14-23 | a gap is copied, a plain word is wrapped in a word span (word tag in front, `</span>` behind), and no replacement is shorter than its match |
| Tokenizer.MarkupAll | src/text.ts:12-25 | rewriting never shortens a line, and a line of gaps only is left as it is |
| Tokenizer.UnmarkupMarkup | src/text.ts:15-23 | gaps are copied, spans only gain the marker, and words are wrapped in `<span class="word">`, with `&lt;` as `<`; every token except the word `&gt;` is recovered from its replacement |
| Tokenizer.EscapedGreaterMerges | src/text.ts:20-21 | the word `&gt;` and the symbol word `>` get the same replacement |
| Tokenizer.WordRunOf | src/text.ts:13 | a word run ends exactly where the word characters end |
| Tokenizer.SymbolRunOf | src/text.ts:13 | a symbol run ends exactly where the symbols end |
| Tokenizer.NoSpanWithoutAngle | src/text.ts:13 | only a `<` can start a span match |
| Tokenizer.TokenizeWordFirst | src/text.ts:13 | a maximal word run at the front is one word token |
| Tokenizer.TokenizeSymbolsFirst | src/text.ts:13 | a maximal symbol run at the front, not `&lt;`/`&gt;`, is one word token |
| Tokenizer.TokenizeWordThenSymbols | src/text.ts:13 | a word run directly followed by symbols gives two separate words |
| Tokenizer.TokenizeStrayAngle | src/text.ts:13-23 | a `<` that starts no complete span goes in a gap |
| Tokenizer.UnclosedSpanAt | src/text.ts:13 | `<span>` followed only by word characters has no `</span>` after it and starts no span match |
| Tokenizer.TokenizeGreaterThenWord | src/text.ts:13 | `>` followed by a word is two words: the symbol run stops where the word characters start |
| Tokenizer.TokenizeStrayTag | src/text.ts:12-25 | a `<` that starts no span, then a name, `>` and a word: the `<` is left in a gap of its own and the rest is three words |
| Tokenizer.TokenizeNameThenWord | src/text.ts:13 | a run of word characters, a `>` and a word are three words |
| Tokenizer.TokenizeUnclosedSpan | src/text.ts:13 | `<span>` followed by a word with no `</span>` (as in `<span>oops`) is the gap `<` and the words `span`, `>` and the word |
| Tokenizer.TokenizeAbbreviation | src/text.ts:13 | `Co.` is the words `Co` and `.` |
| Tokenizer.TokenizeAccented | src/text.ts:13 | `café` is the words `caf` and `é`, since `\w` is ASCII |
| Tokenizer.NotEscapedAngle | src/text.ts:13 | `&name;` starts with `&lt;` or `&gt;` only when the name is `lt` or `gt` |
| Tokenizer.TokenizeBetweenSymbols | src/text.ts:13 | a `\w` run between two single symbols is three words |
| Tokenizer.TokenizeEscapedLess | src/text.ts:13-21 | `&lt;` alone is one plain word, and its word span holds `<` |
| Tokenizer.TokenizeUnknownReference | src/text.ts:13 | a word followed by an undecoded `&name;` is four words: the word, `&`, the name and `;` |
| Letters.LettersRoundTrip | src/text.ts:33-34 | the letter spans read back as the word's code points, in order, with nothing after them |
| Letters.LetterSpans | src/text.ts:33-34 | each code point costs one opening and one closing letter tag, so the letter count equals the code-point count |
| Letters.SplitLetters | src/text.ts:31-35 | every word element's content, in document order, is replaced in place by its letter spans, and the number of elements stays the same |
| Letters.WordLetters | src/text.ts:31-35 | each word element, in order, gets the letter spans of its text, which read back as that text |
| TextSplitter.LineTokens | src/text.ts:12-13 | the tokens of a line spell its decoded text, and there are never more tokens than characters |
| TextSplitter.LineMarkup | src/text.ts:12-25 | the rewritten line is the replacements of its tokens one after the other, and is never shorter than the decoded line |
| TextSplitter.MarkupAllPieces | src/text.ts:12-25 | the rewritten line is the replacements one after the other |
| TextSplitter.LineMarkupTokens | src/text.ts:12-25 | the tokens spell the decoded line, the rewritten line is their replacements in order, and each replacement reads back to its token (except the word `&gt;`) |
| TextSplitter.LineTokensPlain | src/text.ts:12 | a line without `&` is tokenized as it stands |
| TextSplitter.DoubleDecodedLess | src/text.ts:12-21 | `&amp;lt;` is decoded to `&lt;`, tokenized as one word, and written as a word span holding `<` |
| TextSplitter.StripTags | src/text.ts:32 | the text content is no longer than the markup and holds only characters of it |
| TextSplitter.StripTagsPlain | src/text.ts:32 | text without `<` is its own text content |
| TextSplitter.WordText | src/text.ts:30-32 | a gap is never a word element and a plain word always is; a word element's text is no longer than its match plus the marker |
| TextSplitter.WordTexts | src/text.ts:30-32 | there are never more word elements than tokens |
| TextSplitter.WordTextsCount | src/text.ts:30 | every plain word gives a word element, gaps never do, and there are no more word elements than tokens |
| TextSplitter.LineLetters | src/text.ts:27-35 | for every word element of a line, in order, the letter spans of its text, which read back as that text |
| TextSplitter.TextMarkup | src/text.ts:10-39 | the new markup starts with the first rewritten line, and is that line alone when there is one line |
| TextSplitter.TextMarkupLines | src/text.ts:8-39 | one rewritten line per input line, one more than the boundaries; splitting the joined result again gives the rewritten lines back when they hold no newline or `<b` |
| LegacyText.WordMarkup | src/index.ts:76-80 | a word span starts with the word tag, and each code unit costs one opening and one closing letter tag |
| LegacyText.WordsMarkup | src/index.ts:74-82 | the words of a line give markup that starts with a word span, and only no words give none |
| LegacyText.LineMarkup | src/index.ts:72-82 | every line, even an empty one, starts with a word span |
| LegacyText.LinesMarkup | src/index.ts:70-84 | lines give markup that starts with a word span, and only no lines give none |
| LegacyText.TextMarkup | src/index.ts:67-84 | the new markup always starts with a word span |
| LegacyText.TagsDiffer | src/index.ts:78-84 | the tags have their lengths, the letter tag differs from the closing tag, and neither `<br>` nor the closing tag starts with a space |
| LegacyText.LettersBeforeClose | src/index.ts:76-80 | the letter spans of a word read back as its code units, in order, and end at the word's closing tag whatever follows it |
| LegacyText.ParseWordMarkup | src/index.ts:76-80 | a word span reads back as its code units, in order, whatever follows it |
| LegacyText.ParseWordsMarkup | src/index.ts:72-82 | the space-joined word spans of a line read back as its words, up to the following `<br>` or the end |
| LegacyText.ParseWordsStep | src/index.ts:82 | one more word span and a space in front read back as one more word |
| LegacyText.ParseOneLine | src/index.ts:70-82 | the markup of a single line reads back as that line's words |
| LegacyText.ParseLinesMarkup | src/index.ts:68-84 | the `<br>`-joined lines read back as the words of each line, in order |
| LegacyText.ParseLinesStep | src/index.ts:84 | one more line and a `<br>` in front read back as one more line |
| LegacyText.JoinLinesWords | src/index.ts:72 | joining each line's words with single spaces gives the lines back |
| LegacyText.UnrenderTextMarkup | src/index.ts:67-84 | lossless: removing the tags and turning each `<br>` back into a newline gives `innerText` exactly |
| LegacyText.WordAndLineCounts | src/index.ts:68-72 | there is one more line than newlines, and a line with k spaces has k + 1 words, empty ones included |
| Stagger.Clamp | src/text.ts:46-50 | the automatic stagger is `1/letters` clamped to [0.005, 0.05]: the upper bound below 20 letters (and with none), the lower above 200 |
| Stagger.Reveal.constructor | src/text.ts:6 | the stagger starts as the configured value |
| Stagger.Reveal.OnEntry | src/text.ts:46-50 | a zero stagger is replaced by the clamped value, any other is kept, and the stagger is never zero afterwards |

## Left out

- The HTML parser and serialiser: `DOMParser`, `doc.body.innerHTML` and the assignments to `element.innerHTML` (src/text.ts:10, 27-28, 37; src/index.ts:70). These are foreign. The model stops at the rewritten markup of each line (`TextSplitter.TextMarkup`) and, separately, at the letter spans of each word element (`TextSplitter.LineLetters`). It does not model how the browser re-parses the unescaped letters (a letter `<` or `&`), re-escapes text on serialisation, or repairs malformed markup.
- Which elements `querySelectorAll('.word')` finds is approximated. The model takes the wrapped plain words and the promoted spans that have a `class="`. It does not look at elements nested inside a span, elements that already had the class `word`, or a marker that landed in an inner tag.
- TextSplitter.StripTags: the text content of an element is approximated by deleting everything from each `<` to the next `>`. Entities, comments and unterminated tags are not handled as a browser would handle them.
- TextSplitter.WordTextsCount, TextSplitter.WordTexts: state only the bounds on the number of word elements, not which spans become one, for the reasons above.
- The text of the current version is a sequence of code points, not of UTF-16 code units. The regular expressions have no `u` flag and work on code units, but every class involved is in the Basic Multilingual Plane. Both halves of a surrogate pair fall in the same classes, so the two readings agree on well-formed text. Lone surrogates are not modelled.
- The observer callbacks and the tweens are not part of this model: `IntersectionObserver`, `gsap.fromTo`, `gsap.killTweensOf` and `gsap.set` (src/text.ts:41-77; src/index.ts:86-109). They are asynchronous and foreign. The `yOffset` and `duration` constants are left out with them.
- Stagger.Clamp: numbers are reals, not IEEE doubles. The rounding of `1 / letters` and of the bounds is not modelled.
- Reading the attributes is not modelled: `getAttribute` and `parseFloat` for `data-ld-delay` and `data-ld-stagger`, and the delay conversion (src/text.ts:4-6). The constructor takes the already parsed stagger. A `NaN` from an unparsable attribute is not modelled; such a stagger is never zero, so it would be kept.
- `innerText` (src/index.ts:68) depends on layout, so it is taken as the input text.
- `src/animations.ts` and `src/defaults.ts` are not part of this model. Neither is the rest of `src/index.ts`. All of it is attribute-driven wiring to the animation library and the DOM.
- Tokenizer.UnmarkupMarkup: excludes the word `&gt;`. The source gives it the same replacement as the symbol word `>` (`Tokenizer.EscapedGreaterMerges`), so it cannot be told apart afterwards.
- LineBreaks.LinesOfRender: requires that no rewritten line holds a newline or a `<` followed by `b`/`B` anywhere; splitting the joined markup again would cut such a line.
- Grapheme clusters: the source does not form them, and neither does the model. Combining sequences and emoji are split per code point in the current version and per code unit in the older one.
