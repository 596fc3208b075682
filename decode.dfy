/**
 * `decodeHtml` (src/text.ts): one global `replace` over a fixed alternation of
 * character references followed by an empty alternative, whose callback looks
 * the match up in a constant object and falls back to the match itself.
 */
module EntityDecoder {
  import opened Seqs

  /** The `htmlEntities` object: reference -> replacement text. */
  const Entities: map<string, string> := map[
    "&nbsp;" := " ",
    "&amp;" := "&",
    "&lt;" := "<",
    "&gt;" := ">",
    "&quot;" := "\"",
    "&#39;" := "'",
    "&ldquo;" := "\U{201C}",
    "&rdquo;" := "\U{201D}",
    "&lsquo;" := "\U{2018}",
    "&rsquo;" := "\U{2019}",
    "&mdash;" := "\U{2014}",
    "&ndash;" := "\U{2013}",
    "&hellip;" := "\U{2026}",
    "&trade;" := "\U{2122}",
    "&copy;" := "\U{00A9}",
    "&reg;" := "\U{00AE}",
    "&euro;" := "\U{20AC}",
    "&pound;" := "\U{00A3}",
    "&yen;" := "\U{00A5}",
    "&cent;" := "\U{00A2}",
    "&times;" := "\U{00D7}",
    "&divide;" := "\U{00F7}",
    "&plusmn;" := "\U{00B1}",
    "&minus;" := "\U{2212}"
  ]

  /**
   * The non-empty alternatives of the pattern, in the order the regular
   * expression tries them; the pattern's last alternative is empty and is
   * modelled in `Scan`.
   */
  const Pattern: seq<string> := [
    "&nbsp;", "&amp;", "&lt;", "&gt;", "&quot;", "&#39;", "&ldquo;", "&rdquo;",
    "&lsquo;", "&rsquo;", "&mdash;", "&ndash;", "&hellip;", "&trade;", "&copy;",
    "&reg;", "&euro;", "&pound;", "&yen;", "&cent;", "&times;", "&divide;",
    "&plusmn;", "&minus;"
  ]

  /** A reference of the form `&name;` with no other `;` or `&` in it. */
  predicate IsReference(k: string)
  {
    |k| >= 3 && k[0] == '&' && k[|k| - 1] == ';' && ';' !in k[1..|k| - 1] && '&' !in k[1..]
  }

  /**
   * What `decodeHtml` relies on in its two constants: every alternative is a
   * reference, and is a key of the object with a one-character value; the
   * empty string is not a key.
   */
  predicate WellFormedTable(keys: seq<string>, table: map<string, string>)
  {
    && [] !in table
    && forall k | k in keys :: IsReference(k) && k in table && |table[k]| == 1
  }

  /** The first alternative of `keys` that `s` starts with, or the empty match. */
  function FirstPrefix(keys: seq<string>, s: string): (m: string)
    ensures m == [] || (m in keys && m <= s)
    ensures m == [] ==> forall k | k in keys && k != [] :: !(k <= s)
    ensures m != [] ==> exists i | 0 <= i < |keys| :: keys[i] == m && NoneBefore(keys, s, i)
  {
    if keys == [] then []
    else if keys[0] <= s && keys[0] != [] then
      assert keys[0] == keys[0] && NoneBefore(keys, s, 0);
      keys[0]
    else
      assert forall k | k in keys :: k == keys[0] || k in keys[1..];
      var m := FirstPrefix(keys[1..], s);
      if m == [] then m
      else
        var i :| 0 <= i < |keys| - 1 && keys[1..][i] == m && NoneBefore(keys[1..], s, i);
        assert keys[i + 1] == m && NoneBefore(keys, s, i + 1) by {
          forall j | 1 <= j < i + 1 ensures keys[j] == [] || !(keys[j] <= s) {
            assert keys[j] == keys[1..][j - 1];
          }
        }
        m
  }

  /** No alternative before index `i` is a non-empty prefix of `s`: they are tried first and fail. */
  predicate NoneBefore(keys: seq<string>, s: string, i: nat)
    requires i <= |keys|
  {
    forall j | 0 <= j < i :: keys[j] == [] || !(keys[j] <= s)
  }

  /** The callback `htmlEntities[match] || match`: the value of a known key, and the match itself otherwise. */
  function Replacement(table: map<string, string>, m: string): (r: string)
    ensures [] !in table && m == [] ==> r == []
    ensures m in table && |table[m]| == 1 && |m| > 1 ==> r == table[m] && |r| < |m|
  {
    if m in table && table[m] != [] then table[m] else m
  }

  /**
   * `s.replace(/k1|k2|...|kn|/g, m => table[m] || m)`. At each position the
   * alternatives are tried in order; where none of the references matches, the
   * empty alternative does, its replacement is inserted, and the scan steps
   * over one character, which is copied. The empty alternative also matches
   * once at the very end.
   */
  function Scan(keys: seq<string>, table: map<string, string>, s: string): (r: string)
    ensures WellFormedTable(keys, table) ==> |r| <= |s|
    decreases |s|
  {
    var m := FirstPrefix(keys, s);
    if m != [] then Replacement(table, m) + Scan(keys, table, s[|m|..])
    else if s == [] then Replacement(table, m)
    else Replacement(table, m) + [s[0]] + Scan(keys, table, s[1..])
  }

  /** `decodeHtml(s)`: never longer than `s`, since each reference shrinks to one character. */
  function Decode(s: string): (r: string)
    ensures |r| <= |s|
  {
    DecodeTable();
    Scan(Pattern, Entities, s)
  }

  // ---------------------------------------------------------------------------
  // The two constants

  /** The first eight alternatives of the pattern are references. */
  lemma {:induction false} PatternReferencesLow()
    ensures forall i | 0 <= i < 8 :: IsReference(Pattern[i])
  {
  }

  /** So are the next eight. */
  lemma {:induction false} PatternReferencesMiddle()
    ensures forall i | 8 <= i < 16 :: IsReference(Pattern[i])
  {
  }

  /** And the last eight. */
  lemma {:induction false} PatternReferencesHigh()
    ensures forall i | 16 <= i < 24 :: IsReference(Pattern[i])
  {
  }

  /** The pattern lists 24 references. */
  lemma {:induction false} PatternReferences()
    ensures |Pattern| == 24
    ensures forall k | k in Pattern :: IsReference(k)
  {
    PatternReferencesLow();
    PatternReferencesMiddle();
    PatternReferencesHigh();
    forall k | k in Pattern ensures IsReference(k) {
      var i :| 0 <= i < |Pattern| && Pattern[i] == k;
    }
  }

  /** Every alternative of the pattern is a key of the object. */
  lemma {:induction false} PatternInEntities()
    ensures forall k | k in Pattern :: k in Entities
  {
  }

  /** Every key of the object is an alternative of the pattern: the two constants agree. */
  lemma {:induction false} EntitiesInPattern()
    ensures forall k | k in Entities :: k in Pattern
  {
  }

  /** Every value of the object is one character, and the empty string is no key. */
  lemma {:induction false} EntityValues()
    ensures forall k | k in Entities :: |Entities[k]| == 1
    ensures [] !in Entities
  {
  }

  /** The constants of `decodeHtml` satisfy `WellFormedTable`. */
  lemma {:induction false} DecodeTable()
    ensures WellFormedTable(Pattern, Entities)
  {
    PatternReferences();
    PatternInEntities();
    EntityValues();
  }

  // ---------------------------------------------------------------------------
  // The scan, for any well-formed table

  /** No reference is a prefix of a text that starts with a different reference. */
  lemma {:induction false} ReferencePrefixFree(a: string, b: string, rest: string)
    requires IsReference(a) && IsReference(b)
    requires a <= b + rest
    ensures a == b
  {
    var ab := b + rest;
    assert forall i | 1 <= i < |b| - 1 :: b[i] in b[1..|b| - 1];
    assert forall i | 1 <= i < |a| - 1 :: a[i] in a[1..|a| - 1];
    assert forall i | 0 <= i < |a| && i < |b| :: a[i] == ab[i] == b[i];
    assert |a| <= |b| ==> a[|a| - 1] == b[|a| - 1];
    assert |b| <= |a| ==> a[|b| - 1] == b[|b| - 1];
    assert a == ab[..|a|] == b;
  }

  /** A text beginning with a key is decoded to the key's value followed by the decoding of the rest. */
  lemma {:induction false} ScanReference(keys: seq<string>, table: map<string, string>, k: string, rest: string)
    requires WellFormedTable(keys, table)
    requires k in keys
    ensures Scan(keys, table, k + rest) == table[k] + Scan(keys, table, rest)
  {
    var s := k + rest;
    var m := FirstPrefix(keys, s);
    assert k <= s;
    ReferencePrefixFree(m, k, rest);
    assert s[|k|..] == rest;
  }

  /** A character other than `&` is copied as it is. */
  lemma {:induction false} ScanStep(keys: seq<string>, table: map<string, string>, s: string)
    requires WellFormedTable(keys, table)
    requires s != [] && s[0] != '&'
    ensures Scan(keys, table, s) == [s[0]] + Scan(keys, table, s[1..])
  {
  }

  /** Text without `&` is copied unchanged, whatever follows it. */
  lemma {:induction false} ScanNoAmpersand(keys: seq<string>, table: map<string, string>, x: string, rest: string)
    requires WellFormedTable(keys, table)
    requires '&' !in x
    ensures Scan(keys, table, x + rest) == x + Scan(keys, table, rest)
    decreases |x|
  {
    if x == [] {
      assert x + rest == rest;
    } else {
      var s := x + rest;
      HeadTail(x, rest);
      ScanStep(keys, table, s);
      assert '&' !in x[1..] by {
        assert forall c | c in x[1..] :: c in x;
      }
      ScanNoAmpersand(keys, table, x[1..], rest);
      HeadTail(x, Scan(keys, table, rest));
    }
  }

  /** A string with no `&` comes back unchanged. */
  lemma {:induction false} ScanIdentity(keys: seq<string>, table: map<string, string>, s: string)
    requires WellFormedTable(keys, table)
    requires '&' !in s
    ensures Scan(keys, table, s) == s
  {
    ScanNoAmpersand(keys, table, s, []);
    assert s + [] == s;
    assert FirstPrefix(keys, []) == [];
  }

  /** A reference that is not in the table is copied verbatim: never replaced, never dropped. */
  lemma {:induction false} ScanUnknownReference(keys: seq<string>, table: map<string, string>, r: string, rest: string)
    requires WellFormedTable(keys, table)
    requires IsReference(r) && r !in keys
    ensures Scan(keys, table, r + rest) == r + Scan(keys, table, rest)
  {
    var s := r + rest;
    var m := FirstPrefix(keys, s);
    if m != [] {
      ReferencePrefixFree(m, r, rest);
    }
    assert Replacement(table, []) == [];
    assert Scan(keys, table, s) == [s[0]] + Scan(keys, table, s[1..]);
    assert s[1..] == r[1..] + rest;
    assert '&' !in r[1..];
    ScanNoAmpersand(keys, table, r[1..], rest);
    assert [r[0]] + r[1..] == r;
  }

  /**
   * Text with an unknown reference followed by a known one: the known reference
   * is replaced, everything else (the unknown reference included) is copied.
   */
  lemma {:induction false} ScanKnownAfterUnknown(keys: seq<string>, table: map<string, string>, a: string, r: string, b: string, k: string, c: string)
    requires WellFormedTable(keys, table)
    requires '&' !in a && '&' !in b && '&' !in c
    requires IsReference(r) && r !in keys
    requires k in keys
    ensures Scan(keys, table, a + (r + (b + (k + c)))) == a + (r + (b + (table[k] + c)))
  {
    ScanIdentity(keys, table, c);
    ScanReference(keys, table, k, c);
    ScanNoAmpersand(keys, table, b, k + c);
    ScanUnknownReference(keys, table, r, b + (k + c));
    ScanNoAmpersand(keys, table, a, r + (b + (k + c)));
  }

  /** Number of `&` in `s`. */
  function Ampersands(s: string): nat
  {
    if s == [] then 0 else (if s[0] == '&' then 1 else 0) + Ampersands(s[1..])
  }

  /** Every `&` written as `&amp;`. */
  function EscapeAmpersands(s: string): (r: string)
    ensures |r| == |s| + 4 * Ampersands(s)
  {
    if s == [] then []
    else if s[0] == '&' then "&amp;" + EscapeAmpersands(s[1..])
    else [s[0]] + EscapeAmpersands(s[1..])
  }

  /**
   * One left-to-right pass whose output is never rescanned: once every `&` is
   * escaped as `&amp;`, decoding gives the original back, even where the
   * original itself holds references such as `&lt;`.
   */
  lemma {:induction false} ScanEscaped(keys: seq<string>, table: map<string, string>, s: string)
    requires WellFormedTable(keys, table)
    requires "&amp;" in keys && table["&amp;"] == "&"
    ensures Scan(keys, table, EscapeAmpersands(s)) == s
    decreases |s|
  {
    if s == [] {
      assert FirstPrefix(keys, []) == [];
    } else if s[0] == '&' {
      ScanReference(keys, table, "&amp;", EscapeAmpersands(s[1..]));
      ScanEscaped(keys, table, s[1..]);
      assert [s[0]] + s[1..] == s;
    } else {
      ScanNoAmpersand(keys, table, [s[0]], EscapeAmpersands(s[1..]));
      ScanEscaped(keys, table, s[1..]);
      assert [s[0]] + s[1..] == s;
    }
  }

  // ---------------------------------------------------------------------------
  // `decodeHtml`

  /** Each of the 24 keys, on its own or followed by anything, decodes to its mapped character. */
  lemma {:induction false} DecodeKey(k: string, rest: string)
    requires k in Entities
    ensures Decode(k + rest) == Entities[k] + Decode(rest)
  {
    DecodeTable();
    EntitiesInPattern();
    ScanReference(Pattern, Entities, k, rest);
  }

  /** Text with no `&` is copied unchanged, whatever follows it. */
  lemma {:induction false} DecodePlain(x: string, rest: string)
    requires '&' !in x
    ensures Decode(x + rest) == x + Decode(rest)
  {
    DecodeTable();
    ScanNoAmpersand(Pattern, Entities, x, rest);
  }

  /** A string with no `&` comes back unchanged. */
  lemma {:induction false} DecodeIdentity(s: string)
    requires '&' !in s
    ensures Decode(s) == s
  {
    DecodeTable();
    ScanIdentity(Pattern, Entities, s);
  }

  /**
   * With the actual pattern and object, the fallback to the match itself never
   * fires on an alternative: each reference becomes its one-character value,
   * and the empty alternative inserts nothing.
   */
  lemma {:induction false} ReplacementOfPattern(m: string)
    ensures m in Pattern ==> Replacement(Entities, m) == Entities[m] && |Replacement(Entities, m)| == 1 && Replacement(Entities, m) != m
    ensures m == [] ==> Replacement(Entities, m) == []
  {
    DecodeTable();
    PatternInEntities();
    if m in Pattern {
      assert IsReference(m);
    }
  }

  /**
   * An `&` that starts no key, as in `AT&T`, `&amp` without its `;`, `&&amp;`
   * or `& `, is copied like any other character.
   */
  lemma {:induction false} DecodeNoKey(s: string)
    requires s != [] && forall k | k in Entities :: !(k <= s)
    ensures Decode(s) == [s[0]] + Decode(s[1..])
  {
    DecodeTable();
    PatternInEntities();
  }

  /** An unrecognised reference such as `&eacute;` is copied verbatim. */
  lemma {:induction false} DecodeUnknownReference(r: string, rest: string)
    requires IsReference(r) && r !in Entities
    ensures Decode(r + rest) == r + Decode(rest)
  {
    DecodeTable();
    PatternInEntities();
    ScanUnknownReference(Pattern, Entities, r, rest);
  }

  /** Escaping every `&` as `&amp;` and decoding is the identity. */
  lemma {:induction false} DecodeEscaped(s: string)
    ensures Decode(EscapeAmpersands(s)) == s
  {
    DecodeTable();
    EntitiesInPattern();
    assert Entities["&amp;"] == "&";
    ScanEscaped(Pattern, Entities, s);
  }

  /**
   * Decoding is not repeated on its own output: a reference whose `&` is itself
   * escaped, such as `&amp;lt;`, decodes to the reference `&lt;`, not to `<`.
   */
  lemma {:induction false} DecodeOnce(k: string)
    requires k in Entities
    ensures Decode("&amp;" + k[1..]) == k
  {
    EntitiesInPattern();
    PatternReferences();
    assert IsReference(k);
    AmpersandValue();
    DecodeKey("&amp;", k[1..]);
    DecodeIdentity(k[1..]);
    assert [k[0]] + k[1..] == k;
  }

  /** `&amp;lt;` decodes to `&lt;`, not to `<`. */
  lemma {:induction false} DecodeEscapedLess(k: string, s: string)
    requires k == "&lt;" && s == "&amp;lt;"
    ensures Decode(s) == k
  {
    LessPieces(k, s);
    DecodeOnce(k);
  }

  /** `&lt;` is a key, and `&amp;lt;` is `&amp;` followed by the tail of `&lt;`. */
  lemma {:induction false} LessPieces(k: string, s: string)
    requires k == "&lt;" && s == "&amp;lt;"
    ensures k in Entities && s == "&amp;" + k[1..]
  {
    assert Pattern[2] == k;
    PatternInEntities();
  }



  /** `&eacute;` is none of the first eight alternatives of the pattern. */
  lemma {:induction false} EacuteNotLow(r: string)
    requires r == "&eacute;"
    ensures forall i | 0 <= i < 8 :: Pattern[i] != r
  {
  }

  /** Nor of the next eight. */
  lemma {:induction false} EacuteNotMiddle(r: string)
    requires r == "&eacute;"
    ensures forall i | 8 <= i < 16 :: Pattern[i] != r
  {
  }

  /** Nor of the last eight. */
  lemma {:induction false} EacuteNotHigh(r: string)
    requires r == "&eacute;"
    ensures forall i | 16 <= i < 24 :: Pattern[i] != r
  {
  }

  /** `&eacute;` is a well-formed reference that the table does not know. */
  lemma {:induction false} EacuteUnknown(r: string)
    requires r == "&eacute;"
    ensures IsReference(r) && r !in Entities
  {
    EacuteNotLow(r);
    EacuteNotMiddle(r);
    EacuteNotHigh(r);
    EntitiesInPattern();
    assert r !in Pattern;
  }

  /** `&amp;` stands for `&`. */
  lemma {:induction false} AmpersandValue()
    ensures "&amp;" in Entities && Entities["&amp;"] == "&"
  {
  }

  /** Where the pieces of `Caf&eacute; &amp; Co.` lie. */
  lemma {:induction false} MixedPieces(s: string)
    requires s == "Caf&eacute; &amp; Co."
    ensures |s| == 21
    ensures '&' !in s[..3] && s[3..11] == "&eacute;" && s[11] == ' '
    ensures s[12..17] == "&amp;" && '&' !in s[17..]
  {
  }

  /**
   * Text with an unknown reference followed by a known key: the key is
   * replaced by its character, everything else is copied.
   */
  lemma {:induction false} DecodeKnownAfterUnknown(a: string, r: string, b: string, k: string, c: string)
    requires '&' !in a && '&' !in b && '&' !in c
    requires IsReference(r) && r !in Entities
    requires k in Entities
    ensures Decode(a + (r + (b + (k + c)))) == a + (r + (b + (Entities[k] + c)))
  {
    DecodeTable();
    PatternInEntities();
    EntitiesInPattern();
    ScanKnownAfterUnknown(Pattern, Entities, a, r, b, k, c);
  }

  /**
   * In `Caf&eacute; &amp; Co.` only `&amp;` (positions 12 to 16) is decoded,
   * giving `Caf&eacute; & Co.`; `&eacute;` is not in the table and stays.
   */
  lemma {:induction false} DecodeMixed(s: string)
    requires s == "Caf&eacute; &amp; Co."
    ensures Decode(s) == s[..12] + ("&" + s[17..])
  {
    MixedPieces(s);
    var caf, eacute, sp, amp, tail := s[..3], s[3..11], s[11..12], s[12..17], s[17..];
    Slices(s, 3, 11, 12, 17);
    EacuteUnknown(eacute);
    AmpersandValue();
    DecodeKnownAfterUnknown(caf, eacute, sp, amp, tail);
    Regroup(caf, eacute, sp, "&" + tail);
  }
}
