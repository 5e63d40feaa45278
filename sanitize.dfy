/**
 * `sanitize_text` from the report generator: it makes source text printable
 * in a Latin-1 PDF font. A fixed table of substitutions is applied one
 * `str.replace` at a time, in table order, then whatever is still outside
 * Latin-1 becomes `?`.
 *
 * The specification transliterates every character on its own (Transliterate,
 * Sanitized); it is stated for any table of the shape the source's table has
 * (WellFormed), and the source's own table is Replacements. SanitizeText
 * follows the source step by step and is proved to compute Sanitized.
 */
module Sanitize {
  import opened PyStr

  datatype Option<T> = None | Some(value: T)

  /** A substitution table: (key, replacement) pairs in iteration order. */
  type Table = seq<(char, string)>

  /** The number of entries in the source's substitution table. */
  const TableSize: nat := 46

  /** The number of accented-letter entries at the front of the table. */
  const LetterEntries: nat := 39

  /** Entry `k` of the source's substitution table, in the order the source
      lists it (a Python dict iterates in insertion order). Entries 42 to 45
      are taken to be the typographic quotes U+201C, U+201D, U+2018 and
      U+2019, mapped to the ASCII quotes, which is what the entries are
      evidently meant to do. The source shows their keys as plain ASCII quotes;
      what that literal table does instead is modelled further down
      (SanitizedAsWritten). Every key lies outside ASCII and every replacement
      is ASCII without a line break. */
  function TableEntry(k: nat): (e: (char, string))
    requires k < TableSize
    ensures !IsAscii(e.0) && IsAsciiText(e.1) && '\n' !in e.1
  {
    match k
      case 0 => ('ã', "a")
      case 1 => ('á', "a")
      case 2 => ('à', "a")
      case 3 => ('â', "a")
      case 4 => ('ẽ', "e")
      case 5 => ('é', "e")
      case 6 => ('è', "e")
      case 7 => ('ê', "e")
      case 8 => ('ĩ', "i")
      case 9 => ('í', "i")
      case 10 => ('ì', "i")
      case 11 => ('î', "i")
      case 12 => ('õ', "o")
      case 13 => ('ó', "o")
      case 14 => ('ò', "o")
      case 15 => ('ô', "o")
      case 16 => ('ũ', "u")
      case 17 => ('ú', "u")
      case 18 => ('ù', "u")
      case 19 => ('û', "u")
      case 20 => ('ç', "c")
      case 21 => ('Ã', "A")
      case 22 => ('Á', "A")
      case 23 => ('À', "A")
      case 24 => ('Â', "A")
      case 25 => ('É', "E")
      case 26 => ('È', "E")
      case 27 => ('Ê', "E")
      case 28 => ('Í', "I")
      case 29 => ('Ì', "I")
      case 30 => ('Î', "I")
      case 31 => ('Õ', "O")
      case 32 => ('Ó', "O")
      case 33 => ('Ò', "O")
      case 34 => ('Ô', "O")
      case 35 => ('Ú', "U")
      case 36 => ('Ù', "U")
      case 37 => ('Û', "U")
      case 38 => ('Ç', "C")
      case 39 => ('✓', "[OK]")
      case 40 => ('→', "->")
      case 41 => ('↔', "<->")
      case 42 => ('\U{201C}', "\"")
      case 43 => ('\U{201D}', "\"")
      case 44 => ('\U{2018}', "'")
      case _ => ('\U{2019}', "'")
  }

  predicate IsAsciiText(s: string) { forall c :: c in s ==> IsAscii(c) }

  /** The shape that makes one-at-a-time replacement a per-character map:
      every key lies outside ASCII and every replacement is ASCII without a
      line break, so no replacement contains a key or starts a new line. */
  predicate WellFormed(t: Table)
  {
    forall k :: 0 <= k < |t| ==> !IsAscii(t[k].0) && IsAsciiText(t[k].1) && '\n' !in t[k].1
  }

  /** No key appears twice. */
  predicate KeysDistinct(t: Table)
  {
    forall i, j :: 0 <= i < j < |t| ==> t[i].0 != t[j].0
  }

  /** The source's table, as a sequence; it has the shape the proofs rely on. */
  function Replacements(): (t: Table)
    ensures |t| == TableSize && WellFormed(t)
  {
    seq(TableSize, k requires 0 <= k < TableSize => TableEntry(k))
  }

  /** No key of the source's table appears twice, so each key's own entry is
      the one that applies to it. */
  lemma TableKeysDistinct()
    ensures KeysDistinct(Replacements())
  {
    EntryKeysDistinct();
  }

  lemma EntryKeysDistinct()
    ensures forall i, j :: 0 <= i < j < TableSize ==> TableEntry(i).0 != TableEntry(j).0
  {
  }

  /** The accented letters (the first 39 entries) map to one ASCII letter
      each; the three symbols map to longer ASCII spellings. */
  lemma TableValues()
    ensures forall k :: 0 <= k < LetterEntries ==>
      var v := Replacements()[k].1;
      |v| == 1 && ('A' <= v[0] <= 'Z' || 'a' <= v[0] <= 'z')
    ensures Replacements()[39] == ('✓', "[OK]")
    ensures Replacements()[40] == ('→', "->")
    ensures Replacements()[41] == ('↔', "<->")
  {
  }

  /** The first entry of `t` whose key is `c`. */
  function Lookup(t: Table, c: char): (r: Option<string>)
    ensures r.Some? ==> exists k :: 0 <= k < |t| && t[k] == (c, r.value)
    ensures r.None? <==> forall k :: 0 <= k < |t| ==> t[k].0 != c
  {
    if t == [] then None
    else if t[0].0 == c then Some(t[0].1)
    else Lookup(t[1..], c)
  }

  predicate IsKey(t: Table, c: char) { Lookup(t, c).Some? }

  /** In a well-formed table, what Lookup finds is ASCII without a line break. */
  lemma LookupPlain(t: Table, c: char)
    requires WellFormed(t) && Lookup(t, c).Some?
    ensures IsAsciiText(Lookup(t, c).value) && '\n' !in Lookup(t, c).value
  {
    var k :| 0 <= k < |t| && t[k] == (c, Lookup(t, c).value);
  }

  lemma AsciiIsNoKey(t: Table, c: char)
    requires WellFormed(t) && IsAscii(c)
    ensures !IsKey(t, c)
  {
  }

  lemma WellFormedPrefix(t: Table, j: nat)
    requires WellFormed(t) && j <= |t|
    ensures WellFormed(t[..j])
  {
    forall k | 0 <= k < j ensures t[..j][k] == t[k] { }
  }

  /** A key first found at entry k is found there by Lookup. */
  lemma {:induction false} LookupFirst(t: Table, k: nat, c: char)
    requires k < |t| && t[k].0 == c
    requires forall i :: 0 <= i < k ==> t[i].0 != c
    ensures Lookup(t, c) == Some(t[k].1)
  {
    if k > 0 {
      assert t[0].0 != c;
      LookupFirst(t[1..], k - 1, c);
    }
  }

  lemma {:induction false} LookupAppend(t: Table, e: (char, string), c: char)
    ensures Lookup(t + [e], c) ==
      if Lookup(t, c).Some? then Lookup(t, c)
      else if e.0 == c then Some(e.1) else None
  {
    if t == [] {
      assert t + [e] == [e];
    } else {
      assert (t + [e])[0] == t[0] && (t + [e])[1..] == t[1..] + [e];
      LookupAppend(t[1..], e, c);
    }
  }

  // ---------------------------------------------------------------------------
  // Specification: per-character transliteration

  /** The image of one character: its replacement if it is a key, itself if
      Latin-1 can hold it, `?` otherwise. The image is Latin-1, and a line
      break maps to itself and is produced from nothing else. */
  function Transliterate(t: Table, c: char): (r: string)
    requires WellFormed(t)
    ensures forall x :: x in r ==> IsLatin1(x)
    ensures c == '\n' ==> r == "\n"
    ensures c != '\n' ==> '\n' !in r
    ensures !IsKey(t, c) ==> r == if IsLatin1(c) then [c] else "?"
  {
    match Lookup(t, c)
    case Some(v) =>
      assert IsAsciiText(v) && '\n' !in v by { LookupPlain(t, c); }
      v
    case None => if IsLatin1(c) then [c] else "?"
  }

  /** `sanitize_text` as a function: the concatenation of the images of the
      characters, in order. Every character of the result fits in Latin-1. */
  function Sanitized(t: Table, s: string): (r: string)
    requires WellFormed(t)
    ensures forall x :: x in r ==> IsLatin1(x)
  {
    if s == [] then [] else Transliterate(t, s[0]) + Sanitized(t, s[1..])
  }

  /** The image of a character holds no key. */
  lemma TransliterateNoKey(t: Table, c: char)
    requires WellFormed(t)
    ensures forall x :: x in Transliterate(t, c) ==> !IsKey(t, x)
  {
    match Lookup(t, c)
    case Some(v) =>
      LookupPlain(t, c);
      forall x | x in v ensures !IsKey(t, x) { AsciiIsNoKey(t, x); }
    case None =>
      AsciiIsNoKey(t, '?');
  }

  /** No key survives sanitizing. */
  lemma {:induction false} SanitizedNoKey(t: Table, s: string)
    requires WellFormed(t)
    ensures forall x :: x in Sanitized(t, s) ==> !IsKey(t, x)
  {
    if s != [] {
      TransliterateNoKey(t, s[0]);
      SanitizedNoKey(t, s[1..]);
    }
  }

  // ---------------------------------------------------------------------------
  // The text after the first j replace steps of the source loop

  function SubstituteChar(t: Table, c: char): (r: string)
  {
    match Lookup(t, c)
    case Some(v) => v
    case None => [c]
  }

  /** Every character replaced by its entry in `t`, if it has one. */
  function Substituted(t: Table, s: string): (r: string)
  {
    if s == [] then [] else SubstituteChar(t, s[0]) + Substituted(t, s[1..])
  }

  /** A well-formed table leaves ASCII text as it is. */
  lemma {:induction false} SubstitutedAscii(t: Table, s: string)
    requires WellFormed(t) && IsAsciiText(s)
    ensures Substituted(t, s) == s
  {
    if s != [] {
      assert s[0] in s;
      AsciiIsNoKey(t, s[0]);
      SubstitutedAscii(t, s[1..]);
      assert [s[0]] + s[1..] == s;
    }
  }

  lemma {:induction false} SubstitutedNothing(s: string)
    ensures Substituted([], s) == s
  {
    if s != [] {
      SubstitutedNothing(s[1..]);
    }
  }

  /** One more `text = text.replace(old, new)` step of the source loop
      extends the prefix of the table that has been applied. */
  lemma {:induction false} ReplaceStep(t: Table, j: nat, s: string)
    requires WellFormed(t) && j < |t|
    ensures ReplaceChar(Substituted(t[..j], s), t[j].0, t[j].1) == Substituted(t[..j + 1], s)
  {
    if s != [] {
      var (key, value) := t[j];
      var done, next := t[..j], t[..j + 1];
      assert next == done + [t[j]];
      ReplaceCharConcat(SubstituteChar(done, s[0]), Substituted(done, s[1..]), key, value);
      ReplaceStep(t, j, s[1..]);
      LookupAppend(done, t[j], s[0]);
      match Lookup(done, s[0])
      case Some(v) =>
        WellFormedPrefix(t, j);
        LookupPlain(done, s[0]);
        assert key !in v;
      case None =>
        if s[0] == key {
          assert ReplaceChar([s[0]], key, value) == value + [];
        } else {
          assert ReplaceChar([s[0]], key, value) == [s[0]] + [];
        }
    }
  }

  /** The final Latin-1 round trip turns the fully substituted text into the
      sanitized text. */
  lemma {:induction false} EncodeSubstituted(t: Table, s: string)
    requires WellFormed(t)
    ensures EncodeLatin1Replace(Substituted(t, s)) == Sanitized(t, s)
  {
    if s != [] {
      EncodeLatin1ReplaceConcat(SubstituteChar(t, s[0]), Substituted(t, s[1..]));
      EncodeSubstituted(t, s[1..]);
      match Lookup(t, s[0])
      case Some(v) =>
        LookupPlain(t, s[0]);
        EncodeLatin1ReplaceFixes(v);
      case None =>
    }
  }

  /** `sanitize_text` as the source runs it: one `str.replace` per table entry,
      in table order, then the Latin-1 round trip. */
  method SanitizeText(text: string) returns (r: string)
    ensures r == Sanitized(Replacements(), text)
  {
    var table := Replacements();
    var t := text;
    SubstitutedNothing(text);
    assert table[..0] == [];
    for j := 0 to |table|
      invariant t == Substituted(table[..j], text)
    {
      ReplaceStep(table, j, text);
      var (key, value) := table[j];
      t := ReplaceChar(t, key, value);
    }
    assert table[..|table|] == table;
    EncodeSubstituted(table, text);
    r := EncodeLatin1Replace(t);
  }

  // ---------------------------------------------------------------------------
  // Properties of the specification

  lemma {:induction false} SanitizedConcat(t: Table, a: string, b: string)
    requires WellFormed(t)
    ensures Sanitized(t, a + b) == Sanitized(t, a) + Sanitized(t, b)
  {
    if a == [] {
      assert a + b == b;
    } else {
      assert (a + b)[0] == a[0] && (a + b)[1..] == a[1..] + b;
      SanitizedConcat(t, a[1..], b);
    }
  }

  /** With distinct keys, each key becomes exactly its own replacement. */
  lemma KeyBecomesValue(t: Table, k: nat)
    requires WellFormed(t) && KeysDistinct(t) && k < |t|
    ensures Sanitized(t, [t[k].0]) == t[k].1
  {
    LookupFirst(t, k, t[k].0);
    assert Sanitized(t, [t[k].0]) == Transliterate(t, t[k].0) + [];
  }

  /** In the source's table the three symbols expand to exactly their ASCII
      spellings. */
  lemma SymbolExpansions()
    ensures Sanitized(Replacements(), "✓") == "[OK]"
    ensures Sanitized(Replacements(), "→") == "->"
    ensures Sanitized(Replacements(), "↔") == "<->"
  {
    TableKeysDistinct();
    TableValues();
    KeyBecomesValue(Replacements(), 39);
    KeyBecomesValue(Replacements(), 40);
    KeyBecomesValue(Replacements(), 41);
  }

  /** In the source's table accented letters lose their accent (a sample from
      the first, a middle and the last row of letters). */
  lemma AccentsStripped()
    ensures Sanitized(Replacements(), "ã") == "a"
    ensures Sanitized(Replacements(), "ẽ") == "e"
    ensures Sanitized(Replacements(), "Ç") == "C"
  {
    TableKeysDistinct();
    assert Replacements()[0] == ('ã', "a") && Replacements()[4] == ('ẽ', "e");
    assert Replacements()[38] == ('Ç', "C");
    KeyBecomesValue(Replacements(), 0);
    KeyBecomesValue(Replacements(), 4);
    KeyBecomesValue(Replacements(), 38);
  }

  /** Characters that are not keys stay in place when Latin-1 holds them and
      become a single `?` otherwise; the text around them is sanitized on its own. */
  lemma NonKeyInPlace(t: Table, a: string, c: char, b: string)
    requires WellFormed(t) && !IsKey(t, c)
    ensures Sanitized(t, a + [c] + b) == Sanitized(t, a) + (if IsLatin1(c) then [c] else "?") + Sanitized(t, b)
  {
    var image := if IsLatin1(c) then [c] else "?";
    assert Sanitized(t, [c]) == Transliterate(t, c) + Sanitized(t, []);
    assert Sanitized(t, [c]) == image;
    SanitizedConcat(t, a, [c]);
    SanitizedConcat(t, a + [c], b);
  }

  /** Sanitizing leaves a text unchanged exactly when all of it is Latin-1 and
      none of it is a key. */
  lemma {:induction false} SanitizedFixedPoint(t: Table, s: string)
    requires WellFormed(t)
    ensures Sanitized(t, s) == s <==> forall c :: c in s ==> IsLatin1(c) && !IsKey(t, c)
  {
    SanitizedNoKey(t, s);
    if forall c :: c in s ==> IsLatin1(c) && !IsKey(t, c) {
      if s != [] {
        assert s[0] in s;
        assert forall c :: c in s[1..] ==> c in s;
        SanitizedFixedPoint(t, s[1..]);
      }
    }
  }

  /** Sanitizing twice is sanitizing once. */
  lemma SanitizedIdempotent(t: Table, s: string)
    requires WellFormed(t)
    ensures Sanitized(t, Sanitized(t, s)) == Sanitized(t, s)
  {
    SanitizedNoKey(t, s);
    SanitizedFixedPoint(t, Sanitized(t, s));
  }

  /** ASCII text is left as it is. */
  lemma AsciiUnchanged(t: Table, s: string)
    requires WellFormed(t) && IsAsciiText(s)
    ensures Sanitized(t, s) == s
  {
    forall c | c in s ensures IsLatin1(c) && !IsKey(t, c) {
      AsciiIsNoKey(t, c);
    }
    SanitizedFixedPoint(t, s);
  }

  function SanitizeAll(t: Table, lines: seq<string>): (r: seq<string>)
    requires WellFormed(t)
    ensures |r| == |lines|
  {
    seq(|lines|, k requires 0 <= k < |lines| => Sanitized(t, lines[k]))
  }

  lemma SanitizeAllCons(t: Table, x: string, xs: seq<string>)
    requires WellFormed(t)
    ensures SanitizeAll(t, [x] + xs) == [Sanitized(t, x)] + SanitizeAll(t, xs)
  {
    var l, r := SanitizeAll(t, [x] + xs), [Sanitized(t, x)] + SanitizeAll(t, xs);
    forall k | 0 <= k < |l| ensures l[k] == r[k] {
      if k > 0 { assert ([x] + xs)[k] == xs[k - 1]; }
    }
  }

  /** Sanitizing keeps the line structure: the lines of the sanitized text are
      the sanitized lines, one for one. */
  lemma {:induction false} SanitizedLines(t: Table, s: string)
    requires WellFormed(t)
    ensures Split(Sanitized(t, s), '\n') == SanitizeAll(t, Split(s, '\n'))
  {
    if s == [] {
      assert SanitizeAll(t, [[]]) == [Sanitized(t, [])];
    } else {
      var rest := Split(s[1..], '\n');
      var tail := Sanitized(t, s[1..]);
      SanitizedLines(t, s[1..]);
      assert rest == [rest[0]] + rest[1..];
      SanitizeAllCons(t, rest[0], rest[1..]);
      var w := Transliterate(t, s[0]);
      assert Sanitized(t, s) == w + tail;
      if s[0] == '\n' {
        assert Sanitized(t, s) == ['\n'] + tail;
        assert Split(Sanitized(t, s), '\n') == [[]] + Split(tail, '\n');
        assert Split(s, '\n') == [[]] + rest;
        SanitizeAllCons(t, [], rest);
      } else {
        SplitPrefix(w, tail, '\n');
        assert Split(s, '\n') == [[s[0]] + rest[0]] + rest[1..];
        SanitizeAllCons(t, [s[0]] + rest[0], rest[1..]);
        SanitizedConcat(t, [s[0]], rest[0]);
        assert Sanitized(t, [s[0]]) == w + [];
      }
    }
  }

  // ---------------------------------------------------------------------------
  // The quote entries as literally written

  /** The entries before the four quote lines: accented letters and symbols. */
  const UnquotedEntries: nat := 42

  /** Read character for character, the two lines before this key both map
      `"` to itself (one dict entry), and the last two quote lines form a
      single entry: `'''` opens a triple-quoted string that the next line's
      `'''` closes. The key is the 15 characters from the first line's `:` to
      the second line's indentation, line break included; its replacement is
      `'`. */
  const LiteralQuoteKey: string := ": \"'\",\n        "

  /** `sanitize_text` with the table as literally written: the 42 letter and
      symbol entries (applied by the source loop as Substituted, by
      ReplaceStep), then `"` to itself, then the literal key to `'`, then the
      Latin-1 round trip. */
  function SanitizedAsWritten(text: string): (r: string)
    ensures forall c :: c in r ==> IsLatin1(c)
  {
    var letters := Substituted(Replacements()[..UnquotedEntries], text);
    EncodeLatin1Replace(ReplaceStr(ReplaceChar(letters, '"', "\""), LiteralQuoteKey, "'"))
  }

  /** One of the two literal quote lines of the table (the two read alike),
      as the program reads it when it lists its own file. */
  const QuoteLine: string := "        ''': \"'\","

  /** The two literal quote lines, one after the other. */
  const QuoteLines: string := QuoteLine + "\n" + QuoteLine

  /** What the literal table makes of QuoteLines: a single line. */
  const MergedLine: string := "        ''''''': \"'\","

  /** The texts above are ASCII and hold no line break. */
  lemma QuoteLineText()
    ensures IsAsciiText(QuoteLine) && '\n' !in QuoteLine
    ensures IsAsciiText(MergedLine) && '\n' !in MergedLine
  {
  }

  /** The literal key spans the line break of QuoteLines and is replaced by
      one quote. */
  lemma LiteralKeyReplaced()
    ensures ReplaceStr(QuoteLines, LiteralQuoteKey, "'") == MergedLine
  {
    var front, back := "        '''", "''': \"'\",";
    assert QuoteLines == front + (LiteralQuoteKey + back);
    assert MergedLine == front + ("'" + back);
    ReplaceStrSkip(front, LiteralQuoteKey + back, LiteralQuoteKey, "'");
    ReplaceStrFront(LiteralQuoteKey, back, "'");
  }

  /** The letter and symbol entries and the `"` entry leave an ASCII text
      alone. */
  lemma LetterEntriesKeepAscii(s: string)
    requires IsAsciiText(s)
    ensures ReplaceChar(Substituted(Replacements()[..UnquotedEntries], s), '"', "\"") == s
  {
    WellFormedPrefix(Replacements(), UnquotedEntries);
    SubstitutedAscii(Replacements()[..UnquotedEntries], s);
    ReplaceCharSelf(s, '"');
  }

  /** QuoteLines is two lines; MergedLine is one. */
  lemma QuoteLinesSplit()
    ensures Split(QuoteLines, '\n') == [QuoteLine, QuoteLine]
    ensures Split(MergedLine, '\n') == [MergedLine]
  {
    QuoteLineText();
    SplitTwo(QuoteLine, QuoteLine, '\n');
    SplitOne(MergedLine, '\n');
  }

  /** With the literal table the text of lines 194-195 taken alone comes out
      as one line. */
  lemma LiteralTableMergesLines()
    ensures |Split(QuoteLines, '\n')| == 2
    ensures SanitizedAsWritten(QuoteLines) == MergedLine
    ensures |Split(SanitizedAsWritten(QuoteLines), '\n')| == 1
  {
    QuoteLineText();
    AsciiConcat(QuoteLine, "\n" + QuoteLine);
    LetterEntriesKeepAscii(QuoteLines);
    LiteralKeyReplaced();
    EncodeLatin1ReplaceFixes(MergedLine);
    QuoteLinesSplit();
  }

  /** With the quote entries as intended (or any table of that shape, such as
      Replacements), the same two lines keep their line break and come out
      unchanged. */
  lemma IntendedTableKeepsLines(t: Table)
    requires WellFormed(t)
    ensures Sanitized(t, QuoteLines) == QuoteLines
    ensures |Split(Sanitized(t, QuoteLines), '\n')| == 2
  {
    QuoteLineText();
    AsciiConcat(QuoteLine, "\n" + QuoteLine);
    AsciiUnchanged(t, QuoteLines);
    SplitTwo(QuoteLine, QuoteLine, '\n');
  }

  /** An ASCII text that holds the literal key inside a copy of itself. */
  const NestedKey: string := ": \"" + LiteralQuoteKey + "\",\n        "

  lemma NestedKeyText()
    ensures IsAsciiText(LiteralQuoteKey) && IsAsciiText(NestedKey)
  {
  }

  /** Removing the inner key from NestedKey leaves the key itself. */
  lemma NestedKeyReplaced()
    ensures ReplaceStr(NestedKey, LiteralQuoteKey, "'") == LiteralQuoteKey
  {
    var key := LiteralQuoteKey;
    var front, back := " \"", "\",\n        ";
    assert NestedKey == [':'] + (front + (key + back));
    assert key == [':'] + (front + ("'" + back));
    assert NestedKey[3] == ':' && key[3] == '\'';
    ReplaceStrPass(':', front + (key + back), key, "'");
    ReplaceStrSkip(front, key + back, key, "'");
    ReplaceStrFront(key, back, "'");
  }

  /** The literal key on its own becomes one quote. */
  lemma LiteralKeyAlone()
    ensures ReplaceStr(LiteralQuoteKey, LiteralQuoteKey, "'") == "'"
  {
    assert LiteralQuoteKey + [] == LiteralQuoteKey;
    ReplaceStrFront(LiteralQuoteKey, [], "'");
  }

  /** With the literal table, sanitizing is not idempotent and changes ASCII
      text: NestedKey sanitizes to the key, and the key to one quote. */
  lemma LiteralTableNotIdempotent()
    ensures IsAsciiText(NestedKey) && SanitizedAsWritten(NestedKey) != NestedKey
    ensures SanitizedAsWritten(NestedKey) == LiteralQuoteKey
    ensures SanitizedAsWritten(LiteralQuoteKey) == "'"
    ensures SanitizedAsWritten(SanitizedAsWritten(NestedKey)) != SanitizedAsWritten(NestedKey)
  {
    NestedKeyText();
    LetterEntriesKeepAscii(NestedKey);
    LetterEntriesKeepAscii(LiteralQuoteKey);
    NestedKeyReplaced();
    LiteralKeyAlone();
    EncodeLatin1ReplaceFixes(LiteralQuoteKey);
    EncodeLatin1ReplaceFixes("'");
    assert |NestedKey| != |LiteralQuoteKey|;
  }

  lemma AsciiConcat(a: string, b: string)
    requires IsAsciiText(a) && IsAsciiText(b)
    ensures IsAsciiText(a + b)
  {
  }
}
