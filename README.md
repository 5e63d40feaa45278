# Source listing preparation of the report generator

The report generator `gerar_pdf.py` writes a PDF whose section 6 lists the
full source code of the project; sections 7 (execution instructions) and 8
(conclusion) follow it. Before a file's text goes into the PDF's Latin-1
font, it passes through two steps, and this project models and proves both:

- **`sanitize_text`**: a fixed table of substitutions is applied one
  `str.replace` at a time, in table order. Under the reading of the quote
  entries explained below, the table has 46 entries: accented Portuguese
  letters lose their accent, the check mark becomes `[OK]`, the arrows become
  `->` and `<->`, and the typographic quotes become ASCII quotes. The text then makes a
  Latin-1 round trip with the `replace` error handler, so any code point still
  above U+00FF becomes a single `?`.
- **Line numbering**: the sanitized text is split on `'\n'`. A piece longer
  than 85 characters keeps its first 85 characters and gets `...` appended.
  Each piece is emitted as `f"{i:4d} | {linha}\n"`, with `i` counting from 1.

There are three modules:

- `PyStr` (`pystr.dfy`) models the Python `str` built-ins the code relies on:
  `replace` with a key of one character and with a key of any length,
  `split` (with `Join` only as the inverse its properties are proved
  against), the Latin-1 round trip, and the `:4d` format.
- `Sanitize` (`sanitize.dfy`) holds the table and the specification
  `Sanitized`. That specification sends every character to its own image:
  its replacement if it is a key, itself if Latin-1 holds it, `?` otherwise.
  It is stated for every table of the source table's shape: keys outside
  ASCII, replacements in ASCII without line breaks. The method `SanitizeText`
  follows the source loop step by step and is proved to compute `Sanitized`
  on the source's own table.
- `SourceListing` (`listing.dfy`) holds the specification `Listing`, the
  method `NumberLines` (the source's accumulating loop, proved to produce
  `Listing`), and `RenderSource`, which sanitizes and then numbers a file's
  text.

Lines 192-195 of `gerar_pdf.py` show the last four table keys as plain ASCII
quotes. Read literally, the first two map `"` to itself, and the last two run
together into one triple-quoted key that spans both lines and holds a line
break. The main model takes these four entries to be the typographic quotes
U+201C, U+201D, U+2018 and U+2019, mapped to `"`, `"`, `'` and `'`. That is an
assumption: it is what the entries are evidently meant to do, not what the text
says. The literal table is modelled as well (`Sanitize.SanitizedAsWritten`).
"## Findings" shows what it does to the program's listing of its own file.

## Model

| member | source | states |
|---|---|---|
| PyStr.ReplaceChar | gerar_pdf.py:198 | `replace` of one character: text without the key is unchanged; when the replacement lacks the key, no key is left; every character of the result is a non-key character of the input or comes from the replacement |
| PyStr.ReplaceCharLength | gerar_pdf.py:198 | each occurrence of the one-character key makes the text `len(value) - 1` characters longer |
| PyStr.ReplaceCharSelf | gerar_pdf.py:192-193 | replacing a character by itself (the `"` entry read literally) changes nothing |
| PyStr.ReplaceStr | gerar_pdf.py:198 | `replace` with a key of any length, the form line 198 takes for the literal two-line key: a text without the key's first character is unchanged; ReplaceStrSingle, ReplaceStrAbsent, ReplaceStrSkip and ReplaceStrFront characterise it further |
| PyStr.ReplaceStrAbsent | gerar_pdf.py:198 | `replace` with a key of any length leaves a text in which the key occurs nowhere unchanged |
| PyStr.ReplaceStrSingle | gerar_pdf.py:198 | for a one-character key the general `replace` is the one-character one |
| PyStr.ReplaceStrSkip | gerar_pdf.py:198 | a prefix that holds no first character of the key is passed over unchanged |
| PyStr.ReplaceStrFront | gerar_pdf.py:198 | an occurrence at the front is replaced, and the scan resumes after it, so occurrences do not overlap |
| PyStr.ReplaceCharConcat | gerar_pdf.py:198 | replacing one character distributes over concatenation, since no occurrence straddles the seam |
| PyStr.EncodeLatin1Replace | gerar_pdf.py:200 | the Latin-1 round trip keeps the length, keeps every Latin-1 character in place, turns every other character into exactly one `?`, and leaves only Latin-1 |
| PyStr.EncodeLatin1ReplaceConcat | gerar_pdf.py:200 | the round trip distributes over concatenation |
| PyStr.EncodeLatin1ReplaceFixes | gerar_pdf.py:200 | text that is already Latin-1 comes through unchanged |
| PyStr.Split | gerar_pdf.py:214 | `split('\n')` always yields at least one piece, and no piece holds a separator |
| PyStr.SplitPrefix | gerar_pdf.py:214 | a separator-free prefix glues onto the first piece of the split |
| PyStr.JoinSplit | gerar_pdf.py:214 | joining the pieces of a split with the separator gives back the text |
| PyStr.SplitJoin | gerar_pdf.py:214 | splitting a join of separator-free pieces gives back the pieces |
| PyStr.SplitCount | gerar_pdf.py:214 | the number of pieces is the number of separators plus one |
| PyStr.SplitOne | gerar_pdf.py:214 | a text without a separator is one piece |
| PyStr.SplitTwo | gerar_pdf.py:214 | two separator-free words around one separator are two pieces |
| PyStr.Decimal | gerar_pdf.py:220 | the numeral of `i` is non-empty, made only of digits, and starts with `0` only for zero |
| PyStr.DecimalRoundTrip | gerar_pdf.py:220 | reading the numeral back gives the number |
| PyStr.DecimalLength | gerar_pdf.py:220 | a numeral has at most k digits exactly when the number is below 10^k |
| PyStr.FormatWidth4 | gerar_pdf.py:220 | `:4d` is four wide, or as wide as the numeral when that is longer (never cut), and holds only spaces and digits |
| PyStr.FormatWidth4Numeral | gerar_pdf.py:220 | the field is right-aligned: with its leading spaces removed it is exactly the plain numeral `str(i)`, for every number |
| PyStr.FormatWidth4RoundTrip | gerar_pdf.py:220 | for line numbers up to 9999 the field is exactly four wide, is the plain numeral after leading spaces, and reads back as the number |
| Sanitize.TableEntry | gerar_pdf.py:176-195 | the table's entries in dict order, each key outside ASCII and each replacement ASCII without a line break; entries 42-45 are the quote entries under the typographic reading |
| Sanitize.Replacements | gerar_pdf.py:176-196 | the table has 46 entries; every key lies outside ASCII; every replacement is ASCII without a line break |
| Sanitize.TableKeysDistinct | gerar_pdf.py:176-196 | no key appears twice in the table |
| Sanitize.TableValues | gerar_pdf.py:177-191 | each of the 39 accented letters maps to a single ASCII letter; ✓, → and ↔ map to `[OK]`, `->` and `<->` |
| Sanitize.Lookup | gerar_pdf.py:176-196 | a lookup finds a replacement exactly when the character is a key of the table, and what it finds is that key's entry |
| Sanitize.LookupFirst | gerar_pdf.py:176-196 | the first entry holding a key is the one a lookup returns |
| Sanitize.Transliterate | gerar_pdf.py:176-200 | a character's image is Latin-1; a line break maps to itself and no other character produces one; a non-key stays itself if Latin-1 holds it and becomes `?` otherwise |
| Sanitize.Sanitized | gerar_pdf.py:174-201 | everything `sanitize_text` returns fits in Latin-1 |
| Sanitize.SanitizedNoKey | gerar_pdf.py:174-201 | no table key survives sanitizing |
| Sanitize.ReplaceStep | gerar_pdf.py:197-198 | one more `text.replace(old, new)` step applies one more table entry to every character |
| Sanitize.EncodeSubstituted | gerar_pdf.py:197-200 | the Latin-1 round trip of the fully substituted text is the sanitized text |
| Sanitize.SanitizeText | gerar_pdf.py:174-201 | the source loop over the table, followed by the round trip, computes `Sanitized` on the source's table |
| Sanitize.SanitizedConcat | gerar_pdf.py:174-201 | sanitizing works character by character, so it distributes over concatenation |
| Sanitize.KeyBecomesValue | gerar_pdf.py:176-198 | with distinct keys, each key becomes exactly its own replacement |
| Sanitize.SymbolExpansions | gerar_pdf.py:189-191 | ✓, → and ↔ become `[OK]`, `->` and `<->` |
| Sanitize.AccentsStripped | gerar_pdf.py:177-188 | ã, ẽ and Ç become a, e and C |
| Sanitize.NonKeyInPlace | gerar_pdf.py:197-200 | a non-key character stays in place if Latin-1 holds it, or becomes one `?` otherwise, and the text around it is sanitized on its own |
| Sanitize.SanitizedFixedPoint | gerar_pdf.py:174-201 | sanitizing leaves a text unchanged exactly when all of it is Latin-1 and none of it is a key |
| Sanitize.SanitizedIdempotent | gerar_pdf.py:174-201 | sanitizing twice gives what sanitizing once gives |
| Sanitize.AsciiUnchanged | gerar_pdf.py:197-200 | ASCII text is left unchanged |
| Sanitize.SanitizeAllCons | gerar_pdf.py:211-214 | sanitizing a list of lines is sanitizing its head, then its tail |
| Sanitize.SanitizedLines | gerar_pdf.py:211-214 | the lines of the sanitized text are the sanitized lines, one for one, in order |
| Sanitize.SubstitutedAscii | gerar_pdf.py:197-198 | a table of that shape leaves ASCII text as it is |
| Sanitize.SanitizedAsWritten | gerar_pdf.py:176-200 | `sanitize_text` with lines 192-195 read literally (`"` to itself, then the 15-character key spanning two lines to `'`) still returns only Latin-1 |
| Sanitize.LiteralKeyReplaced | gerar_pdf.py:194-195 | in the text of lines 194-195 the literal key, which holds their line break, is replaced by one `'` |
| Sanitize.LetterEntriesKeepAscii | gerar_pdf.py:176-198 | the letter, symbol and `"` entries leave every ASCII text unchanged |
| Sanitize.QuoteLineText | gerar_pdf.py:194-195 | each of lines 194 and 195 is ASCII without a line break, and so is the merged line |
| Sanitize.QuoteLinesSplit | gerar_pdf.py:214 | the text of lines 194-195 splits into two pieces and the merged line into one |
| Sanitize.NestedKeyReplaced | gerar_pdf.py:194-195 | in the ASCII text NestedKey, replacing the literal key leaves exactly the literal key |
| Sanitize.LiteralKeyAlone | gerar_pdf.py:194-195 | the literal key on its own becomes one `'` |
| Sanitize.NestedKeyText | gerar_pdf.py:194-195 | the literal key and NestedKey are ASCII |
| Sanitize.LiteralTableNotIdempotent | gerar_pdf.py:174-201 | with the literal table, `sanitize_text` changes the ASCII text NestedKey into the literal key, and the key into `'`: it is neither the identity on ASCII nor idempotent |
| Sanitize.LiteralTableMergesLines | gerar_pdf.py:192-195 | with the literal table, the text of lines 194-195 taken alone comes out as one line |
| Sanitize.IntendedTableKeepsLines | gerar_pdf.py:174-201 | with the intended table, or any table of its shape, the same two lines come out unchanged, still two lines |
| SourceListing.Clip | gerar_pdf.py:218-219 | a line of at most 85 characters is kept whole; a longer one becomes its first 85 characters followed by `...`; a body never exceeds 88 characters |
| SourceListing.Row | gerar_pdf.py:220 | the f-string of line 220 without its line break: as long as the number's field, the separator and the line's body together |
| SourceListing.Rows | gerar_pdf.py:216-220 | one row per line, numbered consecutively from the first number |
| SourceListing.Listing | gerar_pdf.py:214-220 | the accumulated `codigo_numerado`: empty only when there are no lines, and otherwise ending in a line break |
| SourceListing.Terminated | gerar_pdf.py:220 | the output is empty exactly when there are no rows, and otherwise ends in a line break |
| SourceListing.NumberLines | gerar_pdf.py:214-220 | the numbering loop produces the listing of the pieces of `split('\n')`, numbered from 1; read back line by line, it is exactly the rows, in order, with nothing after the last line break |
| SourceListing.AppendRow | gerar_pdf.py:220 | appending one row and its line break moves that row from the part still to print to the part printed |
| SourceListing.RenderSource | gerar_pdf.py:211-220 | sanitizing and then numbering gives the listing of the sanitized lines; it is all Latin-1 and has one row per line of the original text |
| SourceListing.RowNoBreak | gerar_pdf.py:218-220 | a row holds no line break when its line holds none |
| SourceListing.RowsNoBreak | gerar_pdf.py:216-220 | the rows of lines without line breaks hold no line break |
| SourceListing.TerminatedIsJoin | gerar_pdf.py:220 | the rows, each followed by a line break, equal the rows joined by line breaks plus a final empty piece |
| SourceListing.ListingLines | gerar_pdf.py:214-220 | splitting the listing of separator-free lines on line breaks gives back its rows plus one final empty piece |
| SourceListing.RowFields | gerar_pdf.py:220 | for numbers up to 9999 a row is the plain numeral right-aligned in four columns with spaces in front, then the separator (space, bar, space), then the line's body |
| SourceListing.EmptyListing | gerar_pdf.py:214-220 | empty text gives the single row: the number 1 in four columns, the separator, nothing, and a line break |
| SourceListing.TerminatedLatin1 | gerar_pdf.py:220 | Latin-1 rows stay Latin-1 when line breaks are added |
| SourceListing.ListingLatin1 | gerar_pdf.py:211-220 | the listing of Latin-1 lines is Latin-1 |

## Left out

- The PDF itself (the `FPDF` subclass, pages, fonts, titles, `chapter_body` and
  the output file) is not part of this model. Neither is the rest of the
  report text: layout, not a computation on the source text.
- Reading the files, the `os.path.exists` test, and the list of files to
  print are I/O. `RenderSource` takes the file's text as a parameter.
- The console messages (`print`) are output only.
- `comparacao_vetores.py` is not part of this model. The listing only prints
  its text.
- Lines 192-195: `SanitizeText`, `RenderSource` and every property of
  `Sanitized` use the typographic-quote reading explained above. The literal
  table is modelled only as `SanitizedAsWritten`, and only concrete inputs
  are proved about it. Two properties proved for `Sanitized` are false for
  it: it is not idempotent and not the identity on ASCII text (second row of
  "## Findings").
- Strings are sequences of Unicode scalar values. A Python `str` can also hold
  lone surrogates, but text decoded from UTF-8 never does.
- `Split`, `ReplaceChar`, `ReplaceStr` and `EncodeLatin1Replace` model the
  built-ins only for the cases the source uses: one-character separators,
  non-empty keys, and the `latin-1` codec with `errors='replace'`.

## Findings

| source | as written | input that shows it | evidently intended | confidence | as-written member | corrected member |
|---|---|---|---|---|---|---|
| gerar_pdf.py:192-195 | read literally, the last two quote lines form one key: the 15 characters from line 194's `:` to line 195's indentation, line break included, replaced by `'` | the text of lines 194-195 taken alone (proved). The program lists `gerar_pdf.py` itself, and that key occurs there at lines 194-195, so those two lines would be printed as one and every later row number would be one lower (argued, not proved) | the four typographic quotes map to ASCII quotes, and the listing keeps one row per line of the file | medium, not executed | Sanitize.LiteralTableMergesLines | Sanitize.IntendedTableKeepsLines |
| gerar_pdf.py:192-195 | the same 15-character key, replaced by `'` | the ASCII text `: "` + key + `",` + line break + 8 spaces becomes the key itself, and the key becomes `'` (proved) | sanitizing leaves ASCII text alone and a second pass changes nothing | medium, not executed | Sanitize.LiteralTableNotIdempotent | Sanitize.SanitizedIdempotent |
