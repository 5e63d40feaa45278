/**
 * The Python `str` built-ins that the report generator's text preparation
 * relies on, modelled on `string` (a sequence of Unicode scalar values, as a
 * Python `str` read from a UTF-8 file is):
 *   - `s.replace(key, value)` for a one-character `key` and for a `key` of
 *     any length,
 *   - `s.encode('latin-1', errors='replace').decode('latin-1')`,
 *   - `s.split(sep)` for a one-character `sep` (with `sep.join` as its inverse),
 *   - the format spec `f"{n:4d}"` for a non-negative `n`.
 */
module PyStr {

  /** The code point fits in one Latin-1 (ISO 8859-1) byte. */
  predicate IsLatin1(c: char) { c as int <= 0xFF }

  /** The code point is 7-bit ASCII. */
  predicate IsAscii(c: char) { c as int < 0x80 }

  predicate IsDigit(c: char) { '0' <= c <= '9' }

  // ---------------------------------------------------------------------------
  // str.replace with a one-character pattern

  /** `s.replace(key, value)`: every occurrence of `key`, scanned left to right,
      is replaced by `value`; nothing else changes. ReplaceCharLength gives
      the length of the result, and ReplaceStrSingle shows this is the general
      ReplaceStr for a one-character key. */
  function ReplaceChar(s: string, key: char, value: string): (r: string)
    ensures key !in s ==> r == s
    ensures key !in value ==> key !in r
    ensures forall c :: c in r ==> (c in s && c != key) || c in value
  {
    if s == [] then []
    else (if s[0] == key then value else [s[0]]) + ReplaceChar(s[1..], key, value)
  }

  /** Each occurrence of the key makes the text `|value| - 1` characters longer. */
  lemma {:induction false} ReplaceCharLength(s: string, key: char, value: string)
    ensures |ReplaceChar(s, key, value)| == |s| + multiset(s)[key] * (|value| - 1)
  {
    if s != [] {
      ReplaceCharLength(s[1..], key, value);
      assert s == [s[0]] + s[1..];
      var m, d := multiset(s[1..])[key], |value| - 1;
      if s[0] == key {
        assert multiset(s)[key] == m + 1;
        MulSucc(m, d);
      } else {
        assert multiset(s)[key] == m;
      }
    }
  }

  lemma MulSucc(m: int, d: int)
    ensures (m + 1) * d == m * d + d
  {
  }

  /** Replacing a character by itself changes nothing. */
  lemma {:induction false} ReplaceCharSelf(s: string, key: char)
    ensures ReplaceChar(s, key, [key]) == s
  {
    if s != [] {
      ReplaceCharSelf(s[1..], key);
      if s[0] == key {
        assert [key] + s[1..] == s;
      }
    }
  }

  /** Replacing a single character commutes with concatenation, because no
      occurrence of a one-character pattern can straddle the seam. */
  lemma {:induction false} ReplaceCharConcat(a: string, b: string, key: char, value: string)
    ensures ReplaceChar(a + b, key, value) == ReplaceChar(a, key, value) + ReplaceChar(b, key, value)
  {
    if a == [] {
      assert a + b == b;
    } else {
      assert (a + b)[0] == a[0] && (a + b)[1..] == a[1..] + b;
      ReplaceCharConcat(a[1..], b, key, value);
    }
  }

  // ---------------------------------------------------------------------------
  // str.replace with a pattern of any length

  /** `key` is spelled by the characters of `s` from position `i` on. */
  predicate OccursAt(s: string, key: string, i: nat)
  {
    i + |key| <= |s| && s[i..i + |key|] == key
  }

  /** `s.replace(key, value)` for a non-empty `key` of any length: the text is
      scanned from the left, each occurrence found is replaced, and the scan
      resumes after it, so occurrences never overlap. */
  function ReplaceStr(s: string, key: string, value: string): (r: string)
    requires key != []
    ensures key[0] !in s ==> r == s
    decreases |s|
  {
    if |s| < |key| then s
    else if s[..|key|] == key then value + ReplaceStr(s[|key|..], key, value)
    else [s[0]] + ReplaceStr(s[1..], key, value)
  }

  /** A text in which `key` occurs nowhere is unchanged. */
  lemma {:induction false} ReplaceStrAbsent(s: string, key: string, value: string)
    requires key != []
    requires forall i :: 0 <= i <= |s| ==> !OccursAt(s, key, i)
    ensures ReplaceStr(s, key, value) == s
    decreases |s|
  {
    if |s| >= |key| {
      assert !OccursAt(s, key, 0);
      assert s[0..0 + |key|] == s[..|key|];
      OccursInTail(s, key);
      ReplaceStrAbsent(s[1..], key, value);
      assert [s[0]] + s[1..] == s;
    }
  }

  /** An occurrence in `s[1..]` is an occurrence in `s`, one place further on. */
  lemma OccursInTail(s: string, key: string)
    requires s != []
    ensures forall i: nat :: OccursAt(s[1..], key, i) ==> OccursAt(s, key, i + 1)
  {
    forall i: nat | OccursAt(s[1..], key, i) ensures OccursAt(s, key, i + 1) {
      assert s[1..][i..i + |key|] == s[i + 1..i + 1 + |key|];
    }
  }

  /** For a one-character key the general replacement is ReplaceChar. */
  lemma {:induction false} ReplaceStrSingle(s: string, key: char, value: string)
    ensures ReplaceStr(s, [key], value) == ReplaceChar(s, key, value)
  {
    if s != [] {
      ReplaceStrSingle(s[1..], key, value);
      assert s[..1] == [s[0]];
    }
  }

  /** A character at which no occurrence of `key` starts is passed over as is. */
  lemma ReplaceStrPass(c: char, b: string, key: string, value: string)
    requires key != [] && !OccursAt([c] + b, key, 0)
    ensures ReplaceStr([c] + b, key, value) == [c] + ReplaceStr(b, key, value)
  {
    var s := [c] + b;
    assert s[1..] == b;
  }

  /** A prefix that holds no first character of `key` is passed over as is. */
  lemma {:induction false} ReplaceStrSkip(a: string, b: string, key: string, value: string)
    requires key != [] && key[0] !in a
    ensures ReplaceStr(a + b, key, value) == a + ReplaceStr(b, key, value)
  {
    if a == [] {
      assert a + b == b;
    } else {
      ReplaceStrSkip(a[1..], b, key, value);
      var s := [a[0]] + (a[1..] + b);
      assert s[0] == a[0];
      ReplaceStrPass(a[0], a[1..] + b, key, value);
      ConsConcat(a, b);
      ConsConcat(a, ReplaceStr(b, key, value));
    }
  }

  lemma ConsConcat(a: string, x: string)
    requires a != []
    ensures [a[0]] + (a[1..] + x) == a + x
  {
    assert a == [a[0]] + a[1..];
  }

  /** An occurrence at the front is replaced, and the scan goes on after it. */
  lemma ReplaceStrFront(key: string, b: string, value: string)
    requires key != []
    ensures ReplaceStr(key + b, key, value) == value + ReplaceStr(b, key, value)
  {
    assert (key + b)[..|key|] == key && (key + b)[|key|..] == b;
  }

  // ---------------------------------------------------------------------------
  // encode('latin-1', errors='replace') followed by decode('latin-1')

  /** Round trip through Latin-1 with the `replace` error handler: each code
      point that Latin-1 cannot encode becomes exactly one `?`; every other
      code point is kept, in place. */
  function EncodeLatin1Replace(s: string): (r: string)
    ensures |r| == |s|
    ensures forall i :: 0 <= i < |s| ==> r[i] == (if IsLatin1(s[i]) then s[i] else '?')
    ensures forall c :: c in r ==> IsLatin1(c)
  {
    if s == [] then []
    else [if IsLatin1(s[0]) then s[0] else '?'] + EncodeLatin1Replace(s[1..])
  }

  lemma EncodeLatin1ReplaceConcat(a: string, b: string)
    ensures EncodeLatin1Replace(a + b) == EncodeLatin1Replace(a) + EncodeLatin1Replace(b)
  {
    var l, r := EncodeLatin1Replace(a + b), EncodeLatin1Replace(a) + EncodeLatin1Replace(b);
    assert |l| == |r|;
    forall i | 0 <= i < |l| ensures l[i] == r[i] {
      if i < |a| { assert (a + b)[i] == a[i]; } else { assert (a + b)[i] == b[i - |a|]; }
    }
  }

  /** Text that is already Latin-1 survives the round trip unchanged. */
  lemma EncodeLatin1ReplaceFixes(s: string)
    requires forall c :: c in s ==> IsLatin1(c)
    ensures EncodeLatin1Replace(s) == s
  {
    var r := EncodeLatin1Replace(s);
    forall i | 0 <= i < |s| ensures r[i] == s[i] {
      assert s[i] in s;
    }
  }

  // ---------------------------------------------------------------------------
  // str.split with a one-character separator, and str.join

  /** `s.split(sep)`: the pieces between separators, empty pieces included,
      so the result is never empty (`"".split(sep) == [""]`). */
  function Split(s: string, sep: char): (pieces: seq<string>)
    ensures |pieces| >= 1
    ensures forall k :: 0 <= k < |pieces| ==> sep !in pieces[k]
  {
    if s == [] then [[]]
    else
      var rest := Split(s[1..], sep);
      if s[0] == sep then [[]] + rest
      else [[s[0]] + rest[0]] + rest[1..]
  }

  /** `sep.join(pieces)` */
  function Join(pieces: seq<string>, sep: char): (s: string)
    requires |pieces| >= 1
  {
    if |pieces| == 1 then pieces[0] else pieces[0] + [sep] + Join(pieces[1..], sep)
  }

  /** A separator-free word at the front of the text glues onto the first piece. */
  lemma {:induction false} SplitPrefix(w: string, s: string, sep: char)
    requires sep !in w
    ensures Split(w + s, sep) == [w + Split(s, sep)[0]] + Split(s, sep)[1..]
  {
    if w != [] {
      assert (w + s)[0] == w[0] && (w + s)[1..] == w[1..] + s;
      SplitPrefix(w[1..], s, sep);
      assert [w[0]] + (w[1..] + Split(s, sep)[0]) == w + Split(s, sep)[0];
    } else {
      assert w + s == s;
      assert w + Split(s, sep)[0] == Split(s, sep)[0];
      assert [Split(s, sep)[0]] + Split(s, sep)[1..] == Split(s, sep);
    }
  }

  /** Text without a separator is one piece. */
  lemma SplitOne(w: string, sep: char)
    requires sep !in w
    ensures Split(w, sep) == [w]
  {
    SplitPrefix(w, [], sep);
    assert w + [] == w;
  }

  /** Two separator-free words around one separator are two pieces. */
  lemma SplitTwo(a: string, b: string, sep: char)
    requires sep !in a && sep !in b
    ensures Split(a + [sep] + b, sep) == [a, b]
  {
    var tail := [sep] + b;
    assert a + [sep] + b == a + tail;
    SplitOne(b, sep);
    assert tail[0] == sep && tail[1..] == b;
    assert Split(tail, sep) == [[]] + [b];
    SplitPrefix(a, tail, sep);
    assert a + [] == a;
    assert [a] + [b] == [a, b];
  }

  /** Joining the pieces of a split gives back the text. */
  lemma {:induction false} JoinSplit(s: string, sep: char)
    ensures Join(Split(s, sep), sep) == s
  {
    if s != [] {
      var rest := Split(s[1..], sep);
      JoinSplit(s[1..], sep);
      if s[0] == sep {
        assert ([[]] + rest)[1..] == rest;
      } else {
        var p := Split(s, sep);
        assert p[1..] == rest[1..];
        if |rest| > 1 {
          assert rest[1..][0] == rest[1] && rest[1..][1..] == rest[2..];
        }
      }
    }
  }

  /** Splitting a join of separator-free pieces gives back the pieces, so
      Split and Join are mutually inverse on the pieces Split can produce. */
  lemma {:induction false} SplitJoin(pieces: seq<string>, sep: char)
    requires |pieces| >= 1
    requires forall k :: 0 <= k < |pieces| ==> sep !in pieces[k]
    ensures Split(Join(pieces, sep), sep) == pieces
  {
    if |pieces| == 1 {
      SplitPrefix(pieces[0], [], sep);
      assert pieces[0] + [] == pieces[0];
    } else {
      var tail := Join(pieces[1..], sep);
      SplitJoin(pieces[1..], sep);
      assert pieces[0] + [sep] + tail == pieces[0] + ([sep] + tail);
      SplitPrefix(pieces[0], [sep] + tail, sep);
      assert ([sep] + tail)[0] == sep && ([sep] + tail)[1..] == tail;
      assert Split([sep] + tail, sep) == [[]] + pieces[1..];
      assert pieces[0] + [] == pieces[0];
      assert pieces == [pieces[0]] + pieces[1..];
    }
  }

  /** One piece more than there are separators in the text. */
  lemma {:induction false} SplitCount(s: string, sep: char)
    ensures |Split(s, sep)| == multiset(s)[sep] + 1
  {
    if s != [] {
      SplitCount(s[1..], sep);
      assert s == [s[0]] + s[1..];
      assert multiset(s) == multiset{s[0]} + multiset(s[1..]);
    }
  }

  // ---------------------------------------------------------------------------
  // f"{n:4d}"

  function DigitChar(d: nat): (c: char)
    requires d < 10
    ensures IsDigit(c) && (c as int) - ('0' as int) == d
  {
    (('0' as int) + d) as char
  }

  /** `str(n)`: the shortest decimal numeral of `n`. */
  function Decimal(n: nat): (d: string)
    ensures |d| >= 1
    ensures forall c :: c in d ==> IsDigit(c)
    ensures d[0] == '0' <==> n == 0
  {
    if n < 10 then [DigitChar(n)] else Decimal(n / 10) + [DigitChar(n % 10)]
  }

  function DigitValue(c: char): (v: nat)
    requires IsDigit(c)
  {
    (c as int) - ('0' as int)
  }

  /** The value of a numeral (the partner of Decimal). */
  function ParseDecimal(d: string): (n: nat)
    requires forall c :: c in d ==> IsDigit(c)
  {
    if d == [] then 0
    else
      assert d[|d| - 1] in d;
      ParseDecimal(d[..|d| - 1]) * 10 + DigitValue(d[|d| - 1])
  }

  lemma {:induction false} DecimalRoundTrip(n: nat)
    ensures ParseDecimal(Decimal(n)) == n
  {
    if n >= 10 {
      DecimalRoundTrip(n / 10);
      var d := Decimal(n);
      assert d[..|d| - 1] == Decimal(n / 10);
    }
  }

  function Pow10(k: nat): (p: nat) { if k == 0 then 1 else 10 * Pow10(k - 1) }

  /** A numeral has at most `k` digits exactly when the number is below 10^k. */
  lemma {:induction false} DecimalLength(n: nat, k: nat)
    requires k >= 1
    ensures |Decimal(n)| <= k <==> n < Pow10(k)
  {
    if n >= 10 {
      if k > 1 {
        DecimalLength(n / 10, k - 1);
      } else {
        assert Pow10(1) == 10;
      }
    } else {
      assert Pow10(k) >= 10 by { Pow10AtLeast10(k); }
    }
  }

  lemma {:induction false} Pow10AtLeast10(k: nat)
    requires k >= 1
    ensures Pow10(k) >= 10
  {
    if k > 1 { Pow10AtLeast10(k - 1); }
  }

  /** `f"{n:4d}"`: the numeral right-aligned in a field of four, padded with
      spaces on the left; a wider numeral is not cut. */
  function FormatWidth4(n: nat): (f: string)
    ensures |f| == if |Decimal(n)| < 4 then 4 else |Decimal(n)|
    ensures forall c :: c in f ==> c == ' ' || IsDigit(c)
  {
    var d := Decimal(n);
    if |d| < 4 then seq(4 - |d|, _ => ' ') + d else d
  }

  /** Drops the padding in front of a right-aligned numeral. */
  function TrimLeadingSpaces(s: string): (r: string)
    ensures r == [] || r[0] != ' '
  {
    if s != [] && s[0] == ' ' then TrimLeadingSpaces(s[1..]) else s
  }

  lemma {:induction false} TrimSpaces(k: nat, d: string)
    requires d == [] || d[0] != ' '
    ensures TrimLeadingSpaces(seq(k, _ => ' ') + d) == d
  {
    if k > 0 {
      var p := seq(k, _ => ' ') + d;
      assert p[1..] == seq(k - 1, _ => ' ') + d;
      TrimSpaces(k - 1, d);
    } else {
      assert seq(k, _ => ' ') + d == d;
    }
  }

  /** The field is right-aligned: without its padding it is exactly the plain
      numeral, so all the padding is spaces in front of it. */
  lemma FormatWidth4Numeral(n: nat)
    ensures TrimLeadingSpaces(FormatWidth4(n)) == Decimal(n)
  {
    var d := Decimal(n);
    assert d[0] in d;
    if |d| < 4 {
      TrimSpaces(4 - |d|, d);
    } else {
      TrimSpaces(0, d);
      assert seq(0, _ => ' ') + d == d;
    }
  }

  /** The four-wide field of any number up to 9999 is exactly four characters
      long: the numeral of the number, right-aligned, which reads back as the
      number. */
  lemma FormatWidth4RoundTrip(n: nat)
    requires n <= 9999
    ensures |FormatWidth4(n)| == 4
    ensures TrimLeadingSpaces(FormatWidth4(n)) == Decimal(n)
    ensures ParseDecimal(Decimal(n)) == n
  {
    DecimalLength(n, 4);
    assert Pow10(4) == 10000;
    DecimalRoundTrip(n);
    FormatWidth4Numeral(n);
  }
}
