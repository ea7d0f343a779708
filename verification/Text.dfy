/** Numerals and separated lists: the text vocabulary shared by the address printer and the RFC 3986 reader. */
module Text {
  /** The two bases the printer uses. */
  type Base = b: nat | b == 10 || b == 16 witness 10

  // ---------- digits and numerals ----------

  function DigitChar(d: nat): (c: char)
    requires d < 16
    ensures DigitValue(c) == d
    ensures c != ':' && c != '.' && c != '[' && c != ']' && c != '\0'
  {
    if d < 10 then ('0' as int + d) as char else ('a' as int + (d - 10)) as char
  }

  lemma DigitsAre(d: nat)
    requires d < 16
    ensures DigitChar(d) == "0123456789abcdef"[d]
  {
  }

  /** The value of a digit in any base up to sixteen (either letter case), or -1. */
  function DigitValue(c: char): int {
    if '0' <= c <= '9' then c as int - '0' as int
    else if 'a' <= c <= 'f' then c as int - 'a' as int + 10
    else if 'A' <= c <= 'F' then c as int - 'A' as int + 10
    else -1
  }

  predicate AllDigits(s: string, base: Base) {
    forall i :: 0 <= i < |s| ==> 0 <= DigitValue(s[i]) < base
  }

  function Value(s: string, base: Base): nat
    requires AllDigits(s, base)
  {
    if s == "" then 0 else Value(s[..|s| - 1], base) * base + DigitValue(s[|s| - 1])
  }

  function Numeral(n: nat, base: Base): string
    decreases n
  {
    if n < base then [DigitChar(n)]
    else
      QuotientSmaller(n, base);
      Numeral(n / base, base) + [DigitChar(n % base)]
  }

  lemma QuotientSmaller(n: nat, base: Base)
    requires base <= n
    ensures 0 < n / base < n
  {
    if base == 10 { assert n / 10 < n; } else { assert n / 16 < n; }
  }

  /** Reading a numeral back gives the number. */
  lemma {:induction false} NumeralReadsBack(n: nat, base: Base)
    ensures Numeral(n, base) != "" && AllDigits(Numeral(n, base), base)
    ensures Value(Numeral(n, base), base) == n
  {
    if n < base {
      assert Numeral(n, base)[..0] == "";
    } else {
      QuotientSmaller(n, base);
      NumeralReadsBack(n / base, base);
      var init := Numeral(n / base, base);
      assert Numeral(n, base)[..|init|] == init;
      if base == 10 { assert n == n / 10 * 10 + n % 10; } else { assert n == n / 16 * 16 + n % 16; }
    }
  }

  /** Lower-case digits and no leading zero: the form RFC 3986 asks of dec-octet and RFC 5952 of a group. */
  predicate Canonical(s: string, base: Base) {
    && s != "" && AllDigits(s, base)
    && (forall i :: 0 <= i < |s| ==> !('A' <= s[i] <= 'F'))
    && (|s| > 1 ==> s[0] != '0')
  }

  /** A numeral is canonical, and it is the only canonical text of its value. */
  lemma {:induction false} NumeralCanonical(n: nat, base: Base)
    ensures Canonical(Numeral(n, base), base)
    ensures Numeral(n, base)[0] == '0' ==> n == 0
  {
    NumeralReadsBack(n, base);
    if base <= n {
      QuotientSmaller(n, base);
      NumeralCanonical(n / base, base);
      NumeralReadsBack(n / base, base);
    }
  }

  lemma {:induction false} CanonicalIsNumeral(s: string, base: Base)
    requires Canonical(s, base)
    ensures s == Numeral(Value(s, base), base)
    ensures s[0] != '0' ==> Value(s, base) > 0
  {
    ValueSnoc(s, base);
    if |s| > 1 {
      var init, last := s[..|s| - 1], s[|s| - 1];
      CanonicalIsNumeral(init, base);
      NumeralStep(Value(init, base), DigitValue(last), base);
      assert s == init + [last];
    }
  }

  lemma ValueSnoc(s: string, base: Base)
    requires Canonical(s, base)
    ensures var init, last := s[..|s| - 1], s[|s| - 1];
            && 0 <= DigitValue(last) < base && DigitChar(DigitValue(last)) == last
            && if |s| == 1 then Value(s, base) == DigitValue(last)
               else Canonical(init, base) && init[0] == s[0]
                    && Value(s, base) == Value(init, base) * base + DigitValue(last)
  {
    DigitCharOf(s[|s| - 1]);
    if |s| == 1 {
      assert Value(s[..0], base) * base == 0;
    }
  }

  lemma DigitCharOf(c: char)
    requires 0 <= DigitValue(c) && !('A' <= c <= 'F')
    ensures DigitChar(DigitValue(c)) == c
  {
  }

  /** Appending a digit to the numeral of a positive number. */
  lemma NumeralStep(q: nat, d: nat, base: Base)
    requires 0 < q && d < base
    ensures q * base + d > 0
    ensures Numeral(q * base + d, base) == Numeral(q, base) + [DigitChar(d)]
  {
    if base == 10 {
      assert (q * 10 + d) / 10 == q && (q * 10 + d) % 10 == d;
    } else {
      assert (q * 16 + d) / 16 == q && (q * 16 + d) % 16 == d;
    }
  }

  /** The digits of n with nothing at all for zero: what a zero-suppressing printer has written so far. */
  function Leading(n: nat, base: Base): string {
    if n == 0 then "" else Numeral(n, base)
  }

  lemma LeadingStep(q: nat, d: nat, base: Base)
    requires d < base
    ensures Leading(q * base + d, base) == Leading(q, base) + (if q * base + d == 0 then "" else [DigitChar(d)])
    ensures Numeral(q * base + d, base) == Leading(q, base) + [DigitChar(d)]
  {
    if q > 0 { NumeralStep(q, d, base); }
  }

  /** A base-sixteen numeral of at most w digits for every number below sixteen to the w, and likewise in base ten. */
  lemma {:induction false} NumeralLength(n: nat, base: Base)
    ensures base == 16 && n < 0x10000 ==> |Numeral(n, 16)| <= 4
    ensures base == 10 && n < 256 ==> |Numeral(n, 10)| <= 3
    ensures base == 10 && n < 65536 ==> |Numeral(n, 10)| <= 5
  {
    if base == 16 {
      if n < 0x10000 {
        assert n / 16 < 0x1000 && n / 16 / 16 < 0x100 && n / 16 / 16 / 16 < 16;
        assert |Numeral(n / 16 / 16 / 16, 16)| == 1;
        assert |Numeral(n / 16 / 16, 16)| <= 2;
        assert |Numeral(n / 16, 16)| <= 3;
      }
    } else if n < 65536 {
      var a := n / 10;
      var b := a / 10;
      var c := b / 10;
      assert |Numeral(c / 10, 10)| == 1;
      assert |Numeral(c, 10)| <= 2;
      assert |Numeral(b, 10)| <= 3 && (b < 10 ==> |Numeral(b, 10)| == 1);
      assert |Numeral(a, 10)| <= 4;
      assert n < 256 ==> b < 10 && |Numeral(a, 10)| <= 2;
    }
  }

  // ---------- lists of parts ----------

  predicate Free(s: string, c: char) {
    forall i :: 0 <= i < |s| ==> s[i] != c
  }

  function Join(parts: seq<string>, sep: char): string {
    if |parts| == 0 then ""
    else if |parts| == 1 then parts[0]
    else Join(parts[..|parts| - 1], sep) + [sep] + parts[|parts| - 1]
  }

  function Split(s: string, sep: char): (parts: seq<string>)
    ensures |parts| >= 1
  {
    if s == "" then [""]
    else
      var before := Split(s[..|s| - 1], sep);
      var c := s[|s| - 1];
      if c == sep then before + [""]
      else before[..|before| - 1] + [before[|before| - 1] + [c]]
  }

  lemma {:induction false} SplitAppend(s: string, part: string, sep: char)
    requires Free(part, sep)
    ensures var before := Split(s, sep);
            Split(s + part, sep) == before[..|before| - 1] + [before[|before| - 1] + part]
  {
    var before := Split(s, sep);
    if part == "" {
      assert s + part == s;
      assert before[|before| - 1] + part == before[|before| - 1];
    } else {
      var init, c := part[..|part| - 1], part[|part| - 1];
      SplitAppend(s, init, sep);
      assert (s + part)[..|s + part| - 1] == s + init;
      assert before[|before| - 1] + part == before[|before| - 1] + init + [c];
    }
  }

  /** Splitting undoes joining. */
  lemma {:induction false} SplitJoin(parts: seq<string>, sep: char)
    requires |parts| >= 1
    requires forall i :: 0 <= i < |parts| ==> Free(parts[i], sep)
    ensures Split(Join(parts, sep), sep) == parts
  {
    var last := parts[|parts| - 1];
    if |parts| == 1 {
      SplitAppend("", last, sep);
      assert "" + last == last;
    } else {
      var init := parts[..|parts| - 1];
      SplitJoin(init, sep);
      var head := Join(init, sep) + [sep];
      assert head[..|head| - 1] == Join(init, sep);
      SplitAppend(head, last, sep);
      assert "" + last == last;
    }
  }

  /** Every character of a joined text is a separator or belongs to a part. */
  lemma {:induction false} JoinFree(parts: seq<string>, sep: char, c: char)
    requires c != sep && forall i :: 0 <= i < |parts| ==> Free(parts[i], c)
    ensures Free(Join(parts, sep), c)
  {
    if |parts| > 1 {
      JoinFree(parts[..|parts| - 1], sep, c);
    }
  }

  lemma {:induction false} JoinLength(parts: seq<string>, sep: char, w: nat)
    requires forall i :: 0 <= i < |parts| ==> |parts[i]| <= w
    ensures |Join(parts, sep)| <= if |parts| == 0 then 0 else |parts| * (w + 1) - 1
    ensures |parts| >= 1 && parts[0] != "" ==> Join(parts, sep) != ""
  {
    if |parts| > 1 {
      JoinLength(parts[..|parts| - 1], sep, w);
      assert |parts| * (w + 1) == (|parts| - 1) * (w + 1) + (w + 1);
    }
  }

  // ---------- searching ----------

  function Find(s: string, c: char): (k: nat)
    ensures k <= |s| && forall i :: 0 <= i < k ==> s[i] != c
    ensures k < |s| ==> s[k] == c
  {
    if s == "" || s[0] == c then 0 else 1 + Find(s[1..], c)
  }

  /** A char buffer read as a C string: what stands before its first NUL. */
  function CStringOf(buffer: seq<char>): string {
    buffer[..Find(buffer, '\0')]
  }

  lemma HoldsCString(buffer: seq<char>, text: string)
    requires |text| < |buffer| && buffer[..|text|] == text && buffer[|text|] == '\0' && Free(text, '\0')
    ensures CStringOf(buffer) == text
  {
    assert forall i :: 0 <= i < |text| ==> buffer[i] == text[i];
  }

  /** The first place where c stands twice in a row, or the length of the text. */
  function FindDouble(s: string, c: char): (k: nat)
    ensures k <= |s| && forall i :: 0 <= i < k && i + 1 < |s| ==> !(s[i] == c && s[i + 1] == c)
    ensures k < |s| ==> k + 1 < |s| && s[k] == s[k + 1] == c
  {
    if |s| < 2 then |s|
    else if s[0] == s[1] == c then 0
    else 1 + FindDouble(s[1..], c)
  }

  predicate NoDouble(s: string, c: char) {
    forall i :: 0 <= i < |s| - 1 ==> !(s[i] == c && s[i + 1] == c)
  }
}
