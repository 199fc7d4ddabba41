/** How numbers are spelled in rule text, as a grammar over literal characters, and
    that the parsers accept exactly these spellings (internal/policy/policy.go:26-36,
    132-170). */
module Spelling {
  import opened Words
  import opened Numerals
  import opened RuleText

  /** `c` is the digit `d`, in either case. */
  predicate SaysDigit(c: char, d: nat)
    requires d < 16
  {
    c == "0123456789abcdef"[d] || c == "0123456789ABCDEF"[d]
  }

  /** Reading `t` from left to right leads from `start` to `n`; underscores are skipped. */
  ghost predicate Reads(t: string, base: Base, start: nat, n: nat) {
    if t == [] then n == start
    else if t[0] == '_' then Reads(t[1..], base, start, n)
    else exists d: nat :: d < base && SaysDigit(t[0], d) && Reads(t[1..], base, start * base + d, n)
  }

  /** A decimal number without separators. */
  ghost predicate SaysNumber(t: string, n: nat) {
    t != [] && '_' !in t && Reads(t, 10, 0, n)
  }

  /** An underscore is neither first nor last nor next to another one. */
  predicate Separated(s: string) {
    forall i :: 0 <= i < |s| && s[i] == '_' ==> 0 < i < |s| - 1 && s[i - 1] != '_' && s[i + 1] != '_'
  }

  /** A mark below two to the thirty-two: decimal unless it starts with a zero; octal
      after a bare zero; any of three bases after a prefix of either case. */
  ghost predicate SaysMark(s: string, m: u32) {
    && s != [] && Separated(s)
    && (|| (s[0] != '0' && Reads(s, 10, 0, m))
        || (s[0] == '0' && Reads(s[1..], 8, 0, m))
        || (|s| >= 3 && s[0] == '0' && s[1] in {'x', 'X'} && Reads(s[2..], 16, 0, m))
        || (|s| >= 3 && s[0] == '0' && s[1] in {'o', 'O'} && Reads(s[2..], 8, 0, m))
        || (|s| >= 3 && s[0] == '0' && s[1] in {'b', 'B'} && Reads(s[2..], 2, 0, m)))
  }

  // ---------- digits ----------

  lemma DigitExact(c: char, d: nat)
    requires d < 16
    ensures SaysDigit(c, d) <==> DigitValue(c) == Some(d)
  {
  }

  /** Reading as the standard library's loop does it: one digit at a time from the left. */
  function ReadFrom(t: string, base: Base, start: nat): Option<nat> {
    if t == [] then Some(start)
    else if t[0] == '_' then ReadFrom(t[1..], base, start)
    else if IsDigit(t[0], base) then ReadFrom(t[1..], base, start * base + DigitValue(t[0]).value)
    else None
  }

  lemma {:induction false} ReadsIsReadFrom(t: string, base: Base, start: nat, n: nat)
    ensures Reads(t, base, start, n) <==> ReadFrom(t, base, start) == Some(n)
  {
    if t != [] {
      if t[0] == '_' {
        ReadsIsReadFrom(t[1..], base, start, n);
      } else {
        forall d: nat | d < base { DigitExact(t[0], d); }
        if IsDigit(t[0], base) {
          ReadsIsReadFrom(t[1..], base, start * base + DigitValue(t[0]).value, n);
        }
      }
    }
  }

  lemma {:induction false} ReadOneMore(t: string, c: char, base: Base, start: nat)
    ensures ReadFrom(t + [c], base, start) ==
            match ReadFrom(t, base, start)
            case None => None
            case Some(m) =>
              if c == '_' then Some(m)
              else if IsDigit(c, base) then Some(m * base + DigitValue(c).value)
              else None
  {
    var s := t + [c];
    if t == [] {
      assert s[1..] == [];
    } else {
      assert s[1..] == t[1..] + [c];
      if t[0] == '_' {
        ReadOneMore(t[1..], c, base, start);
      } else if IsDigit(t[0], base) {
        ReadOneMore(t[1..], c, base, start * base + DigitValue(t[0]).value);
      }
    }
  }

  lemma {:induction false} ReadIsValue(t: string, base: Base)
    ensures ReadFrom(t, base, 0) == DigitsOr0(StripUnderscores(t), base)
  {
    if t != [] {
      var u, c := t[..|t| - 1], t[|t| - 1];
      assert t == u + [c];
      ReadOneMore(u, c, base, 0);
      ReadIsValue(u, base);
      if c != '_' {
        var v := StripUnderscores(u) + [c];
        assert v[..|v| - 1] == StripUnderscores(u);
      } else {
        assert StripUnderscores(t) == StripUnderscores(u);
      }
    }
  }

  lemma ReadsExact(t: string, base: Base, n: nat)
    ensures Reads(t, base, 0, n) <==> DigitsOr0(StripUnderscores(t), base) == Some(n)
  {
    ReadsIsReadFrom(t, base, 0, n);
    ReadIsValue(t, base);
  }

  /** A decimal text denotes the number it spells. */
  lemma NumberTextExact(t: string, n: nat)
    ensures SaysNumber(t, n) <==> Value(t, 10) == Some(n)
  {
    ReadsExact(t, 10, n);
    if Value(t, 10).Some? { NoSeparator(t); }
    if '_' !in t { NothingToStrip(t); }
  }

  lemma NoSeparator(t: string)
    requires Value(t, 10).Some?
    ensures t != [] && '_' !in t
  {
    ValueDigits(t, 10);
    forall i | 0 <= i < |t| ensures t[i] != '_' { assert IsDigit(t[i], 10); }
  }

  // ---------- separators ----------

  /** Every character is a separator or a digit. */
  predicate Numeric(t: string, hex: bool) {
    forall i :: 0 <= i < |t| ==> t[i] == '_' || '0' <= t[i] <= '9' || (hex && 'a' <= Lower(t[i]) <= 'f')
  }

  lemma DigitIsNumeric(c: char, base: Base)
    requires IsDigit(c, base) && (base > 10 ==> base == 16)
    ensures '0' <= c <= '9' || (base == 16 && 'a' <= Lower(c) <= 'f')
  {
  }

  lemma NumericOneMore(c: char, t: string, hex: bool)
    requires Numeric(t, hex) && (c == '_' || '0' <= c <= '9' || (hex && 'a' <= Lower(c) <= 'f'))
    ensures Numeric([c] + t, hex)
  {
  }

  lemma {:induction false} ReadIsNumeric(t: string, base: Base, start: nat)
    requires ReadFrom(t, base, start).Some? && (base > 10 ==> base == 16)
    ensures Numeric(t, base == 16)
  {
    if t != [] {
      if t[0] == '_' {
        ReadIsNumeric(t[1..], base, start);
      } else {
        DigitIsNumeric(t[0], base);
        ReadIsNumeric(t[1..], base, start * base + DigitValue(t[0]).value);
      }
      NumericOneMore(t[0], t[1..], base == 16);
      assert t == [t[0]] + t[1..];
    }
  }

  /** Where underscores may stand in the digits after `last`. */
  predicate Placed(t: string, last: char) {
    if t == [] then last != '_'
    else
      && (t[0] == '_' ==> last == '0') && t[|t| - 1] != '_'
      && forall i :: 0 < i < |t| && t[i] == '_' ==> t[i - 1] != '_'
  }

  lemma {:induction false} UnderscoresExact(t: string, hex: bool, last: char)
    requires Numeric(t, hex) && last in {'0', '_', '^'}
    ensures UnderscoresOk(t, hex, last) <==> Placed(t, last)
  {
    if t != [] {
      var next := if t[0] == '_' then '_' else '0';
      UnderscoresExact(t[1..], hex, next);
      if |t| > 1 {
        assert t[1] == t[1..][0];
        assert Placed(t, last) <==> (t[0] == '_' ==> last == '0') && Placed(t[1..], next);
      }
    }
  }

  // ---------- marks ----------

  predicate Radix(c: char, base: Base) {
    (c in {'x', 'X'} && base == 16) || (c in {'o', 'O'} && base == 8) || (c in {'b', 'B'} && base == 2)
  }

  lemma PrefixedSeparators(s: string)
    requires |s| >= 3 && s[0] != '_' && s[1] != '_'
    ensures Separated(s) <==> Placed(s[2..], '0')
  {
    var t := s[2..];
    assert forall i :: 2 <= i < |s| ==> s[i] == t[i - 2];
    assert forall i :: 0 <= i < |t| ==> t[i] == s[i + 2];
  }

  lemma PrefixedMarkExact(s: string, base: Base, m: u32)
    requires |s| >= 3 && s[0] == '0' && Radix(s[1], base)
    ensures ParseMark(s) == Some(m) <==> Separated(s) && Reads(s[2..], base, 0, m)
  {
    var t := s[2..];
    ReadsExact(t, base, m);
    ReadIsValue(t, base);
    if ReadFrom(t, base, 0).Some? {
      ReadIsNumeric(t, base, 0);
      UnderscoresExact(t, Lower(s[1]) == 'x', '0');
      PrefixedSeparators(s);
      assert s == s[..2] + t;
    }
  }

  lemma BareSeparators(s: string)
    requires s != [] && Numeric(s, false)
    ensures !IsPrefixed(s) && (UnderscoresOk(s, false, '^') <==> Separated(s))
  {
    UnderscoresExact(s, false, '^');
    assert Separated(s) <==> Placed(s, '^');
  }

  lemma DecimalMarkExact(s: string, m: u32)
    requires s != [] && s[0] != '0'
    ensures ParseMark(s) == Some(m) <==> Separated(s) && Reads(s, 10, 0, m)
  {
    ReadsExact(s, 10, m);
    ReadIsValue(s, 10);
    if ReadFrom(s, 10, 0).Some? {
      ReadIsNumeric(s, 10, 0);
      BareSeparators(s);
    }
  }

  lemma OctalMarkExact(s: string, m: u32)
    requires s != [] && s[0] == '0' && !(|s| >= 3 && exists base :: Radix(s[1], base))
    ensures ParseMark(s) == Some(m) <==> Separated(s) && Reads(s[1..], 8, 0, m)
  {
    var t := s[1..];
    assert !(|s| >= 3 && Lower(s[1]) in {'b', 'o', 'x'}) by {
      assert !(|s| >= 3 && (Radix(s[1], 16) || Radix(s[1], 8) || Radix(s[1], 2)));
    }
    ReadsExact(t, 8, m);
    ReadIsValue(t, 8);
    if ReadFrom(t, 8, 0).Some? {
      ReadIsNumeric(s, 8, 0);
      BareSeparators(s);
    }
  }

  /** A letter is no digit, so a prefixed text is no octal one. */
  lemma PrefixIsNoDigit(s: string, base: Base, m: u32)
    requires |s| >= 3 && s[0] == '0' && Radix(s[1], base)
    ensures !Reads(s[1..], 8, 0, m)
  {
    ReadsIsReadFrom(s[1..], 8, 0, m);
  }

  /** The mark parser accepts exactly the texts of the grammar, as what they say. */
  lemma MarkTextExact(s: string, m: u32)
    ensures ParseMark(s) == Some(m) <==> SaysMark(s, m)
  {
    if s != [] {
      if s[0] != '0' {
        DecimalMarkExact(s, m);
      } else if |s| >= 3 && exists base :: Radix(s[1], base) {
        var base :| Radix(s[1], base);
        PrefixedMarkExact(s, base, m);
        PrefixIsNoDigit(s, base, m);
      } else {
        OctalMarkExact(s, m);
        assert !(|s| >= 3 && (Radix(s[1], 16) || Radix(s[1], 8) || Radix(s[1], 2)));
      }
    }
  }

  lemma DigitShape(d: nat)
    requires d < 16
    ensures Digit(d) == "0123456789abcdef"[d]
  {
  }

  lemma {:induction false} NumeralShape(n: nat, base: Base)
    ensures Numeral(n, base) != [] && forall c :: c in Numeral(n, base) ==> c in "0123456789abcdef"
    ensures n != 0 ==> Numeral(n, base)[0] != '0'
  {
    DigitShape(n % base);
    if n >= base {
      NumeralShape(n / base, base);
    }
  }

  /** A mark is printed as 0x and lower-case digits without a leading zero. */
  lemma PrintedMark(m: u32)
    ensures var s := PrintMark(m);
            && SaysMark(s, m) && |s| >= 3 && s[0] == '0' && s[1] == 'x'
            && (forall c :: c in s[2..] ==> c in "0123456789abcdef") && (m != 0 ==> s[2] != '0')
  {
    MarkRoundTrip(m);
    MarkTextExact(PrintMark(m), m);
    NumeralShape(m, 16);
    assert PrintMark(m)[2..] == Numeral(m, 16);
  }
}
