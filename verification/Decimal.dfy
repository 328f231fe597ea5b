/** Decimal text of machine integers: `strconv.Itoa`, `strconv.Atoi` and the
    store's hand-written `itoa`. */
module Decimal {
  import opened Prelude

  const MIN_INT64: int := -0x8000_0000_0000_0000
  const MAX_INT64: int := 0x7FFF_FFFF_FFFF_FFFF

  predicate IsDigit(c: char)
  {
    '0' <= c <= '9'
  }

  function DigitChar(d: nat): (c: char)
    requires d < 10
    ensures IsDigit(c) && DigitValue(c) == d
  {
    ('0' as int + d) as char
  }

  function DigitValue(c: char): nat
    requires IsDigit(c)
  {
    var d: int := c as int - '0' as int;
    d
  }

  function Digits(n: nat): (r: string)
    ensures r != [] && forall c | c in r :: IsDigit(c)
  {
    if n < 10 then [DigitChar(n)] else Digits(n / 10) + [DigitChar(n % 10)]
  }

  function Itoa(n: int): string
  {
    if n < 0 then "-" + Digits(-n) else Digits(n)
  }

  /** The value of a string of digits, most significant first. */
  function Value(s: string): nat
    requires forall c | c in s :: IsDigit(c)
  {
    if s == [] then 0
    else
      var n := |s| - 1;
      assert s[n] in s;
      10 * Value(s[..n]) + DigitValue(s[n])
  }

  /** Optional sign, at least one digit, and a 64-bit result. */
  function Atoi(s: string): Option<int>
  {
    var signed := s != [] && (s[0] == '-' || s[0] == '+');
    var digits := if signed then s[1..] else s;
    if digits == [] || (exists c | c in digits :: !IsDigit(c)) then None
    else
      var v: int := Value(digits);
      var n := if signed && s[0] == '-' then -v else v;
      if MIN_INT64 <= n <= MAX_INT64 then Some(n) else None
  }

  lemma {:induction false} ValueOfDigits(n: nat)
    ensures Value(Digits(n)) == n
  {
    if n < 10 {
      assert [DigitChar(n)][..0] == [];
    } else {
      ValueOfDigits(n / 10);
      assert Digits(n)[..|Digits(n)| - 1] == Digits(n / 10);
    }
  }

  /** Parsing undoes printing for every 64-bit integer. */
  lemma AtoiItoa(n: int)
    requires MIN_INT64 <= n <= MAX_INT64
    ensures Atoi(Itoa(n)) == Some(n)
  {
    hide Digits, Value, DigitValue;
    var digits := Digits(if n < 0 then -n else n);
    ValueOfDigits(if n < 0 then -n else n);
    assert forall c | c in digits :: IsDigit(c);
    if n < 0 {
      assert Itoa(n)[1..] == digits;
    } else {
      assert digits[0] in digits;
    }
  }

  function Zeros(k: nat): (r: string)
    ensures |r| == k && forall c | c in r :: c == '0'
  {
    if k == 0 then [] else Zeros(k - 1) + ['0']
  }

  /** The digits of a number are determined by how it is built up. */
  lemma DigitsNext(n: nat, d: nat)
    requires n > 0 && d < 10
    ensures Digits(10 * n + d) == Digits(n) + [DigitChar(d)]
  {
    assert (10 * n + d) / 10 == n && (10 * n + d) % 10 == d;
  }

  lemma ValueSnoc(s: string, c: char)
    requires IsDigit(c) && forall d | d in s :: IsDigit(d)
    ensures (forall d | d in s + [c] :: IsDigit(d)) && Value(s + [c]) == 10 * Value(s) + DigitValue(c)
  {
    assert (s + [c])[..|s|] == s;
  }

  /** A string of digits is the decimal text of its value, after some zeros. */
  lemma {:induction false} DigitsOfValue(s: string) returns (z: nat)
    requires s != [] && forall c | c in s :: IsDigit(c)
    ensures s == Zeros(z) + Digits(Value(s))
  {
    hide Digits, Value;
    var n := |s| - 1;
    var front, c := s[..n], s[n];
    assert c in s && s == front + [c];
    ValueSnoc(front, c);
    SingleDigit(DigitValue(c));
    assert DigitChar(DigitValue(c)) == c;
    if n == 0 {
      z := 0;
      NoValue();
      assert front == [];
    } else {
      var z' := DigitsOfValue(front);
      if Value(front) == 0 {
        z := z' + 1;
        SingleDigit(0);
        assert DigitChar(0) == '0' && Zeros(z) == Zeros(z') + ['0'];
        assert front == Zeros(z);
      } else {
        z := z';
        DigitsNext(Value(front), DigitValue(c));
      }
    }
  }

  lemma NoValue()
    ensures Value([]) == 0
  {}

  lemma SingleDigit(d: nat)
    requires d < 10
    ensures Digits(d) == [DigitChar(d)]
  {}

  lemma {:induction false} ValueOfZeros(z: nat, s: string)
    requires forall c | c in s :: IsDigit(c)
    ensures (forall c | c in Zeros(z) + s :: IsDigit(c)) && Value(Zeros(z) + s) == Value(s)
    decreases z + |s|
  {
    hide Value;
    if s == [] {
      assert Zeros(z) + s == Zeros(z);
      NoValue();
      if z > 0 {
        ValueOfZeros(z - 1, []);
        assert Zeros(z - 1) + [] == Zeros(z - 1);
        ValueSnoc(Zeros(z - 1), '0');
      }
    } else {
      var n := |s| - 1;
      assert s == s[..n] + [s[n]] && s[n] in s;
      ValueOfZeros(z, s[..n]);
      ValueSnoc(Zeros(z) + s[..n], s[n]);
      ValueSnoc(s[..n], s[n]);
      assert Zeros(z) + s == Zeros(z) + s[..n] + [s[n]];
    }
  }

  /** The text is a sign or none, some zeros, and the decimal text of |n|. */
  ghost predicate Spells(s: string, sign: string, z: nat, n: int)
  {
    && sign in {"", "+", "-"} && (sign == "-" ==> n <= 0) && (sign != "-" ==> n >= 0)
    && s == sign + Zeros(z) + Digits(if n < 0 then -n else n)
  }

  /** Exactly the texts that are read as a number: an optional sign, any number
      of leading zeros, its decimal text, and a value of 64 bits. */
  lemma AtoiMeans(s: string, n: int)
    ensures Atoi(s) == Some(n) <==>
            MIN_INT64 <= n <= MAX_INT64 && exists sign: string, z: nat :: Spells(s, sign, z, n)
  {
    hide Digits, Value;
    if Atoi(s) == Some(n) {
      var signed := s[0] == '-' || s[0] == '+';
      var digits := if signed then s[1..] else s;
      var z := DigitsOfValue(digits);
      var sign := if signed then [s[0]] else "";
      assert s == sign + digits;
      assert Spells(s, sign, z, n);
    }
    if sign: string, z: nat :| Spells(s, sign, z, n) && MIN_INT64 <= n <= MAX_INT64 {
      SpelledIsRead(s, sign, z, n);
    }
  }

  lemma SpelledIsRead(s: string, sign: string, z: nat, n: int)
    requires Spells(s, sign, z, n) && MIN_INT64 <= n <= MAX_INT64
    ensures Atoi(s) == Some(n)
  {
    hide Digits, Value;
    var m: nat := if n < 0 then -n else n;
    var digits := Zeros(z) + Digits(m);
    ValueOfDigits(m);
    ValueOfZeros(z, Digits(m));
    assert digits[0] in digits && IsDigit(digits[0]);
    if sign == "" {
      assert s == digits;
    } else {
      assert s[1..] == digits && s[0] == sign[0];
    }
  }

  function Pow10(k: nat): (r: nat)
    ensures r >= 1
  {
    if k == 0 then 1 else 10 * Pow10(k - 1)
  }

  /** A number has at most k digits exactly when it is below 10^k. */
  lemma {:induction false} DigitCount(n: nat, k: nat)
    requires k >= 1
    ensures |Digits(n)| <= k <==> n < Pow10(k)
  {
    if k == 1 {
      assert Pow10(1) == 10 * Pow10(0) == 10;
    } else if n >= 10 {
      DigitCount(n / 10, k - 1);
      assert n / 10 < Pow10(k - 1) <==> n < 10 * Pow10(k - 1);
    } else {
      assert Pow10(k) == 10 * Pow10(k - 1);
    }
  }

  lemma Pow10Of19()
    ensures Pow10(19) == 10_000_000_000_000_000_000
  {
    assert Pow10(5) == 100_000;
    assert Pow10(10) == 10_000_000_000;
    assert Pow10(15) == 1_000_000_000_000_000;
  }

  /** The digits still to be written: none once the number is used up. */
  function Leading(n: int): string
  {
    if n > 0 then Digits(n) else []
  }

  lemma DigitsStep(n: nat)
    requires n > 0
    ensures Leading(n) == Leading(n / 10) + [DigitChar(n % 10)]
  {}

  lemma LeadingFits(n: int)
    requires n <= MAX_INT64
    ensures |Leading(n)| <= 19 && (n <= 0 ==> Leading(n) == [])
  {
    if n > 0 {
      Pow10Of19();
      DigitCount(n, 19);
    }
  }

  /** The loop of `itoa`: digits are written backwards into the buffer. */
  method FillDigits(number: int, buf: array<char>) returns (i: nat)
    requires number <= MAX_INT64 && buf.Length == 20
    modifies buf
    ensures 1 <= i <= 20 && buf[i..] == Leading(number)
  {
    hide Digits, Leading, Pow10;
    var n := number;
    i := buf.Length;
    ghost var whole := Leading(n);
    LeadingFits(n);
    while n > 0
      invariant n <= number && |whole| <= 19
      invariant 0 <= i <= 20 && whole == Leading(n) + buf[i..]
    {
      DigitsStep(n);
      ghost var tail := buf[i..];
      i := i - 1;
      buf[i] := DigitChar(n % 10);
      assert buf[i..] == [DigitChar(n % 10)] + tail;
      n := n / 10;
    }
    LeadingFits(n);
  }

  /** The negation is done in 64-bit arithmetic. The 20-byte buffer always
      suffices, and the text is right for every integer but the smallest,
      whose negation is itself. */
  method ItoaBuffer(number: int) returns (text: string)
    requires MIN_INT64 <= number <= MAX_INT64
    ensures text == if number == MIN_INT64 then "-" else Itoa(number)
  {
    if number == 0 {
      assert DigitChar(0) == '0';
      return "0";
    }
    var neg := number < 0;
    var n := number;
    if neg {
      n := if number == MIN_INT64 then MIN_INT64 else -number;
    }
    var buf := new char[20];
    var i := FillDigits(n, buf);
    ghost var digits := buf[i..];
    if neg {
      i := i - 1;
      buf[i] := '-';
      assert buf[i..] == ['-'] + digits;
    }
    text := buf[i..];
  }

  /** The only 64-bit integer whose text does not read back. */
  lemma ItoaBufferReadsBackIff(number: int)
    requires MIN_INT64 <= number <= MAX_INT64
    ensures Atoi(if number == MIN_INT64 then "-" else Itoa(number)) == Some(number) <==> number != MIN_INT64
  {
    AtoiItoa(number);
  }
}
