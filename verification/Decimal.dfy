/** Decimal text of integers: Python's `str(n)` and `int(text)` on plain digits. */
module Decimal {
  import opened Prelude

  predicate IsDigit(c: char) { '0' <= c <= '9' }

  function DigitChar(d: nat): (c: char)
    requires d < 10
    ensures IsDigit(c)
  {
    '0' + d as char
  }

  function DigitValue(c: char): (d: nat)
    requires IsDigit(c)
    ensures d < 10
  {
    (c - '0') as nat
  }

  function ShowNat(n: nat): (s: string)
    ensures |s| > 0
    ensures forall c :: c in s ==> IsDigit(c)
  {
    if n < 10 then [DigitChar(n)] else ShowNat(n / 10) + [DigitChar(n % 10)]
  }

  function Show(n: int): string {
    if n < 0 then "-" + ShowNat(-n) else ShowNat(n)
  }

  predicate AllDigits(s: string) { forall c :: c in s ==> IsDigit(c) }

  function ReadDigits(s: string): nat
    requires AllDigits(s)
  {
    if s == "" then 0 else ReadDigits(s[..|s| - 1]) * 10 + DigitValue(s[|s| - 1])
  }

  function ReadNat(s: string): Option<int> {
    if s != "" && AllDigits(s) then Some(ReadDigits(s)) else None
  }

  /** `int(text)`: an optional sign and at least one digit. */
  function Read(s: string): Option<int> {
    if s != "" && s[0] == '-' then
      match ReadNat(s[1..]) { case Some(n) => Some(-n) case None => None }
    else if s != "" && s[0] == '+' then
      ReadNat(s[1..])
    else
      ReadNat(s)
  }

  lemma {:induction false} ReadShowNat(n: nat)
    ensures ReadDigits(ShowNat(n)) == n
  {
    if n >= 10 {
      ReadShowNat(n / 10);
      assert ShowNat(n)[..|ShowNat(n)| - 1] == ShowNat(n / 10);
    }
  }

  /** Printing then parsing an integer gives it back. */
  lemma ReadShow(n: int)
    ensures Read(Show(n)) == Some(n)
  {
    if n < 0 {
      ReadShowNat(-n);
      assert Show(n)[1..] == ShowNat(-n);
    } else {
      ReadShowNat(n);
      assert Show(n)[0] in Show(n);
    }
  }

  /** Distinct integers print differently. */
  lemma ShowInjective(m: int, n: int)
    requires Show(m) == Show(n)
    ensures m == n
  {
    ReadShow(m);
    ReadShow(n);
  }

  lemma {:induction false} DigitIs(n: nat)
    requires n < 10
    ensures [DigitChar(n)] == ["0123456789"[n]]
  {
    assert DigitChar(n) == "0123456789"[n] by {
      if n == 0 {} else if n == 1 {} else if n == 2 {} else if n == 3 {} else if n == 4 {}
      else if n == 5 {} else if n == 6 {} else if n == 7 {} else if n == 8 {} else {}
    }
  }

  /** The numeral of a natural number is that of its tens, then its last digit; a negative one carries a sign. */
  lemma {:induction false} ShowIsDecimal(n: int)
    requires n >= 0
    ensures n < 10 ==> Show(n) == ["0123456789"[n]]
    ensures n >= 10 ==> Show(n) == Show(n / 10) + Show(n % 10)
    ensures n > 0 ==> Show(-n) == "-" + Show(n)
  {
    if n < 10 {
      DigitIs(n);
    }
  }

  /** The value of a digit text. */
  lemma {:induction false} ReadIsDecimal(s: string, d: nat)
    requires d < 10
    ensures Read(["0123456789"[d]]) == Some(d)
    ensures ReadNat(s).Some? ==> Read(s + ["0123456789"[d]]) == Some(ReadNat(s).value * 10 + d)
    ensures ReadNat(s).Some? ==> Read("-" + s) == Some(-ReadNat(s).value) && Read("+" + s) == ReadNat(s) == Read(s)
  {
    var c := "0123456789"[d];
    assert IsDigit(c) && DigitValue(c) == d;
    assert [c][..0] == "" && ReadDigits([c]) == d;
    if ReadNat(s).Some? {
      assert (s + [c])[..|s|] == s;
      assert s[0] in s && IsDigit(s[0]);
      assert ("-" + s)[1..] == s && ("+" + s)[1..] == s;
    }
  }

  lemma {:induction false} SignedReads(sign: string, digits: string)
    requires sign in ["", "-", "+"] && digits != "" && AllDigits(digits)
    ensures Read(sign + digits).Some?
  {
    var s := sign + digits;
    assert digits[0] in digits;
    if sign == "" {
      assert s == digits;
    } else {
      assert s[0] == sign[0] && s[1..] == digits;
    }
  }

  /** What reads as a number: at least one digit and nothing else, after an optional sign. */
  lemma {:induction false} ReadsIff(s: string)
    ensures Read(s).Some? <==>
            exists sign, digits :: sign in ["", "-", "+"] && s == sign + digits && digits != ""
                                   && forall c :: c in digits ==> '0' <= c <= '9'
  {
    if Read(s).Some? {
      if s[0] == '-' || s[0] == '+' {
        assert s == [s[0]] + s[1..];
      } else {
        assert s == "" + s;
      }
    }
    forall sign, digits | sign in ["", "-", "+"] && s == sign + digits && digits != ""
                          && forall c :: c in digits ==> '0' <= c <= '9'
      ensures Read(s).Some?
    {
      SignedReads(sign, digits);
    }
  }
}
