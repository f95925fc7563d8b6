/** Decimal numbers, as strconv reads and writes them. */
module Numbers {
  import opened Wrappers

  predicate Digit(c: char) {
    '0' <= c <= '9'
  }

  function Digits(v: string): nat
    requires forall i :: 0 <= i < |v| ==> Digit(v[i])
  {
    if v == [] then 0
    else
      assert Digit(v[|v| - 1]);
      10 * Digits(v[..|v| - 1]) + (v[|v| - 1] as int - '0' as int)
  }

  // strconv.Atoi as far as the callers can tell: an optional sign, then digits. A number
  // too large for an int64 is out of every caller's bounds, so it is refused as well.
  function Atoi(v: string): (r: Option<int>)
    ensures r.Some? ==> v != [] && (v[0] == '-' ==> r.value <= 0) && (v[0] != '-' ==> r.value >= 0)
    ensures r.Some? ==> forall i :: 0 <= i < |v| ==> Digit(v[i]) || (i == 0 && (v[0] == '+' || v[0] == '-'))
  {
    var body := if v != [] && (v[0] == '+' || v[0] == '-') then v[1..] else v;
    if body == [] || exists i :: 0 <= i < |body| && !Digit(body[i]) then None
    else
      assert forall i :: 1 <= i < |v| ==> v[i] == body[i - (|v| - |body|)];
      Some(if v[0] == '-' then 0 - Digits(body) else Digits(body))
  }

  function DigitChar(d: nat): char
    requires d < 10
  {
    ('0' as int + d) as char
  }

  function Decimal(n: nat): (s: string)
    ensures |s| >= 1
  {
    if n < 10 then [DigitChar(n)] else Decimal(n / 10) + [DigitChar(n % 10)]
  }

  // strconv.Itoa
  function Itoa(n: int): string {
    if n < 0 then "-" + Decimal(-n) else Decimal(n)
  }

  ghost predicate DigitsOnly(s: string) {
    forall i :: 0 <= i < |s| ==> Digit(s[i])
  }

  lemma LastDigit(s: string, d: nat)
    requires DigitsOnly(s) && d < 10
    ensures DigitsOnly(s + [DigitChar(d)]) && Digits(s + [DigitChar(d)]) == 10 * Digits(s) + d
  {
    assert (s + [DigitChar(d)])[..|s|] == s;
  }

  // What is written reads back.
  lemma {:induction false} DecimalReads(n: nat)
    ensures DigitsOnly(Decimal(n)) && Digits(Decimal(n)) == n
  {
    if n < 10 {
      LastDigit("", n);
      assert "" + [DigitChar(n)] == Decimal(n);
    } else {
      DecimalReads(n / 10);
      LastDigit(Decimal(n / 10), n % 10);
    }
  }

  lemma ItoaIsInjective(a: int, b: int)
    requires Itoa(a) == Itoa(b)
    ensures a == b
  {
    DecimalReads(if a < 0 then -a else a);
    DecimalReads(if b < 0 then -b else b);
    assert Itoa(a)[0] == '-' <==> a < 0;
    assert Itoa(b)[0] == '-' <==> b < 0;
    if a < 0 && b < 0 {
      assert Itoa(a)[1..] == Decimal(-a) && Itoa(b)[1..] == Decimal(-b);
    }
  }
}
