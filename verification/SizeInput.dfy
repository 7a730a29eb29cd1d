// The answer to a prompt for a size: a decimal number, perhaps with a plus sign before it
// and a unit after it.
module SizeInput {
  import opened Arithmetic

  const WORD: int := 0x1_0000_0000_0000_0000

  predicate IsDigit(c: char) {
    '0' <= c <= '9'
  }

  predicate IsBlank(c: char) {
    c == ' ' || '\t' <= c <= '\r'
  }

  function SkipBlanks(s: string): string {
    if s != "" && IsBlank(s[0]) then SkipBlanks(s[1..]) else s
  }

  /** The number the leading digits continue. */
  function Digits(s: string, acc: nat): nat {
    if s != "" && IsDigit(s[0]) then Digits(s[1..], 10 * acc + (s[0] as int - '0' as int)) else acc
  }

  /** strtoull in base 10 (section 7.22.1.4 of ISO/IEC 9899:2011): blanks, a sign and
      digits; what does not fit 64 bits is the greatest number that does. */
  function Strtoull(s: string): (n: int)
    ensures 0 <= n < WORD
  {
    var t := SkipBlanks(s);
    var signed := t != "" && (t[0] == '+' || t[0] == '-');
    var n := Digits(if signed then t[1..] else t, 0);
    if n >= WORD then WORD - 1 else if signed && t[0] == '-' then (WORD - n) % WORD else n
  }

  /** Bytes in a unit; a number without one counts sectors. */
  function UnitOf(c: char): (u: nat)
    ensures u > 0
  {
    if c == 'M' || c == 'm' then 1024 * 1024
    else if c == 'G' || c == 'g' then 1024 * 1024 * 1024
    else if c == 'K' || c == 'k' then 1024
    else 512
  }

  // The products are taken in 64 bits.
  function SectorsOf(val: nat, unit: nat): int {
    if unit == 512 then val else val * unit % WORD / 512
  }

  function ParseInput(s: string, max: nat): (n: nat)
    ensures n <= max
  {
    if s == "" then max
    else
      Min(SectorsOf(Strtoull(s), UnitOf(s[|s| - 1])), max)
  }

  /** What an answer asks for when max sectors are free. */
  function ParseSize(answer: string, max: nat): (n: nat)
    ensures n <= max
  {
    ParseInput(if answer != "" && answer[0] == '+' then answer[1..] else answer, max)
  }

  // ------------------------------------------------------------------
  // What it means
  // ------------------------------------------------------------------

  function Decimal(n: nat): (s: string)
    ensures s != "" && forall k :: 0 <= k < |s| ==> IsDigit(s[k])
  {
    (if n < 10 then "" else Decimal(n / 10)) + [(n % 10 + '0' as int) as char]
  }

  lemma {:induction false} DigitsInTurn(a: string, rest: string, acc: nat)
    requires forall k :: 0 <= k < |a| ==> IsDigit(a[k])
    ensures Digits(a + rest, acc) == Digits(rest, Digits(a, acc))
  {
    if a == "" {
      assert a + rest == rest;
    } else {
      assert (a + rest)[1..] == a[1..] + rest;
      DigitsInTurn(a[1..], rest, 10 * acc + (a[0] as int - '0' as int));
    }
  }

  lemma {:induction false} DecimalRead(n: nat)
    ensures Digits(Decimal(n), 0) == n
  {
    var last := [(n % 10 + '0' as int) as char];
    assert last[1..] == "";
    if n >= 10 {
      DecimalRead(n / 10);
      DigitsInTurn(Decimal(n / 10), last, 0);
    } else {
      assert "" + last == last;
    }
  }

  lemma NumberRead(n: nat, rest: string)
    requires rest == "" || !IsDigit(rest[0])
    ensures Strtoull(Decimal(n) + rest) == if n >= WORD then WORD - 1 else n
  {
    DecimalRead(n);
    DigitsInTurn(Decimal(n), rest, 0);
    assert (Decimal(n) + rest)[0] == Decimal(n)[0];
  }

  /** A number with a unit asks for that many bytes in sectors, as far as they are free;
      the bytes are counted modulo 2^64, so that a size of 2^64 or more is cut to what is
      free, as it should be, exactly when the remainder covers that too.  A number that does
      not fit 64 bits counts as the greatest that does, one unit short of 2^64 bytes. */
  lemma UnitSize(n: nat, c: char, plus: bool, max: nat)
    requires UnitOf(c) != 512 && max <= WORD / 512
    ensures var size := ParseSize(Signed(plus, Decimal(n) + [c]), max);
            && (n * UnitOf(c) < WORD ==> size == Min(n * UnitOf(c) / 512, max))
            && (n < WORD <= n * UnitOf(c) ==> (size == max <==> n * UnitOf(c) % WORD / 512 >= max))
            && (n >= WORD ==> size == Min((WORD - UnitOf(c)) / 512, max))
  {
    AnswerNumber(n, [c], Decimal(n) + [c], plus, max);
    SmallProduct(n * UnitOf(c));
    AtLeast(UnitOf(c), n);
    GreatestProduct(UnitOf(c));
  }

  // The greatest 64-bit number times a unit wraps to just below 2^64.
  lemma GreatestProduct(unit: nat)
    requires 0 < unit < WORD
    ensures (WORD - 1) * unit % WORD == WORD - unit
  {
    Multiple(unit - 1, WORD - unit);
    assert (WORD - 1) * unit == (unit - 1) * WORD + (WORD - unit);
  }

  lemma Multiple(q: nat, r: nat)
    requires r < WORD
    ensures (q * WORD + r) % WORD == r
  {
  }

  /** A number alone asks for that many sectors; nothing, or a plus sign alone, asks for
      all that are free. */
  lemma PlainSize(n: nat, plus: bool, max: nat)
    requires max < WORD
    ensures ParseSize(Signed(plus, Decimal(n)), max) == Min(n, max)
    ensures ParseSize("", max) == ParseSize("+", max) == max
  {
    assert Decimal(n) + "" == Decimal(n);
    AnswerNumber(n, "", Decimal(n), plus, max);
    assert "+"[1..] == "";
  }

  function Signed(plus: bool, text: string): string {
    if plus then "+" + text else text
  }

  lemma SmallProduct(x: nat)
    ensures x < WORD ==> x % WORD == x
  {
  }

  // The plus sign is dropped, the number read, the unit taken from the last character.
  lemma AnswerNumber(n: nat, rest: string, text: string, plus: bool, max: nat)
    requires |rest| <= 1 && (rest == "" || !IsDigit(rest[0])) && text == Decimal(n) + rest
    ensures ParseSize(Signed(plus, text), max) ==
            Min(SectorsOf(if n >= WORD then WORD - 1 else n, if rest == "" then 512 else UnitOf(rest[0])), max)
  {
    NumberRead(n, rest);
    LastUnit(Decimal(n), rest);
    SignDropped(text, plus, max);
  }

  lemma LastUnit(digits: string, rest: string)
    requires digits != "" && |rest| <= 1 && forall k :: 0 <= k < |digits| ==> IsDigit(digits[k])
    ensures (digits + rest)[0] == digits[0]
    ensures UnitOf((digits + rest)[|digits + rest| - 1]) == if rest == "" then 512 else UnitOf(rest[0])
  {
    if rest == "" {
      assert digits + rest == digits;
    }
  }

  lemma SignDropped(text: string, plus: bool, max: nat)
    requires text != "" && IsDigit(text[0])
    ensures ParseSize(Signed(plus, text), max) == ParseInput(text, max)
  {
    assert ("+" + text)[1..] == text;
  }
}
