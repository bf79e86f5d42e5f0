/** Integers as decimal text, as the stores keep them and as they are parsed back. */
module Text {
  import opened Types

  const I64_MIN: int := -0x8000_0000_0000_0000
  const I64_MAX: int := 0x7FFF_FFFF_FFFF_FFFF

  /** The 64-bit range. */
  predicate InI64(i: int) { I64_MIN <= i <= I64_MAX }

  function Digit(d: nat): char
    requires d < 10
  {
    ('0' as int + d) as char
  }

  predicate IsDigit(c: char) { '0' <= c <= '9' }

  function Digits(n: nat): string {
    if n < 10 then [Digit(n)] else Digits(n / 10) + [Digit(n % 10)]
  }

  function Print(i: int): string {
    if i < 0 then "-" + Digits(-i) else Digits(i)
  }

  function ReadDigits(s: string): Option<nat>
    decreases |s|
  {
    if s == [] || !IsDigit(s[|s| - 1]) then None
    else
      var last := s[|s| - 1] as int - '0' as int;
      if |s| == 1 then Some(last)
      else
        match ReadDigits(s[..|s| - 1])
        case None => None
        case Some(front) => Some(10 * front + last)
  }

  /** Optional sign, digits only, in range. */
  function ParseI64(s: string): Option<int> {
    var signed := s != [] && (s[0] == '-' || s[0] == '+');
    match ReadDigits(if signed then s[1..] else s)
    case None => None
    case Some(n) =>
      var size: int := n;
      var i := if signed && s[0] == '-' then -size else size;
      if InI64(i) then Some(i) else None
  }

  function OrZero(i: Option<int>): int { if i.Some? then i.value else 0 }

  lemma {:induction false} ReadPrinted(n: nat)
    ensures ReadDigits(Digits(n)) == Some(n)
    ensures |Digits(n)| > 0 && forall i :: 0 <= i < |Digits(n)| ==> IsDigit(Digits(n)[i])
  {
    if n >= 10 {
      ReadPrinted(n / 10);
      var s := Digits(n);
      assert s[..|s| - 1] == Digits(n / 10);
    }
  }

  /** What is printed parses back, if it is in range. */
  lemma PrintParses(i: int)
    ensures ParseI64(Print(i)) == if InI64(i) then Some(i) else None
  {
    var n := if i < 0 then -i else i;
    ReadPrinted(n);
    if i < 0 {
      assert Print(i)[1..] == Digits(n);
    } else {
      assert IsDigit(Print(i)[0]);
    }
  }

  /** A plus sign is allowed, a sign alone or no text at all is not a number. */
  lemma SignsParse(n: nat)
    ensures ParseI64("+" + Digits(n)) == if InI64(n) then Some(n) else None
    ensures ParseI64("") == None && ParseI64("-") == None && ParseI64("+") == None
  {
    ReadPrinted(n);
    assert ("+" + Digits(n))[1..] == Digits(n);
  }

  /** Text with anything but digits after the sign does not parse. */
  lemma {:induction false} ReadOnlyDigits(s: string)
    ensures ReadDigits(s).Some? ==> forall i :: 0 <= i < |s| ==> IsDigit(s[i])
    decreases |s|
  {
    if |s| > 1 && IsDigit(s[|s| - 1]) {
      ReadOnlyDigits(s[..|s| - 1]);
      forall i | 0 <= i < |s| && ReadDigits(s).Some? ensures IsDigit(s[i]) {
        assert i < |s| - 1 ==> s[i] == s[..|s| - 1][i];
      }
    }
  }

  lemma NeverParses(s: string, i: nat)
    requires i < |s| && !IsDigit(s[i]) && (i > 0 || (s[0] != '-' && s[0] != '+'))
    ensures ParseI64(s).None?
  {
    ReadOnlyDigits(s);
    ReadOnlyDigits(s[1..]);
    assert i > 0 ==> s[1..][i - 1] == s[i];
  }
}
