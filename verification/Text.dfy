/** C text helpers the server relies on: printf's %d, atoi, strcasecmp. */
module Text {

  datatype Option<+T> = None | Some(value: T)

  const INT32_MAX: int := 0x7fff_ffff
  const INT64_MAX: int := 0x7fff_ffff_ffff_ffff
  const UINT64_MAX: int := 0xffff_ffff_ffff_ffff
  const CRLF: string := "\r\n"

  function Min(a: int, b: int): int {
    if a < b then a else b
  }

  // ---------- numbers to text ----------

  predicate IsDigit(c: char) {
    '0' <= c <= '9'
  }

  function Digit(d: nat): (c: char)
    requires d < 10
    ensures IsDigit(c)
  {
    ('0' as int + d) as char
  }

  function Unsigned(n: nat): (s: string)
    ensures s != "" && forall i | 0 <= i < |s| :: IsDigit(s[i])
  {
    if n < 10 then [Digit(n)] else Unsigned(n / 10) + [Digit(n % 10)]
  }

  /** What printf writes for %d, %ld and %lld. */
  function Decimal(n: int): string {
    if n < 0 then "-" + Unsigned(-n) else Unsigned(n)
  }

  function Pow10(k: nat): nat {
    if k == 0 then 1 else 10 * Pow10(k - 1)
  }

  lemma {:induction false} UnsignedLength(n: nat, k: nat)
    requires k > 0 && n < Pow10(k)
    ensures |Unsigned(n)| <= k
  {
    if n >= 10 {
      UnsignedLength(n / 10, k - 1);
    }
  }

  /** An int prints in at most 11 characters, a long in at most 20. */
  lemma DecimalLength(n: int)
    ensures -INT32_MAX - 1 <= n <= INT32_MAX ==> |Decimal(n)| <= 11
    ensures -INT64_MAX - 1 <= n <= INT64_MAX ==> |Decimal(n)| <= 20
    ensures 0 <= n <= UINT64_MAX ==> |Decimal(n)| <= 20
  {
    var m: nat := if n < 0 then -n else n;
    assert Pow10(10) == 1_0000_0000_00 by { PowersOfTen(); }
    assert Pow10(19) == 1_0000_0000_0000_0000_000 by { PowersOfTen(); }
    if m < Pow10(10) {
      UnsignedLength(m, 10);
    }
    assert Pow10(20) == 10 * Pow10(19);
    if m < Pow10(19) {
      UnsignedLength(m, 19);
    }
    if m < Pow10(20) {
      UnsignedLength(m, 20);
    }
  }

  lemma PowersOfTen()
    ensures Pow10(10) == 1_0000_0000_00
    ensures Pow10(19) == 1_0000_0000_0000_0000_000
  {
    assert Pow10(5) == 100000;
    assert Pow10(10) == 1_0000_0000_00;
    assert Pow10(15) == 1_0000_0000_0000_000;
  }

  // ---------- text to numbers ----------

  /** The value of the longest run of digits `s` starts with, after `acc`. */
  function LeadingDigits(s: string, acc: nat): nat {
    if s == "" || !IsDigit(s[0]) then acc
    else LeadingDigits(s[1..], 10 * acc + (s[0] as int - '0' as int))
  }

  function Clamp64(n: int): int {
    if n > INT64_MAX then INT64_MAX
    else if n < -INT64_MAX - 1 then -INT64_MAX - 1
    else n
  }

  function Truncate32(n: int): int {
    (n + INT32_MAX + 1) % (2 * (INT32_MAX + 1)) - INT32_MAX - 1
  }

  /** atoi as the C library computes it: strtol, which saturates at 64 bits, cut to 32 bits.
      The arguments it gets here hold no white space. */
  function Atoi(s: string): int {
    var signed := s != "" && (s[0] == '-' || s[0] == '+');
    var magnitude: int := LeadingDigits(if signed then s[1..] else s, 0);
    Truncate32(Clamp64(if signed && s[0] == '-' then -magnitude else magnitude))
  }

  lemma {:induction false} LeadingDigitsAppend(s: string, d: char, acc: nat)
    requires IsDigit(d) && forall i | 0 <= i < |s| :: IsDigit(s[i])
    ensures LeadingDigits(s + [d], acc) == 10 * LeadingDigits(s, acc) + (d as int - '0' as int)
  {
    if s == "" {
      assert (s + [d])[1..] == "";
    } else {
      assert (s + [d])[1..] == s[1..] + [d];
      LeadingDigitsAppend(s[1..], d, 10 * acc + (s[0] as int - '0' as int));
    }
  }

  lemma {:induction false} LeadingDigitsUnsigned(n: nat)
    ensures LeadingDigits(Unsigned(n), 0) == n
  {
    if n < 10 {
      assert Unsigned(n)[1..] == "";
    } else {
      LeadingDigitsUnsigned(n / 10);
      LeadingDigitsAppend(Unsigned(n / 10), Digit(n % 10), 0);
    }
  }

  lemma UnsignedReadBack(n: nat)
    ensures LeadingDigits(Unsigned(n), 0) == n
    ensures Unsigned(n)[0] != '-' && Unsigned(n)[0] != '+'
  {
    LeadingDigitsUnsigned(n);
    assert IsDigit(Unsigned(n)[0]);
  }

  lemma InRange(n: int)
    requires -INT32_MAX - 1 <= n <= INT32_MAX
    ensures Truncate32(Clamp64(n)) == n
  {
  }

  /** Every int the server prints, such as a mail number in LIST, is read back as itself. */
  lemma AtoiDecimal(n: int)
    requires -INT32_MAX - 1 <= n <= INT32_MAX
    ensures Atoi(Decimal(n)) == n
  {
    hide Unsigned, LeadingDigits, Truncate32, Clamp64;
    InRange(n);
    if n < 0 {
      UnsignedReadBack(-n);
      assert Decimal(n)[0] == '-' && Decimal(n)[1..] == Unsigned(-n);
    } else {
      UnsignedReadBack(n);
    }
  }

  // ---------- comparison ----------

  function Lower(c: char): char {
    if 'A' <= c <= 'Z' then (c as int - 'A' as int + 'a' as int) as char else c
  }

  /** strcasecmp(a, b) == 0 */
  predicate SameIgnoringCase(a: string, b: string) {
    |a| == |b| && forall i | 0 <= i < |a| :: Lower(a[i]) == Lower(b[i])
  }

  /** All the elements of `pieces`, joined. */
  function Concat(pieces: seq<string>): string {
    if pieces == [] then "" else pieces[0] + Concat(pieces[1..])
  }

  lemma {:induction false} ConcatAppend(pieces: seq<string>, last: string)
    ensures Concat(pieces + [last]) == Concat(pieces) + last
  {
    if pieces == [] {
      assert [last][1..] == [];
    } else {
      assert (pieces + [last])[1..] == pieces[1..] + [last];
      ConcatAppend(pieces[1..], last);
    }
  }
}
