/** How a client reads the server's lines: cut at line ends and spaces, with the numbers that stand there. */
module Readers {
  import opened Text
  import opened Mailbox
  import opened Session

  // ---------- cutting ----------

  function Before(s: string, c: char): string {
    if s == "" || s[0] == c then "" else [s[0]] + Before(s[1..], c)
  }

  function Behind(s: string, c: char): (r: string)
    ensures s != "" ==> |r| < |s|
  {
    if s == "" then "" else if s[0] == c then s[1..] else Behind(s[1..], c)
  }

  /** The word behind `k` spaces. */
  function Nth(s: string, k: nat): string
    decreases k
  {
    if k == 0 then Before(s, ' ') else Nth(Behind(s, ' '), k - 1)
  }

  function WithoutCR(l: string): string {
    if l != "" && l[|l| - 1] == '\r' then l[..|l| - 1] else l
  }

  /** The lines of a text, without their ends. */
  function TextLines(s: string): seq<string>
    decreases |s|
  {
    if s == "" then [] else [WithoutCR(Before(s, '\n'))] + TextLines(Behind(s, '\n'))
  }

  lemma {:induction false} Cut(a: string, c: char, b: string)
    requires c !in a
    ensures Before(a + [c] + b, c) == a && Behind(a + [c] + b, c) == b
  {
    var s := a + [c] + b;
    if a == "" {
      assert s[0] == c && s[1..] == b;
    } else {
      assert s[0] == a[0] && s[1..] == a[1..] + [c] + b;
      Cut(a[1..], c, b);
    }
  }

  lemma {:induction false} NothingToCut(a: string, c: char)
    requires c !in a
    ensures Before(a, c) == a
  {
    if a != "" {
      NothingToCut(a[1..], c);
    }
  }

  lemma FirstLine(l: string, rest: string)
    requires '\n' !in l
    ensures TextLines(l + "\r\n" + rest) == [l] + TextLines(rest)
  {
    assert l + "\r\n" + rest == (l + "\r") + ['\n'] + rest;
    Cut(l + "\r", '\n', rest);
    assert (l + "\r")[..|l|] == l;
  }

  // ---------- numbers ----------

  predicate Numeral(s: string) {
    s != "" && forall i | 0 <= i < |s| :: '0' <= s[i] <= '9'
  }

  /** The number that decimal digits stand for. */
  function Value(s: string): nat
    requires forall i | 0 <= i < |s| :: '0' <= s[i] <= '9'
  {
    if s == "" then 0 else 10 * Value(s[..|s| - 1]) + (s[|s| - 1] as int - 48)
  }

  /** The number a word stands for, or 0. */
  function NumberIn(word: string): nat {
    if Numeral(word) then Value(word) else 0
  }

  lemma {:induction false} UnsignedValue(n: nat)
    ensures Numeral(Unsigned(n)) && Value(Unsigned(n)) == n
  {
    if n < 10 {
      assert Unsigned(n)[..0] == "";
    } else {
      var tens := Unsigned(n / 10);
      UnsignedValue(n / 10);
      assert Unsigned(n)[..|tens|] == tens;
    }
  }

  lemma DecimalRead(n: nat)
    ensures Numeral(Decimal(n)) && NumberIn(Decimal(n)) == n
    ensures ' ' !in Decimal(n) && '\n' !in Decimal(n) && '\r' !in Decimal(n)
  {
    UnsignedValue(n);
  }

  lemma DecimalHasNoLine(n: int)
    ensures '\n' !in Decimal(n) && ' ' !in Decimal(n)
  {
  }

  /** atoi reads an optional sign and the digits behind it, and nothing else; without a digit it reads 0. */
  function Signless(s: string): string {
    if s != "" && (s[0] == '+' || s[0] == '-') then s[1..] else s
  }

  function DigitsOf(s: string): (d: string)
    ensures forall i | 0 <= i < |d| :: '0' <= d[i] <= '9'
    ensures d <= s && (|d| < |s| ==> !('0' <= s[|d|] <= '9'))
  {
    if s == "" || !('0' <= s[0] <= '9') then "" else [s[0]] + DigitsOf(s[1..])
  }

  lemma {:induction false} LeadingIsValue(d: string)
    requires forall i | 0 <= i < |d| :: '0' <= d[i] <= '9'
    ensures LeadingDigits(d, 0) == Value(d)
  {
    if d != "" {
      var before := d[..|d| - 1];
      LeadingIsValue(before);
      LeadingDigitsAppend(before, d[|d| - 1], 0);
      assert d == before + [d[|d| - 1]];
    }
  }

  lemma {:induction false} LeadingStops(s: string, acc: nat)
    ensures LeadingDigits(s, acc) == LeadingDigits(DigitsOf(s), acc)
  {
    if s != "" && IsDigit(s[0]) {
      assert DigitsOf(s)[1..] == DigitsOf(s[1..]);
      LeadingStops(s[1..], 10 * acc + (s[0] as int - '0' as int));
    }
  }

  /** What atoi makes of any argument whose number fits an int; in particular 0 of one that has no number. */
  lemma AtoiExactly(s: string)
    ensures var v: int := Value(DigitsOf(Signless(s)));
            var n := if s != "" && s[0] == '-' then -v else v;
            -0x8000_0000 <= n <= 0x7fff_ffff ==> Atoi(s) == n
  {
    hide LeadingDigits, Truncate32, Clamp64, DigitsOf, Value;
    var b := Signless(s);
    LeadingStops(b, 0);
    LeadingIsValue(DigitsOf(b));
    var v: int := Value(DigitsOf(b));
    if v <= INT32_MAX {
      InRange(v);
    }
    if -INT32_MAX - 1 <= -v {
      InRange(-v);
    }
  }

  /** An argument that has no digit where a number would start names no mail. */
  lemma NoNumberNoMail(s: string, mails: seq<Mail>)
    requires DigitsOf(Signless(s)) == ""
    ensures Atoi(s) == 0 && !ValidMailNo(mails, Atoi(s))
  {
    hide Atoi;
    AtoiExactly(s);
  }

  lemma AtoiNumeral(s: string)
    requires Numeral(s) && Value(s) <= 0x7fff_ffff
    ensures Atoi(s) == Value(s)
  {
    hide Atoi, Value;
    AtoiExactly(s);
    AllDigits(s);
    assert Signless(s) == s;
  }

  lemma {:induction false} AllDigits(s: string)
    requires forall i | 0 <= i < |s| :: '0' <= s[i] <= '9'
    ensures DigitsOf(s) == s
  {
    if s != "" {
      AllDigits(s[1..]);
    }
  }

  // ---------- the server's lines ----------

  /** The two numbers of a line of LIST. */
  function ReadPair(line: string): MailInfo {
    MailInfo(NumberIn(Before(line, ' ')), NumberIn(Behind(line, ' ')))
  }

  /** A line about a mail is read as its number and its size. */
  lemma ListLineRead(number: nat, size: nat, rest: string)
    ensures exists l ::
              && TextLines(ListLine(MailInfo(number, size)) + rest) == [l] + TextLines(rest)
              && ReadPair(l) == MailInfo(number, size) && Numeral(Before(l, ' '))
  {
    hide Decimal, TextLines, Before, Behind;
    DecimalRead(number);
    DecimalRead(size);
    var l := Decimal(number) + " " + Decimal(size);
    Cut(Decimal(number), ' ', Decimal(size));
    FirstLine(l, rest);
    assert ListLine(MailInfo(number, size)) == l + "\r\n";
  }

  /** A line about whatever numbers is one line. */
  lemma ListLineIsOne(info: MailInfo, rest: string)
    ensures exists l :: TextLines(ListLine(info) + rest) == [l] + TextLines(rest)
  {
    hide Decimal, TextLines;
    DecimalHasNoLine(info.mailNo);
    DecimalHasNoLine(info.sizeInBytes);
    var l := Decimal(info.mailNo) + " " + Decimal(info.sizeInBytes);
    FirstLine(l, rest);
    assert ListLine(info) == l + "\r\n";
  }

  /** One line that says that all is well, with two numbers behind. */
  ghost predicate SaysTwo(reply: string, a: int, b: int) {
    exists l ::
      TextLines(reply) == [l] && Nth(l, 0) == "+OK" && NumberIn(Nth(l, 1)) == a && NumberIn(Nth(l, 2)) == b
  }

  /** The words of a line, when they are put together with spaces. */
  lemma FirstWord(a: string, rest: string)
    requires ' ' !in a
    ensures Nth(a + " " + rest, 0) == a && forall k: nat :: Nth(a + " " + rest, k + 1) == Nth(rest, k)
  {
    hide Before, Behind;
    Cut(a, ' ', rest);
    assert a + " " + rest == a + [' '] + rest;
  }

  lemma LastWord(a: string)
    requires ' ' !in a
    ensures Nth(a, 0) == a
  {
    NothingToCut(a, ' ');
  }

  lemma ThreeWords(a: string, b: string, c: string)
    requires ' ' !in a && ' ' !in b && ' ' !in c
    ensures var l := a + " " + (b + " " + c);
            Nth(l, 0) == a && Nth(l, 1) == b && Nth(l, 2) == c
  {
    hide Nth;
    FirstWord(a, b + " " + c);
    FirstWord(b, c);
    LastWord(c);
    assert Nth(a + " " + (b + " " + c), 0 + 1) == Nth(b + " " + c, 0);
    assert Nth(a + " " + (b + " " + c), 1 + 1) == Nth(b + " " + c, 0 + 1);
  }

  lemma NoLines()
    ensures TextLines("") == []
  {
  }

  lemma OneLine(l: string)
    requires '\n' !in l
    ensures TextLines(l + "\r\n") == [l]
  {
    hide TextLines;
    FirstLine(l, "");
    NoLines();
    assert l + "\r\n" + "" == l + "\r\n";
  }

  lemma OkTwo(a: string, b: string)
    ensures "+OK " + a + " " + b + "\r\n" == "+OK" + " " + (a + " " + b) + "\r\n"
  {
    assert "+OK " == "+OK" + " ";
  }

  lemma TwoRead(a: nat, b: nat)
    ensures SaysTwo("+OK " + Decimal(a) + " " + Decimal(b) + "\r\n", a, b)
  {
    hide Decimal, TextLines, Nth, NumberIn;
    DecimalRead(a);
    DecimalRead(b);
    var l := "+OK" + " " + (Decimal(a) + " " + Decimal(b));
    ThreeWords("+OK", Decimal(a), Decimal(b));
    OneLine(l);
    OkTwo(Decimal(a), Decimal(b));
  }

  lemma HeaderText(n: string)
    ensures "+OK There are " + n + " messages available\r\n" ==
            "+OK" + " " + ("There" + " " + ("are" + " " + (n + " " + "messages available"))) + "\r\n"
  {
    assert "+OK There are " == "+OK" + " " + ("There" + " " + ("are" + " "));
    assert " messages available\r\n" == " " + "messages available" + "\r\n";
  }

  lemma HeaderWords(n: string)
    requires ' ' !in n
    ensures var l := "+OK" + " " + ("There" + " " + ("are" + " " + (n + " " + "messages available")));
            Nth(l, 0) == "+OK" && Nth(l, 3) == n
  {
    hide Nth;
    var l1 := n + " " + "messages available";
    var l2 := "are" + " " + l1;
    var l3 := "There" + " " + l2;
    FirstWord("+OK", l3);
    FirstWord("There", l2);
    FirstWord("are", l1);
    FirstWord(n, "messages available");
    assert Nth("+OK" + " " + l3, 2 + 1) == Nth(l3, 1 + 1) == Nth(l2, 0 + 1) == Nth(l1, 0);
  }

  /** The header of LIST says how many mails there are. */
  lemma HeaderRead(amount: nat, rest: string)
    ensures exists l ::
              && TextLines(ListHeader(amount) + rest) == [l] + TextLines(rest)
              && Nth(l, 0) == "+OK" && NumberIn(Nth(l, 3)) == amount
  {
    hide Decimal, TextLines, Nth, NumberIn;
    DecimalRead(amount);
    var n := Decimal(amount);
    HeaderText(n);
    HeaderWords(n);
    var l := "+OK" + " " + ("There" + " " + ("are" + " " + (n + " " + "messages available")));
    NoNewline(n);
    FirstLine(l, rest);
  }

  lemma NoNewline(n: string)
    requires '\n' !in n
    ensures '\n' !in "+OK" + " " + ("There" + " " + ("are" + " " + (n + " " + "messages available")))
  {
    assert '\n' !in "There" && '\n' !in "are" && '\n' !in "messages available";
  }
}
