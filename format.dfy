/** Display formatting of dollar amounts: "$1,234" and "$1,234/mo". The
    amount is rounded to a whole number of dollars and written with en-US digit
    grouping (a comma before every three digits counted from the right). */
module CurrencyFormat {

  /** `Math.round`: the nearest integer, a half rounded up toward +infinity. */
  function Round(x: real): (n: int)
    ensures (n as real) - 0.5 <= x < (n as real) + 0.5
  {
    (x + 0.5).Floor
  }

  predicate IsDigit(c: char)
  {
    '0' <= c <= '9'
  }

  predicate IsDigits(s: string)
  {
    forall i :: 0 <= i < |s| ==> IsDigit(s[i])
  }

  function DigitChar(d: nat): (c: char)
    requires d < 10
    ensures IsDigit(c)
  {
    "0123456789"[d]
  }

  function DigitValue(c: char): nat
  {
    if IsDigit(c) then c as int - '0' as int else 0
  }

  /** Decimal digits of n, most significant first, without leading zeros. */
  function Digits(n: nat): (s: string)
    ensures |s| >= 1 && IsDigits(s)
    ensures |s| > 1 ==> s[0] != '0'
  {
    if n < 10 then [DigitChar(n)] else Digits(n / 10) + [DigitChar(n % 10)]
  }

  /** Inserts a comma before every complete group of three characters counted
      from the right: "1234567" becomes "1,234,567". A non-empty string gains
      (|d| - 1) / 3 commas. */
  function Group(d: string): (s: string)
    ensures |d| >= 1 ==> |s| == |d| + (|d| - 1) / 3
    decreases |d|
  {
    if |d| <= 3 then d else Group(d[..|d| - 3]) + "," + d[|d| - 3..]
  }

  /** The shape of en-US grouped digits: a character is a comma exactly when
      its distance from the end is 3 modulo 4, and every other one is a
      digit. */
  predicate GroupedShape(s: string)
  {
    forall i :: 0 <= i < |s| ==> (s[i] == ',' <==> (|s| - 1 - i) % 4 == 3) && (s[i] == ',' || IsDigit(s[i]))
  }

  lemma GroupedShapeStep(g: string, lo: string)
    requires GroupedShape(g) && |lo| == 3 && IsDigits(lo)
    ensures GroupedShape(g + "," + lo)
  {
    var s := g + "," + lo;
    forall i | 0 <= i < |s|
      ensures (s[i] == ',' <==> (|s| - 1 - i) % 4 == 3) && (s[i] == ',' || IsDigit(s[i]))
    {
      if i < |g| {
        var k := |g| - 1 - i;
        assert s[i] == g[i];
        assert |s| - 1 - i == k + 4;
        assert (k + 4) % 4 == k % 4;
      } else if i > |g| {
        assert s[i] == lo[i - |g| - 1];
        assert 0 <= |s| - 1 - i < 3;
      }
    }
  }

  /** Grouping a string of digits yields the grouped shape. */
  lemma {:induction false} GroupLayout(d: string)
    requires IsDigits(d)
    ensures GroupedShape(Group(d))
    decreases |d|
  {
    if |d| > 3 {
      var hi, lo := d[..|d| - 3], d[|d| - 3..];
      assert IsDigits(hi) by {
        forall i | 0 <= i < |hi| ensures IsDigit(hi[i]) { assert hi[i] == d[i]; }
      }
      assert IsDigits(lo) by {
        forall i | 0 <= i < |lo| ensures IsDigit(lo[i]) { assert lo[i] == d[|d| - 3 + i]; }
      }
      GroupLayout(hi);
      GroupedShapeStep(Group(hi), lo);
    } else {
      assert Group(d) == d;
      forall i | 0 <= i < |d| ensures (d[i] == ',' <==> (|d| - 1 - i) % 4 == 3) && (d[i] == ',' || IsDigit(d[i])) {
        assert IsDigit(d[i]);
      }
    }
  }

  /** `Number.prototype.toLocaleString` on a whole number, en-US: a minus
      sign for negatives, then the grouped digits of the magnitude. */
  function LocaleString(i: int): (s: string)
    ensures |s| >= 1
    ensures i < 0 <==> s[0] == '-'
    ensures GroupedShape(if i < 0 then s[1..] else s)
    ensures ParseDigits(StripCommas(if i < 0 then s[1..] else s)) == if i < 0 then -i else i
  {
    var mag: nat := if i < 0 then -i else i;
    GroupLayout(Digits(mag));
    StripCommasOfGroup(Digits(mag));
    ParseDigitsOfDigits(mag);
    if i < 0 then "-" + Group(Digits(mag)) else Group(Digits(mag))
  }

  /** A dollar amount rounded to whole dollars: "$" and the grouped digits. */
  function FormatCurrency(amount: real): (s: string)
    ensures |s| >= 2 && s[0] == '$'
  {
    "$" + LocaleString(Round(amount))
  }

  /** A monthly amount: the currency form followed by "/mo". */
  function FormatMonthlyPayment(amount: real): (s: string)
    ensures |s| >= 5 && s[0] == '$' && s[|s| - 3..] == "/mo"
    ensures s[..|s| - 3] == FormatCurrency(amount)
  {
    FormatCurrency(amount) + "/mo"
  }

  /** Drops the grouping commas. */
  function StripCommas(s: string): string
  {
    if s == [] then [] else (if s[0] == ',' then [] else [s[0]]) + StripCommas(s[1..])
  }

  /** Reads a string of decimal digits back as a number. */
  function ParseDigits(s: string): nat
  {
    if s == [] then 0 else 10 * ParseDigits(s[..|s| - 1]) + DigitValue(s[|s| - 1])
  }

  /** Reads a formatted currency string back as the whole-dollar amount it
      shows. */
  function ParseCurrency(s: string): int
    requires |s| >= 1
  {
    var t := s[1..];
    if |t| >= 1 && t[0] == '-' then -(ParseDigits(StripCommas(t[1..])) as int) else ParseDigits(StripCommas(t))
  }

  lemma {:induction false} ParseDigitsOfDigits(n: nat)
    ensures ParseDigits(Digits(n)) == n
  {
    if n >= 10 {
      ParseDigitsOfDigits(n / 10);
      var s := Digits(n);
      assert s[..|s| - 1] == Digits(n / 10);
    }
  }

  lemma {:induction false} StripCommasAppend(a: string, b: string)
    ensures StripCommas(a + b) == StripCommas(a) + StripCommas(b)
  {
    if a != [] {
      StripCommasAppend(a[1..], b);
      assert (a + b)[1..] == a[1..] + b;
    } else {
      assert a + b == b;
    }
  }

  lemma {:induction false} StripCommasOfDigits(d: string)
    requires IsDigits(d)
    ensures StripCommas(d) == d
  {
    if d != [] {
      StripCommasOfDigits(d[1..]);
    }
  }

  /** Removing the grouping commas gives back the digits. */
  lemma {:induction false} StripCommasOfGroup(d: string)
    requires IsDigits(d)
    ensures StripCommas(Group(d)) == d
    decreases |d|
  {
    if |d| <= 3 {
      StripCommasOfDigits(d);
    } else {
      var hi, lo := d[..|d| - 3], d[|d| - 3..];
      var g := Group(hi);
      calc {
        StripCommas(Group(d));
        StripCommas(g + "," + lo);
        { StripCommasAppend(g + ",", lo); }
        StripCommas(g + ",") + StripCommas(lo);
        { StripCommasAppend(g, ","); }
        StripCommas(g) + StripCommas(",") + StripCommas(lo);
        { StripCommasOfGroup(hi); StripCommasOfDigits(lo); }
        hi + StripCommas(",") + lo;
        hi + lo;
        d;
      }
    }
  }

  /** The displayed string determines the rounded amount: reading it back
      gives exactly Math.round of the input. */
  lemma FormatCurrencyRoundTrip(amount: real)
    ensures ParseCurrency(FormatCurrency(amount)) == Round(amount)
  {
    var n := Round(amount);
    var mag: nat := if n < 0 then -n else n;
    StripCommasOfGroup(Digits(mag));
    ParseDigitsOfDigits(mag);
    var g := Group(Digits(mag));
    assert g[0] != '-';
    if n < 0 {
      assert FormatCurrency(amount)[1..] == "-" + g;
      assert ("-" + g)[1..] == g;
    } else {
      assert FormatCurrency(amount)[1..] == g;
    }
  }
}
