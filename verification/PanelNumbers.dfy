/** Decimal numerals in panel settings and slot ids. */
module PanelNumbers {
  import opened Characters

  const DEFAULT_COUNT := 20
  const MAX_COUNT := 64
  const DEFAULT_EDIT_COLUMNS := 3
  const MIN_EDIT_COLUMNS := 2
  const MAX_EDIT_COLUMNS := 5

  predicate Digit(c: char) { '0' <= c <= '9' }

  /** Non-empty and made of ASCII digits only. */
  predicate Decimal(s: string) { |s| > 0 && forall i :: 0 <= i < |s| ==> Digit(s[i]) }

  function DigitValue(c: char): nat { if Digit(c) then c as nat - '0' as nat else 0 }

  function DigitChar(n: nat): char
    requires n < 10
  {
    ('0' as nat + n) as char
  }

  /** The number a numeral denotes. */
  function Value(s: string): nat { if |s| == 0 then 0 else 10 * Value(s[..|s| - 1]) + DigitValue(s[|s| - 1]) }

  /** The numeral of a number, without leading zeros. */
  function Show(n: nat): string { if n < 10 then [DigitChar(n)] else Show(n / 10) + [DigitChar(n % 10)] }

  lemma {:induction false} ShowIsDecimal(n: nat)
    ensures Decimal(Show(n)) && (n > 0 ==> Show(n)[0] != '0')
  {
    if n >= 10 { ShowIsDecimal(n / 10); }
  }

  /** Printing then reading gives the number back. */
  lemma {:induction false} ValueOfShow(n: nat)
    ensures Value(Show(n)) == n
  {
    if n < 10 {
      assert Show(n)[..0] == "";
    } else {
      ValueOfShow(n / 10);
      assert Show(n)[..|Show(n)| - 1] == Show(n / 10);
    }
  }

  lemma {:induction false} ValuePositive(s: string)
    requires Decimal(s) && s[0] != '0'
    ensures Value(s) > 0
  {
    if |s| > 1 { ValuePositive(s[..|s| - 1]); }
  }

  /** Reading then printing gives the numeral back, unless it starts with a zero. */
  lemma {:induction false} ShowOfValue(s: string)
    requires Decimal(s) && s[0] != '0'
    ensures Show(Value(s)) == s
  {
    var high, last := s[..|s| - 1], s[|s| - 1];
    assert s == high + [last] && DigitChar(DigitValue(last)) == last;
    if |s| > 1 {
      ShowOfValue(high);
      ValuePositive(high);
      assert Value(s) / 10 == Value(high) && Value(s) % 10 == DigitValue(last);
    } else {
      assert Value(high) == 0;
    }
  }

  /** A stored setting: a switch, text, a whole number, or anything else. */
  datatype Setting = Flag(on: bool) | Entered(text: string) | Whole(number: int) | Other

  function Strip(s: string): string {
    if |s| == 0 then s else if Space(s[0]) then Strip(s[1..]) else if Space(s[|s| - 1]) then Strip(s[..|s| - 1]) else s
  }

  /** The setting as a count if it is one between `low` and `high`, and `other` if not. */
  function Count(value: Setting, low: nat, high: nat, other: nat): (n: nat)
    requires low <= other <= high
    ensures low <= n <= high
  {
    var n := match value
      case Entered(text) => if Decimal(Strip(text)) then Value(Strip(text)) else other
      case Whole(number) => number
      case Flag(_) => 0
      case Other => other;
    if low <= n <= high then n else other
  }

  function ValueCount(value: Setting): (n: nat)
    ensures 1 <= n <= MAX_COUNT
  {
    Count(value, 1, MAX_COUNT, DEFAULT_COUNT)
  }

  function EditColumns(value: Setting): (n: nat)
    ensures MIN_EDIT_COLUMNS <= n <= MAX_EDIT_COLUMNS
  {
    Count(value, MIN_EDIT_COLUMNS, MAX_EDIT_COLUMNS, DEFAULT_EDIT_COLUMNS)
  }

  /** A count within the bounds is read back from its number and from its numeral, and any other number is replaced. */
  lemma CountReads(n: nat, low: nat, high: nat, other: nat)
    requires low <= other <= high
    ensures Count(Whole(n), low, high, other) == if low <= n <= high then n else other
    ensures Count(Entered(Show(n)), low, high, other) == Count(Whole(n), low, high, other)
  {
    ShowIsDecimal(n);
    ValueOfShow(n);
    var s := Show(n);
    hide Show, Value;
    assert !Space(s[0]) && !Space(s[|s| - 1]);
  }

  // ---------------------------------------------------------------- text settings

  predicate Blank(s: string) { forall i :: 0 <= i < |s| ==> Space(s[i]) }

  /** Stripping leaves what stands between white space. */
  lemma {:induction false} StripExact(a: string, d: string, b: string)
    requires Blank(a) && Blank(b) && |d| > 0 && !Space(d[0]) && !Space(d[|d| - 1])
    ensures Strip(a + d + b) == d
  {
    var s := a + d + b;
    hide Space;
    if |a| > 0 {
      assert s[0] == a[0] && s[1..] == a[1..] + d + b;
      StripExact(a[1..], d, b);
    } else if |b| > 0 {
      assert s[0] == d[0] && s[|s| - 1] == b[|b| - 1] && s[..|s| - 1] == a + d + b[..|b| - 1];
      StripExact(a, d, b[..|b| - 1]);
    } else {
      assert s == d;
    }
  }

  lemma {:induction false} StripParts(s: string) returns (i: nat, j: nat)
    ensures i <= j <= |s| && Blank(s[..i]) && Blank(s[j..]) && Strip(s) == s[i..j]
  {
    hide Space;
    i, j := 0, |s|;
    if |s| > 0 && Space(s[0]) {
      var k, l := StripParts(s[1..]);
      i, j := k + 1, l + 1;
      assert s[..i] == [s[0]] + s[1..][..k] && s[j..] == s[1..][l..] && s[i..j] == s[1..][k..l];
    } else if |s| > 0 && Space(s[|s| - 1]) {
      var init := s[..|s| - 1];
      i, j := StripParts(init);
      assert s[..i] == init[..i] && s[j..] == init[j..] + [s[|s| - 1]] && s[i..j] == init[i..j];
    }
  }

  /** A numeral between white space counts as its number, with leading zeros or without. */
  lemma CountOfNumeral(a: string, d: string, b: string, low: nat, high: nat, other: nat)
    requires low <= other <= high && Blank(a) && Blank(b) && Decimal(d)
    ensures Count(Entered(a + d + b), low, high, other) == if low <= Value(d) <= high then Value(d) else other
  {
    StripExact(a, d, b);
  }

  /** Part of the text is a numeral, and the rest white space around it. */
  predicate NumeralAt(s: string, i: nat, j: nat) {
    i <= j <= |s| && Blank(s[..i]) && Decimal(s[i..j]) && Blank(s[j..])
  }

  /** Any other text is replaced, and so are switches, if zero is too low, and settings of other kinds. */
  lemma OtherSettingsReplaced(text: string, on: bool, low: nat, high: nat, other: nat)
    requires low <= other <= high
    ensures (forall i, j :: !NumeralAt(text, i, j)) ==> Count(Entered(text), low, high, other) == other
    ensures low > 0 ==> Count(Flag(on), low, high, other) == other
    ensures Count(Other, low, high, other) == other
  {
    var i, j := StripParts(text);
    hide Strip, Value, Blank;
    assert Decimal(Strip(text)) ==> NumeralAt(text, i, j);
  }

  /** The panel shows 20 values unless 1 to 64 are asked for, and its editor 3 columns unless 2 to 5 are. */
  lemma PanelDefaults(n: int)
    ensures ValueCount(Whole(n)) == if 1 <= n <= 64 then n else 20
    ensures EditColumns(Whole(n)) == if 2 <= n <= 5 then n else 3
    ensures ValueCount(Other) == 20 && EditColumns(Other) == 3
  {}
}
