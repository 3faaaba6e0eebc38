/**
 * The archive menu labels: `formatQString(i, name)` writes `"<i+1>. <name>"`
 * and `getItemIndex(label)` reads the number before the first `.` back with
 * Qt's `QString::toInt`, which reports whether the text was a 32-bit integer.
 */
module Labels {

  /** The largest value `QString::toInt` accepts. */
  const IntMax: int := 0x7fff_ffff

  predicate IsDigit(c: char) {
    '0' <= c <= '9'
  }

  predicate AllDigits(s: string) {
    forall k :: 0 <= k < |s| ==> IsDigit(s[k])
  }

  function DigitChar(d: nat): char
    requires d < 10
  {
    ['0', '1', '2', '3', '4', '5', '6', '7', '8', '9'][d]
  }

  function DigitValue(c: char): nat
    requires IsDigit(c)
  {
    (c as int) - ('0' as int)
  }

  /** `str(n)`: the decimal digits of `n`, without leading zeros. */
  function Decimal(n: nat): (s: string)
    ensures s != [] && AllDigits(s)
    decreases n
  {
    if n < 10 then [DigitChar(n)] else Decimal(n / 10) + [DigitChar(n % 10)]
  }

  /** The value of a string of decimal digits. */
  function DigitsValue(s: string): nat
    requires AllDigits(s)
    decreases |s|
  {
    if s == [] then 0 else 10 * DigitsValue(s[..|s| - 1]) + DigitValue(s[|s| - 1])
  }

  /** Reading back the decimal digits of `n` gives `n`. */
  lemma {:induction false} DecimalRoundTrip(n: nat)
    ensures DigitsValue(Decimal(n)) == n
    decreases n
  {
    var s := Decimal(n);
    if n < 10 {
      assert DigitValue(DigitChar(n)) == n;
      assert s[..|s| - 1] == [];
    } else {
      DecimalRoundTrip(n / 10);
      assert s[..|s| - 1] == Decimal(n / 10);
      assert DigitValue(DigitChar(n % 10)) == n % 10;
    }
  }

  /**
   * `QString::toInt()` for base 10: an optional sign and at least one digit,
   * within the 32-bit range; anything else gives `(0, false)`.
   */
  function ToInt(s: string): (result: (int, bool))
    ensures !result.1 ==> result.0 == 0
    ensures result.1 ==> -IntMax - 1 <= result.0 <= IntMax
  {
    var negative := s != [] && s[0] == '-';
    var digits := if s != [] && (s[0] == '-' || s[0] == '+') then s[1..] else s;
    if digits == [] || !AllDigits(digits) then (0, false)
    else
      var value: int := DigitsValue(digits);
      var v := if negative then -value else value;
      if -IntMax - 1 <= v <= IntMax then (v, true) else (0, false)
  }

  /** `s.split('.').first()`: the text before the first `.`, or all of `s`. */
  function FirstField(s: string): (field: string)
    ensures |field| <= |s| && field == s[..|field|]
    ensures '.' !in field
    ensures |field| < |s| ==> s[|field|] == '.'
    decreases |s|
  {
    if s == [] || s[0] == '.' then [] else [s[0]] + FirstField(s[1..])
  }

  /** `formatQString(index, item)`. */
  function FormatQString(index: nat, item: string): string {
    Decimal(index + 1) + ". " + item
  }

  /** `getItemIndex(item)`. */
  function GetItemIndex(item: string): (int, bool) {
    ToInt(FirstField(item))
  }

  /** `formatQStringList(names)`: the labels of all names, numbered from 1. */
  function FormatQStringList(names: seq<string>): (labels: seq<string>)
    ensures |labels| == |names|
    ensures forall i :: 0 <= i < |names| ==> labels[i] == FormatQString(i, names[i])
  {
    seq(|names|, i requires 0 <= i < |names| => FormatQString(i, names[i]))
  }

  lemma FirstFieldOfDigits(digits: string, rest: string)
    requires AllDigits(digits)
    ensures FirstField(digits + ['.'] + rest) == digits
  {
    var s := digits + ['.'] + rest;
    assert s[|digits|] == '.';
  }

  /**
   * The label round trip: the index read back from the label of entry
   * `index` is `index + 1` with success, for any name, as long as
   * `index + 1` fits in a 32-bit integer.
   */
  lemma LabelRoundTrip(index: nat, name: string)
    ensures GetItemIndex(FormatQString(index, name))
         == if index + 1 <= IntMax then (index + 1, true) else (0, false)
  {
    var digits := Decimal(index + 1);
    assert FormatQString(index, name) == digits + ['.'] + (" " + name);
    FirstFieldOfDigits(digits, " " + name);
    DecimalRoundTrip(index + 1);
    assert digits[0] != '-' && digits[0] != '+';
  }

  /** Every menu entry of `updateArchiveFiles` maps back to its own position in the list. */
  lemma MenuIndicesRecovered(names: seq<string>, i: nat)
    requires i < |names| < IntMax
    ensures var (index, ok) := GetItemIndex(FormatQStringList(names)[i]);
      ok && index - 1 == i
  {
    LabelRoundTrip(i, names[i]);
  }
}
