/**
 * The data the cache stores: raw bytes, the JSON content of `.info` files,
 * and the `"%Y-%m-%d %H:%M:%S"` timestamps inside them.
 */
module Formats {
  import opened Results

  newtype byte = x: int | 0 <= x < 256
  type Bytes = seq<byte>

  /**
   * A JSON value as `json.load` returns it. Strings and lists are the shapes
   * the source inspects; numbers, booleans, null and nested objects are opaque.
   */
  datatype Value = Str(s: string) | Arr(items: seq<Value>) | Opaque(literal: string)

  /** The content of an `.info` file: one JSON object. */
  type Info = map<string, Value>

  /** A `datetime` with a resolution of one second. */
  datatype Stamp = Stamp(year: int, month: int, day: int, hour: int, minute: int, second: int)

  predicate IsDigit(c: char) {
    '0' <= c <= '9'
  }

  predicate AllDigits(s: string) {
    forall i :: 0 <= i < |s| ==> IsDigit(s[i])
  }

  /** The value of a string of decimal digits. */
  function Number(s: string): nat
    requires AllDigits(s)
  {
    if |s| == 0 then 0 else 10 * Number(s[..|s| - 1]) + (s[|s| - 1] as int - '0' as int)
  }

  predicate IsLeapYear(y: int) {
    y % 4 == 0 && (y % 100 != 0 || y % 400 == 0)
  }

  function DaysInMonth(y: int, m: int): int
    requires 1 <= m <= 12
  {
    if m == 2 then (if IsLeapYear(y) then 29 else 28)
    else if m == 4 || m == 6 || m == 9 || m == 11 then 30
    else 31
  }

  /** The fields `datetime` accepts: year 1..9999, a real day of the month, 0..23:0..59:0..59. */
  predicate IsCalendarStamp(t: Stamp) {
    && 1 <= t.year <= 9999
    && 1 <= t.month <= 12
    && 1 <= t.day <= DaysInMonth(t.year, t.month)
    && 0 <= t.hour <= 23
    && 0 <= t.minute <= 59
    && 0 <= t.second <= 59
  }

  /** The shape `DDDD-DD-DD DD:DD:DD`: nineteen characters, digits except for the separators. */
  predicate IsStampText(s: string) {
    && |s| == 19
    && s[4] == '-' && s[7] == '-' && s[10] == ' ' && s[13] == ':' && s[16] == ':'
    && AllDigits(s[0..4]) && AllDigits(s[5..7]) && AllDigits(s[8..10])
    && AllDigits(s[11..13]) && AllDigits(s[14..16]) && AllDigits(s[17..19])
  }

  /** `datetime.strptime(s, "%Y-%m-%d %H:%M:%S")` on the zero-padded form; `None` where it raises `ValueError`. */
  function ParseStamp(s: string): (r: Option<Stamp>)
    ensures r.Some? ==> IsStampText(s) && IsCalendarStamp(r.value)
  {
    if !IsStampText(s) then None
    else
      var t := Stamp(Number(s[0..4]), Number(s[5..7]), Number(s[8..10]),
                     Number(s[11..13]), Number(s[14..16]), Number(s[17..19]));
      if IsCalendarStamp(t) then Some(t) else None
  }

  /** `s[:19]` */
  function Prefix19(s: string): string {
    if |s| <= 19 then s else s[..19]
  }

  /**
   * `strptime(v[:19], fmt)` for the value of a `"datetime"` key: a string that
   * does not parse raises `ValueError`; a value that is not a string cannot be
   * parsed at all and raises `TypeError`.
   */
  function StampOf(v: Value): Result<Stamp, Error> {
    match v
    case Str(s) =>
      (match ParseStamp(Prefix19(s))
       case Some(t) => Ok(t)
       case None => Err(ValueError))
    case _ => Err(TypeError)
  }

  /** `a > b` on `datetime` values: lexicographic on (year, month, day, hour, minute, second). */
  predicate Later(a: Stamp, b: Stamp) {
    if a.year != b.year then a.year > b.year
    else if a.month != b.month then a.month > b.month
    else if a.day != b.day then a.day > b.day
    else if a.hour != b.hour then a.hour > b.hour
    else if a.minute != b.minute then a.minute > b.minute
    else a.second > b.second
  }

  // ---------------------------------------------------------------------------
  // The stamp text: formatting, and the order of the texts
  // ---------------------------------------------------------------------------

  function Pow10(w: nat): nat {
    if w == 0 then 1 else 10 * Pow10(w - 1)
  }

  /** `"%0*d" % (w, n)`: the last `w` decimal digits of `n`, zero-padded. */
  function Pad(n: nat, w: nat): (r: string)
    ensures |r| == w && AllDigits(r)
  {
    if w == 0 then "" else Pad(n / 10, w - 1) + [('0' as int + n % 10) as char]
  }

  /** `t.strftime("%Y-%m-%d %H:%M:%S")`, the form the server writes its stamps in. */
  function FormatStamp(t: Stamp): (r: string)
    requires IsCalendarStamp(t)
  {
    Pad(t.year, 4) + "-" + Pad(t.month, 2) + "-" + Pad(t.day, 2) + " "
      + Pad(t.hour, 2) + ":" + Pad(t.minute, 2) + ":" + Pad(t.second, 2)
  }

  /** Padding a number that fits in `w` digits loses nothing. */
  lemma {:induction false} NumberOfPad(n: nat, w: nat)
    requires n < Pow10(w)
    ensures Number(Pad(n, w)) == n
  {
    if w > 0 {
      var p := Pad(n, w);
      assert p[..|p| - 1] == Pad(n / 10, w - 1);
      NumberOfPad(n / 10, w - 1);
    }
  }

  /** A string of digits is the padding of its own value to its own width. */
  lemma {:induction false} PadOfNumber(s: string)
    requires AllDigits(s)
    ensures Number(s) < Pow10(|s|) && Pad(Number(s), |s|) == s
  {
    if |s| > 0 {
      var init := s[..|s| - 1];
      PadOfNumber(init);
      assert Number(s) / 10 == Number(init);
      assert s == init + [s[|s| - 1]];
    }
  }

  /** Every stamp `datetime` accepts survives `strftime` followed by `strptime`. */
  lemma ParseFormatted(t: Stamp)
    requires IsCalendarStamp(t)
    ensures ParseStamp(FormatStamp(t)) == Some(t)
  {
    FormatFields(t);
    NumberOfPad(t.year, 4);
    NumberOfPad(t.month, 2);
    NumberOfPad(t.day, 2);
    NumberOfPad(t.hour, 2);
    NumberOfPad(t.minute, 2);
    NumberOfPad(t.second, 2);
  }

  /** The fields of a formatted stamp sit where `strptime` reads them. */
  lemma FormatFields(t: Stamp)
    requires IsCalendarStamp(t)
    ensures var s := FormatStamp(t);
            && IsStampText(s)
            && s[0..4] == Pad(t.year, 4) && s[5..7] == Pad(t.month, 2) && s[8..10] == Pad(t.day, 2)
            && s[11..13] == Pad(t.hour, 2) && s[14..16] == Pad(t.minute, 2) && s[17..19] == Pad(t.second, 2)
  {
    var s := FormatStamp(t);
    assert s[0..4] == Pad(t.year, 4) && s[5..7] == Pad(t.month, 2) && s[8..10] == Pad(t.day, 2);
    assert s[11..13] == Pad(t.hour, 2) && s[14..16] == Pad(t.minute, 2) && s[17..19] == Pad(t.second, 2);
  }

  /** Every text `strptime` accepts is the `strftime` of what it parses to. */
  lemma FormatParsed(s: string)
    requires ParseStamp(s).Some?
    ensures FormatStamp(ParseStamp(s).value) == s
  {
    PadOfNumber(s[0..4]);
    PadOfNumber(s[5..7]);
    PadOfNumber(s[8..10]);
    PadOfNumber(s[11..13]);
    PadOfNumber(s[14..16]);
    PadOfNumber(s[17..19]);
    assert s == s[0..4] + [s[4]] + s[5..7] + [s[7]] + s[8..10] + [s[10]]
                + s[11..13] + [s[13]] + s[14..16] + [s[16]] + s[17..19];
  }

  /**
   * `a > b` on two strings of the same length: the first position where they
   * differ decides. Stated from the back: `a` is after `b` when it is after it
   * without its last character, or ties there and ends in a larger one.
   */
  predicate After(a: string, b: string)
    requires |a| == |b|
  {
    |a| > 0 &&
    (After(a[..|a| - 1], b[..|b| - 1]) || (a[..|a| - 1] == b[..|b| - 1] && a[|a| - 1] > b[|b| - 1]))
  }

  /** Extending two prefixes by a field of digits compares them by the field's value. */
  lemma {:induction false} FieldStep(a: string, b: string, i: nat, j: nat)
    requires i <= j <= |a| == |b| && AllDigits(a[i..j]) && AllDigits(b[i..j])
    ensures After(a[..j], b[..j]) <==>
              After(a[..i], b[..i]) || (a[..i] == b[..i] && Number(a[i..j]) > Number(b[i..j]))
    ensures a[..j] == b[..j] <==> a[..i] == b[..i] && Number(a[i..j]) == Number(b[i..j])
    decreases j - i
  {
    if j > i {
      Shorter(a, i, j);
      Shorter(b, i, j);
      LastDigit(a[i..j], b[i..j]);
      FieldStep(a, b, i, j - 1);
      AfterLast(a[..j], b[..j]);
    } else {
      assert a[i..j] == [] && b[i..j] == [];
    }
  }

  /** The slices `FieldStep` compares, one character shorter. */
  lemma Shorter(a: string, i: nat, j: nat)
    requires i < j <= |a|
    ensures a[i..j][..j - 1 - i] == a[i..j - 1] && a[i..j][j - 1 - i] == a[j - 1]
    ensures a[..j][..j - 1] == a[..j - 1] && a[..j][j - 1] == a[j - 1] && a[..j] == a[..j - 1] + [a[j - 1]]
  {
  }

  /** One step of `After`'s definition, for use where the solver should not unfold it itself. */
  lemma AfterLast(x: string, y: string)
    requires |x| == |y| > 0
    ensures After(x, y) <==> After(x[..|x| - 1], y[..|y| - 1]) || (x[..|x| - 1] == y[..|y| - 1] && x[|x| - 1] > y[|y| - 1])
  {
  }

  /** Two numbers of the same width compare by their leading digits, then by the last one. */
  lemma LastDigit(x: string, y: string)
    requires |x| == |y| > 0 && AllDigits(x) && AllDigits(y)
    ensures var m, n := Number(x[..|x| - 1]), Number(y[..|y| - 1]);
            && (Number(x) > Number(y) <==> m > n || (m == n && x[|x| - 1] > y[|y| - 1]))
            && (Number(x) == Number(y) <==> m == n && x[|x| - 1] == y[|y| - 1])
  {
  }

  /** A separator both texts share does not change how their prefixes compare. */
  lemma SeparatorStep(a: string, b: string, i: nat)
    requires i < |a| == |b| && a[i] == b[i]
    ensures After(a[..i + 1], b[..i + 1]) <==> After(a[..i], b[..i])
    ensures a[..i + 1] == b[..i + 1] <==> a[..i] == b[..i]
  {
    assert a[..i + 1][..i] == a[..i] && b[..i + 1][..i] == b[..i];
    assert a[..i + 1] == a[..i] + [a[i]] && b[..i + 1] == b[..i] + [b[i]];
  }

  /**
   * Comparing the parsed `datetime`s is comparing the stamp texts: the server's
   * stamp is later than the local one exactly when its nineteen characters come
   * after the local ones.
   */
  lemma LaterIsTextOrder(a: string, b: string)
    requires ParseStamp(a).Some? && ParseStamp(b).Some?
    ensures Later(ParseStamp(a).value, ParseStamp(b).value) <==> After(a, b)
  {
    assert a[..0] == b[..0];
    FieldStep(a, b, 0, 4);
    SeparatorStep(a, b, 4);
    FieldStep(a, b, 5, 7);
    SeparatorStep(a, b, 7);
    FieldStep(a, b, 8, 10);
    SeparatorStep(a, b, 10);
    FieldStep(a, b, 11, 13);
    SeparatorStep(a, b, 13);
    FieldStep(a, b, 14, 16);
    SeparatorStep(a, b, 16);
    FieldStep(a, b, 17, 19);
    assert a[..19] == a && b[..19] == b;
  }
}
