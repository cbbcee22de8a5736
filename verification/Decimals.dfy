/** Decimal numerals: printing a number, reading digits back, and grouping digits by thousands. */
module Decimals {
  import opened Prelude

  predicate IsDigit(c: char) {
    '0' <= c <= '9'
  }

  function DigitValue(c: char): nat
    requires IsDigit(c)
  {
    (c as int) - ('0' as int)
  }

  function DigitChar(d: nat): (c: char)
    requires d < 10
    ensures IsDigit(c) && DigitValue(c) == d
  {
    (d + ('0' as int)) as char
  }

  /** Which characters are digits, and of what value. */
  lemma TenDigits(c: char, d: nat)
    ensures IsDigit(c) && DigitValue(c) == d <==> d < 10 && c == "0123456789"[d]
    ensures d < 10 ==> DigitChar(d) == "0123456789"[d]
  {
  }

  predicate AllDigits(s: string) {
    forall i :: 0 <= i < |s| ==> IsDigit(s[i])
  }

  /** The usual numeral: no leading zeros, and "0" for zero. */
  function ToString(v: nat): (s: string)
    ensures s != "" && AllDigits(s)
  {
    if v < 10 then [DigitChar(v)] else ToString(v / 10) + [DigitChar(v % 10)]
  }

  function FromDigits(s: string): nat
    requires AllDigits(s)
  {
    if s == "" then 0 else 10 * FromDigits(s[..|s| - 1]) + DigitValue(s[|s| - 1])
  }

  /** Reading a printed number gives the number. */
  lemma {:induction false} ReadsBack(v: nat)
    ensures FromDigits(ToString(v)) == v
  {
    if v >= 10 {
      ReadsBack(v / 10);
      var s := ToString(v);
      assert s[..|s| - 1] == ToString(v / 10);
    } else {
      assert ToString(v)[..0] == "";
    }
  }

  function Pow10(n: nat): nat {
    if n == 0 then 1 else 10 * Pow10(n - 1)
  }

  /** A number below 10^n has at most n digits. */
  lemma {:induction false} FewDigits(v: nat, n: nat)
    requires v < Pow10(n) && n > 0
    ensures |ToString(v)| <= n
  {
    if v >= 10 {
      assert n > 1;
      FewDigits(v / 10, n - 1);
    }
  }

  lemma {:induction false} NoLeadingZeros(v: nat)
    ensures ToString(v)[0] == '0' <==> v == 0
  {
    if v >= 10 {
      NoLeadingZeros(v / 10);
    }
  }

  function Zeros(n: nat): string {
    seq(n, i => '0')
  }

  lemma {:induction false} LeadingZeros(n: nat, digits: string)
    requires AllDigits(digits)
    ensures AllDigits(Zeros(n) + digits) && FromDigits(Zeros(n) + digits) == FromDigits(digits)
  {
    var s := Zeros(n) + digits;
    if digits != "" {
      LeadingZeros(n, digits[..|digits| - 1]);
      assert s[..|s| - 1] == Zeros(n) + digits[..|digits| - 1];
    } else if n > 0 {
      LeadingZeros(n - 1, "");
      assert s[..|s| - 1] == Zeros(n - 1) + "";
    }
  }

  /** Any digits are the numeral of what they read as, behind some zeros. */
  lemma {:induction false} AsNumeral(digits: string) returns (n: nat)
    requires digits != "" && AllDigits(digits)
    ensures digits == Zeros(n) + ToString(FromDigits(digits))
  {
    n := 0;
    if |digits| > 1 {
      n := AsNumeral(digits[..|digits| - 1]);
      n := NumeralSnoc(digits, n);
    } else {
      assert digits[..0] == "";
      assert digits == Zeros(0) + ToString(FromDigits(digits));
    }
  }

  lemma NumeralSnoc(digits: string, m: nat) returns (n: nat)
    requires |digits| > 1 && AllDigits(digits)
    requires var init := digits[..|digits| - 1]; init == Zeros(m) + ToString(FromDigits(init))
    ensures digits == Zeros(n) + ToString(FromDigits(digits))
  {
    var init, last := digits[..|digits| - 1], digits[|digits| - 1];
    var v := FromDigits(init);
    assert digits == init + [last];
    DigitCharOfValue(last);
    if v == 0 {
      n := m + 1;
      assert init == Zeros(n);
    } else {
      n := m;
      ToStringSnoc(v, DigitValue(last));
      assert digits == Zeros(m) + (ToString(v) + [last]);
    }
  }

  lemma DigitCharOfValue(c: char)
    requires IsDigit(c)
    ensures DigitValue(c) < 10 && DigitChar(DigitValue(c)) == c
  {
  }

  lemma {:induction false} ToStringSnoc(v: nat, d: nat)
    requires v > 0 && d < 10
    ensures ToString(10 * v + d) == ToString(v) + [DigitChar(d)]
  {
  }

  /** Exactly which digit strings read as a number: its numeral, behind any number of zeros. */
  lemma DigitsOfNumber(digits: string, v: nat)
    requires digits != "" && AllDigits(digits)
    ensures FromDigits(digits) == v <==> exists n :: n >= 0 && digits == Zeros(n) + ToString(v)
  {
    if FromDigits(digits) == v {
      var n := AsNumeral(digits);
    }
    forall n: nat | digits == Zeros(n) + ToString(v)
      ensures FromDigits(digits) == v
    {
      LeadingZeros(n, ToString(v));
      ReadsBack(v);
    }
  }

  // ----- Thousands separators -----

  /** The digits in groups of three from the right, separated by commas. */
  function Grouped(digits: string): string {
    if |digits| <= 3 then digits
    else Grouped(digits[..|digits| - 3]) + "," + digits[|digits| - 3..]
  }

  /** Puts the digits in front one at a time, from the last to the first, and a comma before every third one. */
  method PrettyPrint(v: nat) returns (output: string)
    ensures output == Grouped(ToString(v))
  {
    var digits := ToString(v);
    output := "";
    for idx := 0 to |digits|
      invariant output == Grouped(digits[|digits| - idx..])
    {
      PrintedGrows(digits, idx);
      var val := digits[|digits| - 1 - idx];
      if idx != 0 && idx % 3 == 0 {
        output := "," + output;
      }
      output := [val] + output;
    }
    assert digits[0..] == digits;
  }

  lemma PrintedGrows(digits: string, idx: nat)
    requires idx < |digits|
    ensures var printed := Grouped(digits[|digits| - idx..]);
            var val := digits[|digits| - 1 - idx];
            Grouped(digits[|digits| - (idx + 1)..])
              == [val] + if idx != 0 && idx % 3 == 0 then "," + printed else printed
  {
    var val, printed := digits[|digits| - 1 - idx], digits[|digits| - idx..];
    GroupedGrows(val, printed);
    SeparatorJoins([val], printed, Grouped(printed));
    assert [val] + printed == digits[|digits| - (idx + 1)..];
  }

  /** What stands between a digit put in front of the others and these: a comma when the groups so far are full. */
  function Separator(digits: string): string {
    if digits != "" && |digits| % 3 == 0 then "," else ""
  }

  /** A further digit in front opens a new group when the groups so far are full. */
  lemma {:induction false} GroupedGrows(c: char, digits: string)
    ensures Grouped([c] + digits) == [c] + Separator(digits) + Grouped(digits)
  {
    if |digits| <= 3 {
      GroupedGrowsFirst(c, digits);
    } else {
      var left, group := digits[..|digits| - 3], digits[|digits| - 3..];
      assert digits == left + group;
      GroupedGrows(c, left);
      GroupedGrowsByGroup(c, left, group);
    }
  }

  lemma GroupedGrowsFirst(c: char, digits: string)
    requires |digits| <= 3
    ensures Grouped([c] + digits) == [c] + Separator(digits) + Grouped(digits)
  {
    if |digits| == 3 {
      GroupedSnoc([c], digits);
      assert Grouped([c]) == [c];
    } else {
      NoSeparator([c], digits);
    }
  }

  lemma NoSeparator(a: string, digits: string)
    requires |digits| < 3
    ensures a + Separator(digits) + digits == a + digits
  {
    assert Separator(digits) == "";
    assert a + "" == a;
  }

  lemma SeparatorJoins(a: string, digits: string, b: string)
    ensures a + Separator(digits) + b == a + if digits != "" && |digits| % 3 == 0 then "," + b else b
  {
    if digits != "" && |digits| % 3 == 0 {
      assert a + "," + b == a + ("," + b);
    } else {
      assert a + "" == a;
    }
  }

  lemma {:induction false} GroupedGrowsByGroup(c: char, left: string, group: string)
    requires left != "" && |group| == 3
    requires Grouped([c] + left) == [c] + Separator(left) + Grouped(left)
    ensures Grouped([c] + (left + group)) == [c] + Separator(left + group) + Grouped(left + group)
  {
    GroupedSnoc(left, group);
    GroupedSnoc([c] + left, group);
    assert [c] + (left + group) == [c] + left + group;
    assert Separator(left + group) == Separator(left);
    Regroup([c] + Separator(left), Grouped(left), group);
  }

  lemma Regroup(a: string, b: string, group: string)
    ensures a + b + "," + group == a + (b + "," + group)
  {
  }

  lemma GroupedSnoc(left: string, group: string)
    requires left != "" && |group| == 3
    ensures Grouped(left + group) == Grouped(left) + "," + group
  {
    assert (left + group)[..|left|] == left && (left + group)[|left|..] == group;
  }

  function NotComma(): char -> bool {
    (c: char) => c != ','
  }

  function Ungrouped(s: string): string {
    Filter(NotComma(), s)
  }

  lemma {:induction false} DigitsUngrouped(s: string)
    requires AllDigits(s)
    ensures Ungrouped(s) == s
  {
    if s != "" {
      DigitsUngrouped(s[..|s| - 1]);
    }
  }

  /** Removing the commas gives the digits back. */
  lemma {:induction false} GroupedUngrouped(digits: string)
    requires AllDigits(digits)
    ensures Ungrouped(Grouped(digits)) == digits
  {
    if |digits| <= 3 {
      DigitsUngrouped(digits);
    } else {
      var n := |digits| - 3;
      GroupedUngrouped(digits[..n]);
      DigitsUngrouped(digits[n..]);
      FilterAppend(NotComma(), Grouped(digits[..n]) + ",", digits[n..]);
      FilterAppend(NotComma(), Grouped(digits[..n]), ",");
      FilterSnoc(NotComma(), "", ',');
      assert "" + "," == ",";
      assert digits == digits[..n] + digits[n..];
    }
  }

  /** How many digits of a grouped numeral stand at or after place i. */
  function DigitsFrom(s: string, i: nat): nat
    requires i <= |s|
  {
    |Ungrouped(s[i..])|
  }

  /** Commas stand exactly where a positive multiple of three digits follows and a digit precedes. */
  ghost predicate WellGrouped(s: string) {
    && (s != "" ==> s[0] != ',')
    && (forall i :: 0 <= i < |s| && s[i] == ',' ==> DigitsFrom(s, i) > 0 && DigitsFrom(s, i) % 3 == 0)
    && (forall i :: 0 < i < |s| && s[i] != ',' && DigitsFrom(s, i) % 3 == 0 ==> s[i - 1] == ',')
  }

  /** In a plain digit string the digits from i on are all that is left of it. */
  lemma DigitsFromPlain(s: string, i: nat)
    requires i <= |s| && AllDigits(s)
    ensures DigitsFrom(s, i) == |s| - i
  {
    DigitsUngrouped(s[i..]);
  }

  /** Appending a full group adds three digits behind every place. */
  lemma DigitsFromGroup(left: string, group: string, i: nat)
    requires AllDigits(group) && |group| == 3 && i <= |left|
    ensures DigitsFrom(left + "," + group, i) == DigitsFrom(left, i) + 3
  {
    var s := left + "," + group;
    assert s[i..] == left[i..] + "," + group;
    FilterAppend(NotComma(), left[i..] + ",", group);
    FilterAppend(NotComma(), left[i..], ",");
    FilterSnoc(NotComma(), "", ',');
    assert "" + "," == ",";
    DigitsUngrouped(group);
  }

  lemma DigitsFromInGroup(left: string, group: string, i: nat)
    requires AllDigits(group) && |group| == 3 && |left| < i <= |left| + 4
    ensures DigitsFrom(left + "," + group, i) == |left| + 4 - i
  {
    var s := left + "," + group;
    assert s[i..] == group[i - |left| - 1..];
    DigitsUngrouped(s[i..]);
  }

  lemma GroupKeepsShape(left: string, group: string)
    requires WellGrouped(left) && left != "" && AllDigits(group) && |group| == 3
    ensures WellGrouped(left + "," + group)
  {
    var s := left + "," + group;
    assert s[0] == left[0];
    DigitsUngrouped("");
    forall i | 0 <= i < |s|
      ensures s[i] == ',' ==> DigitsFrom(s, i) > 0 && DigitsFrom(s, i) % 3 == 0
      ensures i > 0 && s[i] != ',' && DigitsFrom(s, i) % 3 == 0 ==> s[i - 1] == ','
    {
      if i <= |left| {
        DigitsFromGroup(left, group, i);
        assert i < |left| ==> s[i] == left[i];
      } else {
        DigitsFromInGroup(left, group, i);
        assert s[i] == group[i - |left| - 1];
      }
    }
  }

  lemma {:induction false} GroupedShape(digits: string)
    requires AllDigits(digits)
    ensures WellGrouped(Grouped(digits)) && (digits != "" ==> Grouped(digits) != "")
  {
    if |digits| <= 3 {
      forall i | 0 <= i < |digits|
        ensures DigitsFrom(digits, i) == |digits| - i
      {
        DigitsFromPlain(digits, i);
      }
    } else {
      var n := |digits| - 3;
      GroupedShape(digits[..n]);
      GroupKeepsShape(Grouped(digits[..n]), digits[n..]);
    }
  }

  /** What is printed for a number: commas in the right places only, and without them the number's own numeral. */
  lemma PrintsTheNumber(v: nat)
    ensures var s := Grouped(ToString(v));
            && WellGrouped(s)
            && AllDigits(Ungrouped(s)) && FromDigits(Ungrouped(s)) == v
  {
    GroupedUngrouped(ToString(v));
    GroupedShape(ToString(v));
    ReadsBack(v);
  }
}
