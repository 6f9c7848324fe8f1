/**
 * The daily order-id generator of the order controller: an id is
 * `ORD-YYMMDD-NNN`. Its number is one more than the number in the third
 * dash-separated segment of the greatest existing id with that day's prefix,
 * where "greatest" is code-point order (`orderBy: { id: "desc" }`). It is
 * `1` when no such id exists. The clock is the `(year, month, day)`
 * parameter, with month counted from 1. The existing ids are the `ids`
 * parameter.
 */
module OrderIds {
  import opened Common
  import opened Strings

  /** `s.slice(-2)`: the last two characters, or all of a shorter string. */
  function LastTwo(s: string): string {
    if |s| >= 2 then s[|s| - 2..] else s
  }

  /** `YYMMDD`: last two characters of the year, month and day padded to two digits. */
  function DateDigits(year: nat, month: nat, day: nat): (r: string)
    ensures AllDigits(r)
  {
    var y := LastTwo(NatToString(year));
    var m := PadStart(NatToString(month), 2, '0');
    var d := PadStart(NatToString(day), 2, '0');
    PadZerosValue(NatToString(month), 2);
    PadZerosValue(NatToString(day), 2);
    LastTwoOfDigits(NatToString(year));
    DigitsConcat(y, m);
    DigitsConcat(y + m, d);
    y + m + d
  }

  lemma LastTwoOfDigits(s: string)
    requires AllDigits(s)
    ensures AllDigits(LastTwo(s))
  {
    if |s| >= 2 {
      assert forall i :: 0 <= i < 2 ==> LastTwo(s)[i] == s[|s| - 2 + i];
    }
  }

  lemma DigitsConcat(a: string, b: string)
    requires AllDigits(a) && AllDigits(b)
    ensures AllDigits(a + b)
  {
    forall i | 0 <= i < |a + b| ensures IsDigit((a + b)[i]) {
      if i >= |a| { assert (a + b)[i] == b[i - |a|]; }
    }
  }

  /** `ORD-YYMMDD`. */
  function DatePrefix(year: nat, month: nat, day: nat): string {
    "ORD-" + DateDigits(year, month, day)
  }

  /** A JavaScript number as `parseInt` produces it: an integer, or `NaN`. */
  datatype JsNumber = Num(value: int) | NaN

  function Increment(x: JsNumber): JsNumber {
    match x
    case NaN => NaN
    case Num(v) => Num(v + 1)
  }

  /** `x.toString()`. */
  function NumberToString(x: JsNumber): string {
    match x
    case NaN => "NaN"
    case Num(v) => IntToString(v)
  }

  /** The characters `parseInt` skips before a number (white space and line terminators). */
  predicate IsJsSpace(c: char) {
    var k := c as int;
    k == 0x9 || k == 0xA || k == 0xB || k == 0xC || k == 0xD || k == 0x20 || k == 0xA0
    || k == 0x1680 || (0x2000 <= k <= 0x200A) || k == 0x2028 || k == 0x2029
    || k == 0x202F || k == 0x205F || k == 0x3000 || k == 0xFEFF
  }

  function TrimStart(s: string): (r: string)
    decreases |s|
  {
    if s != [] && IsJsSpace(s[0]) then TrimStart(s[1..]) else s
  }

  /** The longest prefix of `s` made of decimal digits. */
  function DigitPrefix(s: string): (r: string)
    ensures AllDigits(r) && r <= s
    ensures AllDigits(s) ==> r == s
    decreases |s|
  {
    if s != [] && IsDigit(s[0]) then
      assert AllDigits(s) ==> AllDigits(s[1..]);
      [s[0]] + DigitPrefix(s[1..])
    else []
  }

  /** `parseInt(s, 10)`: leading white space, an optional sign, then the longest digit run. */
  function ParseInt10(s: string): JsNumber {
    var t := TrimStart(s);
    var body := if t != [] && (t[0] == '+' || t[0] == '-') then t[1..] else t;
    var digits := DigitPrefix(body);
    if digits == [] then NaN
    else if t[0] == '-' then Num(0 - DigitsValue(digits))
    else Num(DigitsValue(digits))
  }

  /** `id.split("-")[2]`, passed to `parseInt`; a missing segment is `undefined`, read as `"undefined"`. */
  function ThirdSegment(id: string): string {
    var parts := Split(id, '-');
    if |parts| > 2 then parts[2] else "undefined"
  }

  /** The lexicographically greatest id that starts with `prefix`, if any. */
  function LastIdWithPrefix(ids: seq<string>, prefix: string): Option<string>
    decreases |ids|
  {
    if ids == [] then None
    else
      var rest := LastIdWithPrefix(ids[1..], prefix);
      if !(prefix <= ids[0]) then rest
      else if rest.Some? && LexLe(ids[0], rest.value) then rest
      else Some(ids[0])
  }

  /** The sequence number the next order of the day gets. */
  function NextNumber(ids: seq<string>, prefix: string): JsNumber {
    match LastIdWithPrefix(ids, prefix)
    case None => Num(1)
    case Some(last) => Increment(ParseInt10(ThirdSegment(last)))
  }

  /** `${prefix}-${n.toString().padStart(3, "0")}`. */
  function FormatOrderId(prefix: string, n: JsNumber): string {
    prefix + "-" + PadStart(NumberToString(n), 3, '0')
  }

  function GenerateOrderId(ids: seq<string>, year: nat, month: nat, day: nat): string {
    var prefix := DatePrefix(year, month, day);
    FormatOrderId(prefix, NextNumber(ids, prefix))
  }

  // ---------------------------------------------------------------- lemmas

  /** The lookup finds an id of the day exactly when one exists, and it is the greatest. */
  lemma {:induction false} LastIdWithPrefixIsGreatest(ids: seq<string>, prefix: string)
    ensures LastIdWithPrefix(ids, prefix).None? <==> forall i :: 0 <= i < |ids| ==> !(prefix <= ids[i])
    ensures LastIdWithPrefix(ids, prefix).Some? ==>
              var last := LastIdWithPrefix(ids, prefix).value;
              last in ids && prefix <= last &&
              forall i :: 0 <= i < |ids| && prefix <= ids[i] ==> LexLe(ids[i], last)
    decreases |ids|
  {
    if ids != [] {
      LastIdWithPrefixIsGreatest(ids[1..], prefix);
      var rest := LastIdWithPrefix(ids[1..], prefix);
      assert forall i :: 1 <= i < |ids| ==> ids[i] == ids[1..][i - 1];
      if prefix <= ids[0] {
        LexLeRefl(ids[0]);
        if rest.Some? {
          LexLeTotal(ids[0], rest.value);
          if !LexLe(ids[0], rest.value) {
            forall i | 1 <= i < |ids| && prefix <= ids[i] ensures LexLe(ids[i], ids[0]) {
              assert prefix <= ids[1..][i - 1];
              LexLeTrans(ids[i], rest.value, ids[0]);
            }
          }
        }
      }
    }
  }

  /** The date prefix is `ORD-` and six digits: the two-digit year, month and day. */
  lemma DatePrefixShape(year: nat, month: nat, day: nat)
    requires year >= 10 && month < 100 && day < 100
    ensures |DatePrefix(year, month, day)| == 10
    ensures DatePrefix(year, month, day)[..4] == "ORD-"
    ensures DatePrefix(year, month, day)[4..] == DateDigits(year, month, day)
    ensures DateFields(DateDigits(year, month, day)) == (year % 100, month, day)
  {
    DateDigitsShape(year, month, day);
    PrefixParts("ORD-", DateDigits(year, month, day));
  }

  lemma PrefixParts(a: string, b: string)
    ensures (a + b)[..|a|] == a && (a + b)[|a|..] == b
  {
  }

  lemma DateDigitsShape(year: nat, month: nat, day: nat)
    requires year >= 10 && month < 100 && day < 100
    ensures |DateDigits(year, month, day)| == 6
    ensures DateFields(DateDigits(year, month, day)) == (year % 100, month, day)
  {
    TwoDigits(month);
    TwoDigits(day);
    LastTwoDigits(year);
    FieldsOf(LastTwo(NatToString(year)), PadStart(NatToString(month), 2, '0'), PadStart(NatToString(day), 2, '0'));
  }

  lemma FieldsOf(y: string, m: string, d: string)
    requires |y| == 2 && |m| == 2 && |d| == 2 && AllDigits(y) && AllDigits(m) && AllDigits(d)
    ensures |y + m + d| == 6 && AllDigits(y + m + d)
    ensures DateFields(y + m + d) == (DigitsValue(y), DigitsValue(m), DigitsValue(d))
  {
    DigitsConcat(y, m);
    DigitsConcat(y + m, d);
    SliceThree(y + m + d, y, m, d);
  }

  /** The year, month and day a six-digit date denotes. */
  function DateFields(dd: string): (nat, nat, nat)
    requires |dd| == 6 && AllDigits(dd)
  {
    (DigitsValue(dd[..2]), DigitsValue(dd[2..4]), DigitsValue(dd[4..]))
  }

  lemma SliceThree(s: string, a: string, b: string, c: string)
    requires |a| == 2 && |b| == 2 && |c| == 2 && s == a + b + c
    ensures |s| == 6 && s[..2] == a && s[2..4] == b && s[4..] == c
  {
  }

  lemma TwoDigits(n: nat)
    requires n < 100
    ensures var m := PadStart(NatToString(n), 2, '0');
      |m| == 2 && AllDigits(m) && DigitsValue(m) == n
  {
    PadZerosValue(NatToString(n), 2);
    NatToStringValue(n);
  }

  /** The last two characters of a year of two or more digits denote the year modulo 100. */
  lemma LastTwoDigits(n: nat)
    requires n >= 10
    ensures var t := LastTwo(NatToString(n));
      |t| == 2 && AllDigits(t) && DigitsValue(t) == n % 100
  {
    var s := NatToString(n);
    var t := NatToString(n / 10);
    assert s == t + [DigitChar(n % 10)];
    var two := [t[|t| - 1], DigitChar(n % 10)];
    assert LastTwo(s) == two;
    assert two[..1] == [t[|t| - 1]];
    assert DigitsValue(two[..1]) == (n / 10) % 10 by {
      assert [t[|t| - 1]][..0] == [];
    }
    assert n % 100 == 10 * ((n / 10) % 10) + n % 10;
  }

  lemma NoDashInDigits(s: string)
    requires AllDigits(s)
    ensures '-' !in s
  {
    forall k | 0 <= k < |s| ensures s[k] != '-' {
      assert IsDigit(s[k]);
    }
  }

  /** A day prefix: `ORD-` followed by text without a dash. */
  predicate DayPrefix(p: string) {
    |p| >= 4 && p[..4] == "ORD-" && '-' !in p[4..]
  }

  lemma DatePrefixIsDayPrefix(year: nat, month: nat, day: nat)
    ensures DayPrefix(DatePrefix(year, month, day))
  {
    var p := DatePrefix(year, month, day);
    assert p[4..] == DateDigits(year, month, day);
    NoDashInDigits(DateDigits(year, month, day));
  }

  /** `split("-")[2]` of `<day prefix>-<digits>` is exactly `<digits>`. */
  lemma ThirdSegmentOf(p: string, digits: string)
    requires DayPrefix(p) && '-' !in digits
    ensures ThirdSegment(p + "-" + digits) == digits
  {
    var dd := p[4..];
    assert p + "-" + digits == "ORD" + "-" + (dd + "-" + digits) by {
      assert p == "ORD-" + dd;
    }
    SplitAtFirst("ORD", dd + "-" + digits, '-');
    SplitAtFirst(dd, digits, '-');
  }

  lemma ParseDigits(s: string)
    requires s != [] && AllDigits(s)
    ensures ParseInt10(s) == Num(DigitsValue(s))
  {
    assert !IsJsSpace(s[0]);
    assert TrimStart(s) == s;
  }

  /** The padded number of a formatted id: digits only, denoting `n`, and three long while `n <= 999`. */
  lemma PaddedNumber(n: nat)
    ensures var d := PadStart(NatToString(n), 3, '0');
      d != [] && AllDigits(d) && DigitsValue(d) == n && '-' !in d && (n <= 999 ==> |d| == 3)
  {
    var d := PadStart(NatToString(n), 3, '0');
    PadZerosValue(NatToString(n), 3);
    NatToStringValue(n);
    NoDashInDigits(d);
  }

  /**
   * Round trip: splitting a formatted id on `-` and parsing the third
   * segment gives back its number, for every non-negative number (the
   * padding never truncates).
   */
  lemma FormatParseRoundTrip(year: nat, month: nat, day: nat, n: nat)
    ensures ParseInt10(ThirdSegment(FormatOrderId(DatePrefix(year, month, day), Num(n)))) == Num(n)
  {
    var p := DatePrefix(year, month, day);
    var digits := PadStart(NatToString(n), 3, '0');
    PaddedNumber(n);
    DatePrefixIsDayPrefix(year, month, day);
    assert FormatOrderId(p, Num(n)) == p + "-" + digits;
    ThirdSegmentOf(p, digits);
    ParseDigits(digits);
  }

  /** The first order of a day is number `001`. */
  lemma FirstOrderOfDay(ids: seq<string>, year: nat, month: nat, day: nat)
    requires forall i :: 0 <= i < |ids| ==> !(DatePrefix(year, month, day) <= ids[i])
    ensures GenerateOrderId(ids, year, month, day) == DatePrefix(year, month, day) + "-001"
  {
    FirstIdWithPrefix(ids, DatePrefix(year, month, day));
  }

  lemma FirstIdWithPrefix(ids: seq<string>, p: string)
    requires forall i :: 0 <= i < |ids| ==> !(p <= ids[i])
    ensures FormatOrderId(p, NextNumber(ids, p)) == p + "-001"
  {
    LastIdWithPrefixIsGreatest(ids, p);
    assert NumberToString(Num(1)) == "1";
    assert PadStart("1", 3, '0') == "001";
  }

  /** After an id ending in a digit string, the next number is that string's value plus one. */
  lemma NextAfterDigits(ids: seq<string>, p: string, digits: string)
    requires DayPrefix(p) && digits != [] && AllDigits(digits)
    requires LastIdWithPrefix(ids, p) == Some(p + "-" + digits)
    ensures NextNumber(ids, p) == Num(DigitsValue(digits) + 1)
  {
    NoDashInDigits(digits);
    ThirdSegmentOf(p, digits);
    ParseDigits(digits);
  }

  /** An id of the day in the canonical shape `<prefix>-DDD`. */
  predicate Canonical(id: string, prefix: string) {
    |id| == |prefix| + 4 && prefix <= id && id[|prefix|] == '-' && AllDigits(id[|prefix| + 1..])
  }

  function SuffixValue(id: string, prefix: string): nat
    requires Canonical(id, prefix)
  {
    DigitsValue(id[|prefix| + 1..])
  }

  lemma CanonicalParts(id: string, prefix: string)
    requires Canonical(id, prefix)
    ensures id == prefix + "-" + id[|prefix| + 1..]
  {
    assert id == id[..|prefix|] + [id[|prefix|]] + id[|prefix| + 1..];
  }

  lemma ThreeDigitValue(a: string)
    requires |a| == 3 && AllDigits(a)
    ensures DigitsValue(a) == 100 * DigitValue(a[0]) + 10 * DigitValue(a[1]) + DigitValue(a[2])
  {
    assert a[..2][..1] == a[..1];
    assert a[..1][..0] == [];
    assert DigitsValue(a[..1]) == DigitValue(a[0]);
    assert DigitsValue(a[..2]) == 10 * DigitValue(a[0]) + DigitValue(a[1]);
  }

  /** On three-digit strings, code-point order is numeric order. */
  lemma ThreeDigitOrder(a: string, b: string)
    requires |a| == 3 && |b| == 3 && AllDigits(a) && AllDigits(b)
    ensures LexLe(a, b) <==> DigitsValue(a) <= DigitsValue(b)
  {
    ThreeDigitValue(a);
    ThreeDigitValue(b);
    assert a[1..][1..] == a[2..] && b[1..][1..] == b[2..];
    assert a[2..][1..] == [] && b[2..][1..] == [];
    assert LexLe(a, b) == (a[0] < b[0] || (a[0] == b[0] && LexLe(a[1..], b[1..])));
    assert LexLe(a[1..], b[1..]) == (a[1] < b[1] || (a[1] == b[1] && LexLe(a[2..], b[2..])));
    assert LexLe(a[2..], b[2..]) == (a[2] <= b[2]);
  }

  /** Canonical ids of one day compare as their numbers do. */
  lemma CanonicalOrder(a: string, b: string, prefix: string)
    requires Canonical(a, prefix) && Canonical(b, prefix)
    ensures LexLe(a, b) <==> SuffixValue(a, prefix) <= SuffixValue(b, prefix)
    ensures a == b <==> SuffixValue(a, prefix) == SuffixValue(b, prefix)
  {
    var da, db := a[|prefix| + 1..], b[|prefix| + 1..];
    CanonicalParts(a, prefix);
    CanonicalParts(b, prefix);
    LexLeCommonPrefix(prefix + "-", da, db);
    ThreeDigitOrder(da, db);
    ThreeDigitOrder(db, da);
    if SuffixValue(a, prefix) == SuffixValue(b, prefix) {
      LexLeAntisym(da, db);
    }
  }

  /** The id the generator makes for a day whose ids are all canonical and below 999. */
  lemma NextCanonicalId(ids: seq<string>, p: string) returns (n: nat)
    requires DayPrefix(p)
    requires forall i :: 0 <= i < |ids| && p <= ids[i] ==> Canonical(ids[i], p) && SuffixValue(ids[i], p) < 999
    ensures 1 <= n <= 999
    ensures FormatOrderId(p, NextNumber(ids, p)) == p + "-" + PadStart(NatToString(n), 3, '0')
    ensures forall i :: 0 <= i < |ids| && p <= ids[i] ==> SuffixValue(ids[i], p) < n
  {
    LastIdWithPrefixIsGreatest(ids, p);
    var last := LastIdWithPrefix(ids, p);
    if last.Some? {
      n := SuffixValue(last.value, p) + 1;
      CanonicalParts(last.value, p);
      NextAfterDigits(ids, p, last.value[|p| + 1..]);
      forall i | 0 <= i < |ids| && p <= ids[i] ensures SuffixValue(ids[i], p) < n {
        CanonicalOrder(ids[i], last.value, p);
      }
    } else {
      n := 1;
      assert NatToString(1) == "1";
    }
  }

  /**
   * Freshness: while every id of the day has the canonical shape and a
   * number below 999, the generated id is canonical, sorts after every id
   * of the day, and is therefore not in the table.
   */
  lemma GeneratedIdIsFresh(ids: seq<string>, year: nat, month: nat, day: nat)
    requires var p := DatePrefix(year, month, day);
      forall i :: 0 <= i < |ids| && p <= ids[i] ==> Canonical(ids[i], p) && SuffixValue(ids[i], p) < 999
    ensures var p := DatePrefix(year, month, day);
      var g := GenerateOrderId(ids, year, month, day);
      Canonical(g, p) && g !in ids &&
      forall i :: 0 <= i < |ids| && p <= ids[i] ==> LexLess(ids[i], g)
  {
    DatePrefixIsDayPrefix(year, month, day);
    FreshIdWithPrefix(ids, DatePrefix(year, month, day));
  }

  lemma FreshIdWithPrefix(ids: seq<string>, p: string)
    requires DayPrefix(p)
    requires forall i :: 0 <= i < |ids| && p <= ids[i] ==> Canonical(ids[i], p) && SuffixValue(ids[i], p) < 999
    ensures var g := FormatOrderId(p, NextNumber(ids, p));
      Canonical(g, p) && g !in ids &&
      forall i :: 0 <= i < |ids| && p <= ids[i] ==> LexLess(ids[i], g)
  {
    var n := NextCanonicalId(ids, p);
    PaddedNumber(n);
    IdAfterAll(ids, p, n, PadStart(NatToString(n), 3, '0'));
  }

  /** An id of the day numbered above every id of the day sorts after all of them and is new. */
  lemma IdAfterAll(ids: seq<string>, p: string, n: nat, digits: string)
    requires forall i :: 0 <= i < |ids| && p <= ids[i] ==> Canonical(ids[i], p) && SuffixValue(ids[i], p) < n
    requires |digits| == 3 && AllDigits(digits) && DigitsValue(digits) == n
    ensures var g := p + "-" + digits;
      Canonical(g, p) && g !in ids &&
      forall i :: 0 <= i < |ids| && p <= ids[i] ==> LexLess(ids[i], g)
  {
    var g := p + "-" + digits;
    assert Canonical(g, p) && SuffixValue(g, p) == n by {
      assert g[..|p|] == p;
      assert g[|p| + 1..] == digits;
    }
    forall i | 0 <= i < |ids| && p <= ids[i] ensures LexLess(ids[i], g) {
      CanonicalOrder(ids[i], g, p);
    }
    forall i | 0 <= i < |ids| ensures ids[i] != g {
      if p <= ids[i] { assert LexLess(ids[i], g); }
    }
  }

  lemma Numerals()
    ensures NatToString(999) == "999" && NatToString(1000) == "1000"
  {
    assert NatToString(9) == "9";
    assert NatToString(99) == "99";
    assert NatToString(1) == "1";
    assert NatToString(10) == "10";
    assert NatToString(100) == "100";
  }

  /**
   * Past 999 the generator repeats itself: after `-999` it yields `-1000`,
   * and because `-1000` sorts before `-999` it yields `-1000` again once
   * that id is stored.
   */
  lemma IdRepeatsAfter999(year: nat, month: nat, day: nat)
    ensures var p := DatePrefix(year, month, day);
      var first := GenerateOrderId([p + "-999"], year, month, day);
      first == p + "-1000" &&
      GenerateOrderId([p + "-999", first], year, month, day) == first
  {
    var p := DatePrefix(year, month, day);
    DatePrefixIsDayPrefix(year, month, day);
    RepeatsAfter999(p);
  }

  lemma RepeatsAfter999(p: string)
    requires DayPrefix(p)
    ensures FormatOrderId(p, NextNumber([p + "-999"], p)) == p + "-1000"
    ensures FormatOrderId(p, NextNumber([p + "-999", p + "-1000"], p)) == p + "-1000"
  {
    var old999, first := p + "-999", p + "-1000";
    LastOf999(p);
    NextAfter999([old999], p);
    NextAfter999([old999, first], p);
    Format1000(p);
  }

  /** `-999` is the greatest id of the day in both tables, as `"999"` sorts after `"1000"`. */
  lemma LastOf999(p: string)
    requires DayPrefix(p)
    ensures LastIdWithPrefix([p + "-999"], p) == Some(p + "-999")
    ensures LastIdWithPrefix([p + "-999", p + "-1000"], p) == Some(p + "-999")
  {
    var old999, first := p + "-999", p + "-1000";
    assert [old999][1..] == [];
    assert !LexLe(old999, first) by {
      assert old999 == (p + "-") + "999" && first == (p + "-") + "1000";
      LexLeCommonPrefix(p + "-", "999", "1000");
      assert !LexLe("999", "1000");
    }
    var ids := [old999, first];
    assert ids[1..] == [first] && [first][1..] == [];
    assert LastIdWithPrefix(ids[1..], p) == Some(first);
  }

  lemma NextAfter999(ids: seq<string>, p: string)
    requires DayPrefix(p)
    requires LastIdWithPrefix(ids, p) == Some(p + "-999")
    ensures NextNumber(ids, p) == Num(1000)
  {
    Numerals();
    NatToStringValue(999);
    assert p + "-999" == p + "-" + "999";
    NextAfterDigits(ids, p, "999");
  }

  lemma Format1000(p: string)
    ensures FormatOrderId(p, Num(1000)) == p + "-1000"
  {
    Numerals();
    assert NumberToString(Num(1000)) == "1000";
  }
}
