/** Worker business keys of the form "W" followed by a number formatted with
    at least four digits (GenerateWorkerIdAsync): ordinal string order,
    `int.TryParse`, the "D4" format, the generator as written, and a
    corrected generator that always yields a fresh key. */
module WorkerIds {
  import opened Common

  // ---------------------------------------------------------------------
  // Ordinal string order

  /** `a` sorts at or before `b`, comparing characters by code point. */
  predicate LexLe(a: string, b: string)
    decreases |a|
  {
    if |a| == 0 then true
    else if |b| == 0 then false
    else if a[0] < b[0] then true
    else if a[0] > b[0] then false
    else LexLe(a[1..], b[1..])
  }

  lemma {:induction false} LexLeTotal(a: string, b: string)
    ensures LexLe(a, b) || LexLe(b, a)
    decreases |a|
  {
    if |a| > 0 && |b| > 0 && a[0] == b[0] {
      LexLeTotal(a[1..], b[1..]);
    }
  }

  lemma {:induction false} LexLeTransitive(a: string, b: string, c: string)
    requires LexLe(a, b) && LexLe(b, c)
    ensures LexLe(a, c)
    decreases |a|
  {
    if |a| > 0 && |b| > 0 && |c| > 0 && a[0] == b[0] && b[0] == c[0] {
      LexLeTransitive(a[1..], b[1..], c[1..]);
    }
  }

  /** The greatest string of a non-empty list in ordinal order
      (`OrderByDescending(...).First()`). */
  function LexMax(ids: seq<string>): (m: string)
    requires |ids| > 0
    ensures m in ids
    ensures forall i :: 0 <= i < |ids| ==> LexLe(ids[i], m)
  {
    if |ids| == 1 then
      LexLeTotal(ids[0], ids[0]);
      ids[0]
    else
      var rest := LexMax(ids[1..]);
      assert forall i :: 1 <= i < |ids| ==> ids[i] == ids[1..][i - 1];
      if LexLe(ids[0], rest) then rest
      else
        LexLeTotal(ids[0], rest);
        LexLeTotal(ids[0], ids[0]);
        forall i | 1 <= i < |ids| ensures LexLe(ids[i], ids[0]) {
          LexLeTransitive(ids[i], rest, ids[0]);
        }
        ids[0]
  }

  /** The key starts with "W" (`StartsWith("W")`). */
  predicate StartsWithW(id: string) {
    |id| > 0 && id[0] == 'W'
  }

  /** The keys that start with "W", in their original order. */
  function WPrefixed(ids: seq<string>): (r: seq<string>)
    ensures forall x :: x in r <==> x in ids && StartsWithW(x)
  {
    if |ids| == 0 then []
    else
      var rest := WPrefixed(ids[1..]);
      assert forall x :: x in ids[1..] ==> x in ids;
      assert forall x :: x in ids ==> x == ids[0] || x in ids[1..];
      if StartsWithW(ids[0]) then [ids[0]] + rest else rest
  }

  // ---------------------------------------------------------------------
  // int.TryParse with the default number style (leading and trailing white
  // space, an optional leading sign, decimal digits, the `int` range)

  predicate IsWhite(c: char) {
    c == ' ' || '\t' <= c <= '\r'
  }

  predicate IsDigit(c: char) {
    '0' <= c <= '9'
  }

  predicate AllDigits(s: string) {
    forall i :: 0 <= i < |s| ==> IsDigit(s[i])
  }

  /** The value of a string of decimal digits, read left to right. */
  function DigitsValue(s: string): nat
    requires AllDigits(s)
  {
    if |s| == 0 then 0
    else DigitsValue(s[..|s| - 1]) * 10 + (s[|s| - 1] as int - '0' as int)
  }

  function TrimStart(s: string): (r: string)
    ensures |r| <= |s|
  {
    if |s| > 0 && IsWhite(s[0]) then TrimStart(s[1..]) else s
  }

  function TrimEnd(s: string): (r: string)
    ensures |r| <= |s|
  {
    if |s| > 0 && IsWhite(s[|s| - 1]) then TrimEnd(s[..|s| - 1]) else s
  }

  /** A signed decimal numeral without surrounding white space. */
  function ParseSigned(t: string): (r: Option<int>)
  {
    if |t| == 0 then None
    else
      var negative := t[0] == '-';
      var digits := if t[0] == '-' || t[0] == '+' then t[1..] else t;
      if |digits| == 0 || !AllDigits(digits) then None
      else if negative then Some(0 - DigitsValue(digits))
      else Some(DigitsValue(digits))
  }

  /** `int.TryParse(s, out v)`: the value when `s` is a numeral in range. */
  function TryParseInt32(s: string): (r: Option<Int32>)
  {
    match ParseSigned(TrimEnd(TrimStart(s)))
    case Some(v) => if Int32Min <= v <= Int32Max then Some(v) else None
    case None => None
  }

  // ---------------------------------------------------------------------
  // The "D4" format: at least four digits, zero-padded, minus sign first

  function DigitChar(d: int): (c: char)
    requires 0 <= d <= 9
    ensures IsDigit(c) && c as int - '0' as int == d
  {
    ('0' as int + d) as char
  }

  /** The shortest decimal numeral of `n`. */
  function DecimalDigits(n: nat): (s: string)
    ensures |s| >= 1 && AllDigits(s)
  {
    if n < 10 then [DigitChar(n)] else DecimalDigits(n / 10) + [DigitChar(n % 10)]
  }

  function Zeros(k: nat): (s: string)
    ensures |s| == k && forall i :: 0 <= i < k ==> s[i] == '0'
  {
    if k == 0 then [] else Zeros(k - 1) + ['0']
  }

  function PadLeft4(s: string): (r: string)
    ensures |r| >= 4 && |r| >= |s|
  {
    if |s| < 4 then Zeros(4 - |s|) + s else s
  }

  /** `n.ToString("D4")`. */
  function FormatD4(n: Int32): string {
    if n < 0 then "-" + PadLeft4(DecimalDigits(-(n as int))) else PadLeft4(DecimalDigits(n))
  }

  lemma {:induction false} DecimalDigitsValue(n: nat)
    ensures DigitsValue(DecimalDigits(n)) == n
  {
    if n >= 10 {
      DecimalDigitsValue(n / 10);
      var s := DecimalDigits(n);
      assert s[..|s| - 1] == DecimalDigits(n / 10);
    }
  }

  /** Leading zeros do not change the value of a numeral. */
  lemma {:induction false} LeadingZerosValue(k: nat, s: string)
    requires AllDigits(s)
    ensures AllDigits(Zeros(k) + s) && DigitsValue(Zeros(k) + s) == DigitsValue(s)
    decreases |s|, k
  {
    var z := Zeros(k) + s;
    assert AllDigits(z);
    if |s| == 0 {
      assert z == Zeros(k);
      if k > 0 {
        assert z[..|z| - 1] == Zeros(k - 1);
        LeadingZerosValue(k - 1, []);
        assert Zeros(k - 1) + [] == Zeros(k - 1);
      }
    } else {
      var s' := s[..|s| - 1];
      assert z[..|z| - 1] == Zeros(k) + s';
      LeadingZerosValue(k, s');
    }
  }

  lemma WhiteFreeTrims(s: string)
    requires |s| > 0 && !IsWhite(s[0]) && !IsWhite(s[|s| - 1])
    ensures TrimEnd(TrimStart(s)) == s
  {
  }

  /** The zero-padded numeral of `m` is all digits and has value `m`. */
  lemma PaddedValue(m: nat)
    ensures AllDigits(PadLeft4(DecimalDigits(m)))
    ensures DigitsValue(PadLeft4(DecimalDigits(m))) == m
  {
    var d := DecimalDigits(m);
    DecimalDigitsValue(m);
    if |d| < 4 { LeadingZerosValue(4 - |d|, d); }
  }

  lemma ParseSignedOfFormat(n: Int32)
    ensures ParseSigned(FormatD4(n)) == Some(n as int)
  {
    var m: nat := if n < 0 then -(n as int) else n;
    var p := PadLeft4(DecimalDigits(m));
    PaddedValue(m);
    var f := FormatD4(n);
    if n < 0 {
      assert f == "-" + p;
      assert f[1..] == p;
    } else {
      assert f == p;
      assert IsDigit(f[0]);
    }
  }

  /** Parsing a formatted number gives the number back. */
  lemma ParseFormatRoundTrip(n: Int32)
    ensures TryParseInt32(FormatD4(n)) == Some(n)
  {
    var m: nat := if n < 0 then -(n as int) else n;
    var p := PadLeft4(DecimalDigits(m));
    PaddedValue(m);
    var f := FormatD4(n);
    assert IsDigit(p[|p| - 1]);
    assert f[|f| - 1] == p[|p| - 1];
    assert !IsWhite(f[0]) by {
      if n >= 0 { assert f == p && IsDigit(p[0]); }
    }
    WhiteFreeTrims(f);
    ParseSignedOfFormat(n);
  }

  // ---------------------------------------------------------------------
  // The generator

  /** The number a key carries, when it is "W" followed by a numeral. */
  function SuffixValue(id: string): (r: Option<Int32>)
    ensures r.Some? ==> StartsWithW(id) && |id| > 1
  {
    if StartsWithW(id) && |id| > 1 then TryParseInt32(id[1..]) else None
  }

  /** The number carried by the greatest W-prefixed key in string order, if
      that key is "W" followed by a numeral. */
  function LastKeyNumber(ids: seq<string>): Option<Int32> {
    var ws := WPrefixed(ids);
    if |ws| == 0 then None else SuffixValue(LexMax(ws))
  }

  /** GenerateWorkerIdAsync as written: take the greatest W-prefixed key in
      string order, and if its suffix parses, format that number plus one
      (with `int` wrap-around); otherwise start at 1. */
  function GenerateWorkerId(ids: seq<string>): (r: string)
    ensures |r| >= 5 && r[0] == 'W'
    ensures SuffixValue(r) == Some(match LastKeyNumber(ids)
                                   case Some(v) => Wrap32(v + 1)
                                   case None => 1)
  {
    var next: Int32 :=
      match LastKeyNumber(ids)
      case Some(v) => Wrap32(v + 1)
      case None => 1;
    ParseFormatRoundTrip(next);
    assert ("W" + FormatD4(next))[1..] == FormatD4(next);
    "W" + FormatD4(next)
  }

  /** With no W-prefixed key the first key is W0001. */
  lemma FirstKeyIsW0001(ids: seq<string>)
    requires forall i :: 0 <= i < |ids| ==> !StartsWithW(ids[i])
    ensures GenerateWorkerId(ids) == "W0001"
  {
    assert DecimalDigits(1) == "1";
    assert Zeros(3) == "000";
  }

  /** When the greatest W-prefixed key in string order does not carry a
      number ("W" alone, "WX1"), the generator starts again at W0001. */
  lemma UnparsableLastKeyGivesW0001(ids: seq<string>)
    requires |WPrefixed(ids)| > 0
    requires SuffixValue(LexMax(WPrefixed(ids))).None?
    ensures GenerateWorkerId(ids) == "W0001"
  {
    assert DecimalDigits(1) == "1";
    assert Zeros(3) == "000";
  }

  /** Both keys are W-prefixed, and W9999 is the greater in string order. */
  lemma W9999IsLastInStringOrder()
    ensures WPrefixed(["W9999", "W10000"]) == ["W9999", "W10000"]
    ensures LexMax(["W9999", "W10000"]) == "W9999"
  {
    var ids := ["W9999", "W10000"];
    assert WPrefixed(ids[1..]) == ["W10000"] by {
      assert ids[1..][1..] == [];
    }
    assert LexLe("W10000", "W9999") by {
      assert "W10000"[1..] == "10000" && "W9999"[1..] == "9999";
    }
    assert !LexLe("W9999", "W10000") by {
      assert "W10000"[1..] == "10000" && "W9999"[1..] == "9999";
    }
  }

  /** The suffix of W9999 parses as 9999. */
  lemma SuffixOfW9999()
    ensures TryParseInt32("W9999"[1..]) == Some(9999)
  {
    var t := "W9999"[1..];
    assert t == "9999";
    assert TrimEnd(TrimStart(t)) == t;
    assert t[..3] == "999" && t[..3][..2] == "99" && t[..3][..2][..1] == "9" && t[..3][..2][..1][..0] == "";
    assert DigitsValue(t) == 9999;
  }

  /** 10000 is written with its five digits. */
  lemma DigitsOfTenThousand()
    ensures DecimalDigits(10000) == "10000"
  {
    assert DecimalDigits(1) == "1";
    assert DecimalDigits(10) == "10";
    assert DecimalDigits(100) == "100";
    assert DecimalDigits(1000) == "1000";
  }

  /** String order is not numeric order: once W9999 and W10000 exist, the
      greatest key in string order is still W9999, so the generator proposes
      W10000 again, a key that is already taken. */
  lemma GeneratorRepeatsAfterW9999()
    ensures GenerateWorkerId(["W9999", "W10000"]) == "W10000"
    ensures "W10000" in ["W9999", "W10000"]
  {
    W9999IsLastInStringOrder();
    SuffixOfW9999();
    DigitsOfTenThousand();
    assert LastKeyNumber(["W9999", "W10000"]) == Some(9999);
  }

  /** The greatest number carried by any key, in numeric order. */
  function MaxSuffix(ids: seq<string>): (r: Option<Int32>)
    ensures r.None? <==> forall i :: 0 <= i < |ids| ==> SuffixValue(ids[i]).None?
    ensures r.Some? ==> forall i :: 0 <= i < |ids| && SuffixValue(ids[i]).Some? ==>
      SuffixValue(ids[i]).value <= r.value
    ensures r.Some? ==> exists i :: 0 <= i < |ids| && SuffixValue(ids[i]) == r
  {
    if |ids| == 0 then None
    else
      var rest := MaxSuffix(ids[1..]);
      assert forall i :: 1 <= i < |ids| ==> ids[i] == ids[1..][i - 1];
      match SuffixValue(ids[0])
      case None => rest
      case Some(v) =>
        if rest.None? || rest.value < v then Some(v)
        else rest
  }

  /** The generator as intended: one more than the greatest number in numeric
      order, or W0001 when no key carries a number. There is no next key once
      the greatest number is the largest `int`. */
  function NextWorkerId(ids: seq<string>): (r: Option<string>)
    ensures r.Some? ==> r.value !in ids
    ensures r.Some? ==> StartsWithW(r.value) && SuffixValue(r.value).Some?
    ensures r.Some? && MaxSuffix(ids).Some? ==> SuffixValue(r.value).value == MaxSuffix(ids).value + 1
    ensures r.None? <==> MaxSuffix(ids) == Some(Int32Max)
  {
    var m := MaxSuffix(ids);
    if m.Some? && m.value == Int32Max then None
    else
      var next: Int32 := if m.None? then 1 else m.value + 1;
      var key := "W" + FormatD4(next);
      ParseFormatRoundTrip(next);
      assert key[1..] == FormatD4(next);
      assert SuffixValue(key) == Some(next);
      FormattedKeyIsFresh(ids, key, next);
      Some(key)
  }

  /** A key whose number exceeds every number carried by `ids` is not in `ids`. */
  lemma FormattedKeyIsFresh(ids: seq<string>, key: string, next: Int32)
    requires SuffixValue(key) == Some(next)
    requires MaxSuffix(ids).Some? ==> MaxSuffix(ids).value < next
    ensures key !in ids
  {
    if key in ids {
      var i :| 0 <= i < |ids| && ids[i] == key;
    }
  }

  /** The intended generator agrees with the one as written whenever the
      greatest key in string order also carries the greatest number, as it
      does while every numbered key has exactly four digits. */
  lemma NextAgreesWhileOrdersAgree(ids: seq<string>)
    requires LastKeyNumber(ids) == MaxSuffix(ids)
    requires MaxSuffix(ids).Some? ==> MaxSuffix(ids).value < Int32Max
    ensures NextWorkerId(ids) == Some(GenerateWorkerId(ids))
  {
    if MaxSuffix(ids).Some? {
      var m := MaxSuffix(ids).value;
      assert Wrap32(m + 1) == m + 1;
    }
  }
}
