/** Prices: the cleaning `savePost` applies to the typed price
    (`parseInt(value.replace(/[^0-9]/g, '')) || 0`) and the label
    `formatPrice` shows (`가격 미정` for a falsy price, otherwise the number
    grouped by thousands followed by `원`). */
module Price {
  import opened Common
  import opened Js

  /** The label for a missing or zero price. */
  const NoPrice: string := "가격 미정"

  /** `s.replace(/[^0-9]/g, '')`: the decimal digits of `s`, in order. */
  function KeepDigits(s: string): (r: string)
    ensures AllDigits(r) && |r| <= |s|
    ensures r == [] <==> forall i :: 0 <= i < |s| ==> !IsDigit(s[i])
  {
    if s == [] then []
    else
      var rest := KeepDigits(s[1..]);
      assert forall i :: 1 <= i < |s| ==> s[i] == s[1..][i - 1];
      if IsDigit(s[0]) then [s[0]] + rest else rest
  }

  lemma {:induction false} KeepDigitsAppend(a: string, b: string)
    ensures KeepDigits(a + b) == KeepDigits(a) + KeepDigits(b)
  {
    if a != [] {
      assert (a + b)[1..] == a[1..] + b;
      KeepDigitsAppend(a[1..], b);
    } else {
      assert a + b == b;
    }
  }

  lemma {:induction false} KeepDigitsOfDigits(s: string)
    requires AllDigits(s)
    ensures KeepDigits(s) == s
  {
    if s != [] {
      KeepDigitsOfDigits(s[1..]);
    }
  }

  /** `parseInt` on a string of digits: nothing (NaN) for the empty string. */
  function ParseInt(digits: string): (r: Option<nat>)
    requires AllDigits(digits)
    ensures r.None? <==> digits == []
  {
    if digits == [] then None else Some(ParseDecimal(digits))
  }

  /** The price `savePost` sends: `parseInt(cleaned) || 0`, where NaN and 0
      both fall back to 0. */
  function CleanPrice(input: string): (price: nat)
    ensures price == ParseDecimal(KeepDigits(input))
    ensures (forall i :: 0 <= i < |input| ==> !IsDigit(input[i])) ==> price == 0
  {
    var v := ParseInt(KeepDigits(input));
    if v.Some? && v.value != 0 then v.value else 0
  }

  /** Three digits with leading zeros: one group after a separator. */
  function Pad3(r: nat): (s: string)
    requires r < 1000
    ensures |s| == 3 && AllDigits(s) && ParseDecimal(s) == r
  {
    var q := r / 10;
    assert r == q * 10 + r % 10 && q < 100;
    assert q == q / 10 * 10 + q % 10;
    ThreeDigits(q / 10, q % 10, r % 10);
    [DigitChar(q / 10), DigitChar(q % 10), DigitChar(r % 10)]
  }

  lemma ThreeDigits(a: nat, b: nat, c: nat)
    requires a < 10 && b < 10 && c < 10
    ensures ParseDecimal([DigitChar(a), DigitChar(b), DigitChar(c)]) == (a * 10 + b) * 10 + c
  {
    var x, y, z := DigitChar(a), DigitChar(b), DigitChar(c);
    ParseDecimalSnoc([], x);
    assert [] + [x] == [x];
    ParseDecimalSnoc([x], y);
    assert [x] + [y] == [x, y];
    ParseDecimalSnoc([x, y], z);
    assert [x, y] + [z] == [x, y, z];
  }

  /** `n.toLocaleString()` in the Korean locale the page is written for: the
      decimal digits of `n` with a comma before each group of three from the
      right. */
  function GroupThousands(n: nat): (r: string)
    ensures |r| >= 1 && IsDigit(r[0])
  {
    if n < 1000 then NatToString(n) else GroupThousands(n / 1000) + "," + Pad3(n % 1000)
  }

  /** `formatPrice(price)`. */
  function FormatPrice(price: Option<nat>): (r: string)
    ensures (price.None? || price.value == 0) <==> r == NoPrice
    ensures price.Some? && price.value > 0 ==> |r| >= 2 && r[|r| - 1] == '원' && IsDigit(r[0])
  {
    if price.None? || price.value == 0 then NoPrice
    else
      var r := GroupThousands(price.value) + "원";
      assert r[|r| - 1] != NoPrice[|NoPrice| - 1];
      r
  }

  /** The thousands separators are the only characters grouping adds: the
      digits of a grouped number read back as the number. */
  lemma {:induction false} GroupedDigitsReadBack(n: nat)
    ensures ParseDecimal(KeepDigits(GroupThousands(n))) == n
  {
    if n < 1000 {
      KeepDigitsOfDigits(NatToString(n));
      ParseNatToString(n);
    } else {
      var q, r := n / 1000, n % 1000;
      GroupedDigitsReadBack(q);
      var g := GroupThousands(q);
      KeepDigitsAppend(g + ",", Pad3(r));
      KeepDigitsAppend(g, ",");
      KeepDigitsOfDigits(Pad3(r));
      assert KeepDigits(",") == [];
      assert GroupThousands(n) == g + "," + Pad3(r);
      assert KeepDigits(GroupThousands(n)) == KeepDigits(g) + Pad3(r);
      ParseDecimalAppend(KeepDigits(g), Pad3(r));
      assert Pow10(3) == 1000;
      assert ParseDecimal(KeepDigits(g) + Pad3(r)) == q * 1000 + r;
    }
  }

  /** Cleaning the displayed label of a price gives the price back: what the
      list shows is what was stored, `가격 미정` standing for 0. */
  lemma DisplayedPriceReadsBack(n: nat)
    ensures CleanPrice(FormatPrice(Some(n))) == n
  {
    if n == 0 {
      assert KeepDigits(NoPrice) == [];
      return;
    }
    var g := GroupThousands(n);
    assert FormatPrice(Some(n)) == g + "원";
    KeepDigitsAppend(g, "원");
    assert KeepDigits("원") == [];
    assert KeepDigits(g + "원") == KeepDigits(g);
    GroupedDigitsReadBack(n);
  }

  /** Cleaning the plain decimal form of a number gives the number. */
  lemma CleanDecimal(n: nat)
    ensures CleanPrice(NatToString(n)) == n
  {
    KeepDigitsOfDigits(NatToString(n));
    ParseNatToString(n);
  }

  /** A price typed as `15,000` is stored as 15000 and listed as `15,000원`. */
  lemma TypedPriceExample()
    ensures CleanPrice("15,000") == 15000
    ensures FormatPrice(Some(CleanPrice("15,000"))) == "15,000원"
  {
    GroupedExample();
    GroupedDigitsReadBack(15000);
    assert FormatPrice(Some(15000)) == "15,000" + "원";
  }

  lemma GroupedExample()
    ensures GroupThousands(15000) == "15,000"
  {
    assert NatToString(1) == "1";
    assert NatToString(15) == "15";
    assert Pad3(0) == "000";
    assert GroupThousands(15000) == GroupThousands(15) + "," + Pad3(0);
  }
}
