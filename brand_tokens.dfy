/**
 * The brand constants of the token generator -- palette, gradient, legacy
 * denylist and spacing scale -- and the palette validator `validateBrandColor`.
 */
module BrandTokens {
  import opened Wrappers
  import opened JsStrings
  import opened JsObjects

  const Black := "#000000"
  const White := "#FFFFFF"
  const Amber := "#F5A623"
  const HotPink := "#FF1D6C"
  const ElectricBlue := "#2979FF"
  const Violet := "#9C27B0"

  /** BRAND_COLORS, in declaration order. */
  const BrandColors: seq<(string, string)> := [
    ("black", Black),
    ("white", White),
    ("amber", Amber),
    ("hot-pink", HotPink),
    ("electric-blue", ElectricBlue),
    ("violet", Violet)
  ]

  /** The golden-ratio stops of the gradient. */
  const GoldenStopLow := "38.2%"
  const GoldenStopHigh := "61.8%"

  /**
   * BRAND_GRADIENT, the text
   * linear-gradient(135deg, #F5A623 0%, #FF1D6C 38.2%, #9C27B0 61.8%, #2979FF 100%)
   * written here by its pieces.
   */
  const BrandGradient := "linear-gradient(135deg, " + Amber + " 0%, " + HotPink + " " + GoldenStopLow + ", "
    + Violet + " " + GoldenStopHigh + ", " + ElectricBlue + " 100%)"

  /** FORBIDDEN_COLORS: colours of the old system. */
  const ForbiddenColors: seq<string> := [
    "#FF9D00", "#FF6B00", "#FF0066", "#FF006B", "#D600AA", "#7700FF", "#0066FF"
  ]

  /** SPACING, in declaration order. */
  const Spacing: seq<(string, string)> := [
    ("xs", "8px"),
    ("sm", "13px"),
    ("md", "21px"),
    ("lg", "34px"),
    ("xl", "55px"),
    ("2xl", "89px")
  ]

  predicate IsUpperHexDigit(c: char) { '0' <= c <= '9' || 'A' <= c <= 'F' }

  /** `#RRGGBB` written with upper-case hex digits. */
  predicate IsUpperHexColor(s: string) {
    |s| == 7 && s[0] == '#' && forall k :: 1 <= k < 7 ==> IsUpperHexDigit(s[k])
  }

  lemma PaletteShape()
    ensures |BrandColors| == 6
    ensures DistinctKeys(BrandColors)
    ensures forall i :: 0 <= i < |BrandColors| ==> IsUpperHexColor(BrandColors[i].1)
    ensures Lookup(BrandColors, "hot-pink") == Some("#FF1D6C")
    ensures Lookup(BrandColors, "amber") == Some("#F5A623")
  {
    LookupEntry(BrandColors, 2);
    LookupEntry(BrandColors, 3);
  }

  lemma ForbiddenShape()
    ensures |ForbiddenColors| == 7
    ensures forall i, j :: 0 <= i < j < |ForbiddenColors| ==> ForbiddenColors[i] != ForbiddenColors[j]
    ensures forall i :: 0 <= i < |ForbiddenColors| ==> IsUpperHexColor(ForbiddenColors[i])
  {
  }

  /** No legacy colour is a palette colour. */
  lemma PaletteForbiddenDisjoint()
    ensures forall i, j :: 0 <= i < |BrandColors| && 0 <= j < |ForbiddenColors| ==>
      BrandColors[i].1 != ForbiddenColors[j]
  {
  }

  /** An upper-case hex colour contains no lower-case letter, so upper-casing keeps it. */
  lemma UpperHexColorIsUpper(s: string)
    requires IsUpperHexColor(s)
    ensures Upper(s) == s
  {
    UpperOfUpper(s);
  }

  /** Even ignoring case, no legacy colour matches a palette colour. */
  lemma {:induction false} ForbiddenMatchesNoPaletteColor(f: string, i: nat)
    requires f in ForbiddenColors
    requires i < |BrandColors|
    ensures !EqualsIgnoringCase(f, BrandColors[i].1)
  {
    PaletteShape();
    ForbiddenShape();
    PaletteForbiddenDisjoint();
    var p := BrandColors[i].1;
    UpperHexColorIsUpper(f);
    UpperHexColorIsUpper(p);
    UpperEqualIff(f, p);
  }

  function DecimalValue(digits: string): nat
  {
    if digits == [] then 0
    else
      var d := digits[|digits| - 1];
      DecimalValue(digits[..|digits| - 1]) * 10 + (if '0' <= d <= '9' then d as int - '0' as int else 0)
  }

  /** The whole-pixel amount of a spacing value such as "13px". */
  function Pixels(s: string): Option<nat>
  {
    if |s| > 2 && s[|s| - 2..] == "px" && forall k :: 0 <= k < |s| - 2 ==> '0' <= s[k] <= '9'
    then Some(DecimalValue(s[..|s| - 2]))
    else None
  }

  lemma TwoDigits(s: string)
    requires |s| == 4 && s[2..] == "px" && '0' <= s[0] <= '9' && '0' <= s[1] <= '9'
    ensures Pixels(s) == Some((s[0] as int - '0' as int) * 10 + (s[1] as int - '0' as int))
  {
    var digits := s[..2];
    assert digits == [s[0], s[1]];
    assert digits[..1] == [s[0]];
    assert digits[..1][..0] == [];
    assert DecimalValue([s[0]]) == s[0] as int - '0' as int;
    assert DecimalValue(digits) == DecimalValue([s[0]]) * 10 + (s[1] as int - '0' as int);
  }

  lemma OneDigit(s: string)
    requires |s| == 3 && s[1..] == "px" && '0' <= s[0] <= '9'
    ensures Pixels(s) == Some(s[0] as int - '0' as int)
  {
    var digits := s[..1];
    assert digits == [s[0]];
    assert digits[..0] == [];
    assert DecimalValue(digits) == s[0] as int - '0' as int;
  }

  /** Each spacing key names its exact pixel text, and no key repeats. */
  lemma SpacingKeys()
    ensures DistinctKeys(Spacing)
    ensures Lookup(Spacing, "xs") == Some("8px") && Lookup(Spacing, "sm") == Some("13px")
    ensures Lookup(Spacing, "md") == Some("21px") && Lookup(Spacing, "lg") == Some("34px")
    ensures Lookup(Spacing, "xl") == Some("55px") && Lookup(Spacing, "2xl") == Some("89px")
  {
    assert DistinctKeys(Spacing);
    LookupEntry(Spacing, 0);
    LookupEntry(Spacing, 1);
    LookupEntry(Spacing, 2);
    LookupEntry(Spacing, 3);
    LookupEntry(Spacing, 4);
    LookupEntry(Spacing, 5);
  }

  /** The spacing scale is a Fibonacci run 8, 13, ..., 89: each step is about phi times the previous. */
  lemma SpacingIsFibonacci()
    ensures |Spacing| == 6
    ensures forall i :: 0 <= i < |Spacing| ==> Pixels(Spacing[i].1).Some?
    ensures Pixels(Spacing[0].1) == Some(8) && Pixels(Spacing[1].1) == Some(13)
    ensures forall i :: 2 <= i < |Spacing| ==>
      Pixels(Spacing[i].1).value == Pixels(Spacing[i - 1].1).value + Pixels(Spacing[i - 2].1).value
  {
    assert Pixels("8px") == Some(8) by { OneDigit("8px"); }
    assert Pixels("13px") == Some(13) by { TwoDigits("13px"); }
    assert Pixels("21px") == Some(21) by { TwoDigits("21px"); }
    assert Pixels("34px") == Some(34) by { TwoDigits("34px"); }
    assert Pixels("55px") == Some(55) by { TwoDigits("55px"); }
    assert Pixels("89px") == Some(89) by { TwoDigits("89px"); }
  }

  lemma GradientShape()
    ensures Contains(BrandGradient, "linear-gradient")
    ensures Contains(BrandGradient, Amber) && Contains(BrandGradient, HotPink)
    ensures Contains(BrandGradient, Violet) && Contains(BrandGradient, ElectricBlue)
    ensures Contains(BrandGradient, GoldenStopLow) && Contains(BrandGradient, GoldenStopHigh)
  {
    var g := BrandGradient;
    var p1 := "linear-gradient(135deg, ";
    var p2 := p1 + Amber + " 0%, ";
    var p3 := p2 + HotPink + " ";
    var p4 := p3 + GoldenStopLow + ", ";
    var p5 := p4 + Violet + " ";
    var p6 := p5 + GoldenStopHigh + ", ";
    var tail := " 100%)";
    assert g == p1 + Amber + (g[|p1| + |Amber|..]);
    ContainsMiddle(p1, Amber, g[|p1| + |Amber|..]);
    assert g == p2 + HotPink + (g[|p2| + |HotPink|..]);
    ContainsMiddle(p2, HotPink, g[|p2| + |HotPink|..]);
    assert g == p3 + GoldenStopLow + (g[|p3| + |GoldenStopLow|..]);
    ContainsMiddle(p3, GoldenStopLow, g[|p3| + |GoldenStopLow|..]);
    assert g == p4 + Violet + (g[|p4| + |Violet|..]);
    ContainsMiddle(p4, Violet, g[|p4| + |Violet|..]);
    assert g == p5 + GoldenStopHigh + (g[|p5| + |GoldenStopHigh|..]);
    ContainsMiddle(p5, GoldenStopHigh, g[|p5| + |GoldenStopHigh|..]);
    assert g == p6 + ElectricBlue + tail;
    ContainsMiddle(p6, ElectricBlue, tail);
    assert p1 == "linear-gradient" + "(135deg, ";
    assert g == "" + "linear-gradient" + g[15..];
    ContainsMiddle("", "linear-gradient", g[15..]);
  }

  /** The result of `validateBrandColor`: `reason` is an optional field. */
  datatype Validation = Validation(valid: bool, reason: Option<string>)

  /** Every palette colour is already upper-case. */
  lemma PaletteIsUpper()
    ensures forall i :: 0 <= i < |BrandColors| ==> Upper(BrandColors[i].1) == BrandColors[i].1
  {
    PaletteShape();
    forall i | 0 <= i < |BrandColors| ensures Upper(BrandColors[i].1) == BrandColors[i].1 {
      UpperHexColorIsUpper(BrandColors[i].1);
    }
  }

  /**
   * `Object.values(BRAND_COLORS).map(c => c.toUpperCase())`: since the palette
   * is written in upper case, these are the palette values themselves.
   */
  function UpperBrandValues(): (vs: seq<string>)
    ensures |vs| == |BrandColors|
    ensures forall i :: 0 <= i < |BrandColors| ==> vs[i] == BrandColors[i].1
  {
    PaletteIsUpper();
    seq(|BrandColors|, i requires 0 <= i < |BrandColors| => Upper(BrandColors[i].1))
  }

  function ForbiddenReason(hex: string): string {
    "Forbidden color: " + hex + " (old system)"
  }

  function NotInPaletteReason(hex: string): string {
    hex + " is not in the BlackRoad brand palette"
  }

  /**
   * `validateBrandColor(hex)`: the exact, case-sensitive denylist check comes
   * first; then the upper-cased input is looked for among the upper-cased
   * palette values.
   */
  function ValidateBrandColor(hex: string): (r: Validation)
    ensures r.valid <==> r.reason == None
  {
    var upper := Upper(hex);
    if hex in ForbiddenColors then
      Validation(false, Some(ForbiddenReason(hex)))
    else if upper !in UpperBrandValues() then
      Validation(false, Some(NotInPaletteReason(hex)))
    else
      Validation(true, None)
  }

  /** An input is accepted exactly when it equals some palette colour up to letter case. */
  lemma ValidIffPaletteMatch(hex: string)
    ensures ValidateBrandColor(hex).valid <==>
      exists i :: 0 <= i < |BrandColors| && EqualsIgnoringCase(hex, BrandColors[i].1)
  {
    var vs := UpperBrandValues();
    if exists i :: 0 <= i < |BrandColors| && EqualsIgnoringCase(hex, BrandColors[i].1) {
      var i :| 0 <= i < |BrandColors| && EqualsIgnoringCase(hex, BrandColors[i].1);
      if hex in ForbiddenColors {
        ForbiddenMatchesNoPaletteColor(hex, i);
      }
      UpperEqualIff(hex, BrandColors[i].1);
      PaletteIsUpper();
      assert vs[i] == Upper(hex);
    }
    if ValidateBrandColor(hex).valid {
      var i :| 0 <= i < |vs| && vs[i] == Upper(hex);
      PaletteIsUpper();
      UpperEqualIff(hex, BrandColors[i].1);
    }
  }

  /** Acceptance does not depend on letter case. */
  lemma ValidityIgnoresCase(a: string, b: string)
    requires EqualsIgnoringCase(a, b)
    ensures ValidateBrandColor(a).valid == ValidateBrandColor(b).valid
  {
    ValidIffPaletteMatch(a);
    ValidIffPaletteMatch(b);
    UpperEqualIff(a, b);
    if ValidateBrandColor(a).valid {
      var i :| 0 <= i < |BrandColors| && EqualsIgnoringCase(a, BrandColors[i].1);
      UpperEqualIff(a, BrandColors[i].1);
      UpperEqualIff(b, BrandColors[i].1);
    }
    if ValidateBrandColor(b).valid {
      var i :| 0 <= i < |BrandColors| && EqualsIgnoringCase(b, BrandColors[i].1);
      UpperEqualIff(a, BrandColors[i].1);
      UpperEqualIff(b, BrandColors[i].1);
    }
  }

  /** Every palette colour is accepted, as is any case variant of it. */
  lemma PaletteColorAccepted(i: nat, hex: string)
    requires i < |BrandColors|
    requires EqualsIgnoringCase(hex, BrandColors[i].1)
    ensures ValidateBrandColor(hex).valid
    ensures ValidateBrandColor(BrandColors[i].1).valid
  {
    ValidIffPaletteMatch(hex);
    ValidityIgnoresCase(hex, BrandColors[i].1);
  }

  /** The denylist check runs first and names the colour as forbidden. */
  lemma ForbiddenRejected(hex: string)
    requires hex in ForbiddenColors
    ensures ValidateBrandColor(hex) == Validation(false, Some(ForbiddenReason(hex)))
    ensures Contains(ValidateBrandColor(hex).reason.value, "Forbidden")
  {
    ContainsAt(ForbiddenReason(hex), "Forbidden", 0);
  }

  /** Any other rejection says the colour is not in the palette. */
  lemma OtherRejection(hex: string)
    requires hex !in ForbiddenColors
    requires !ValidateBrandColor(hex).valid
    ensures ValidateBrandColor(hex).reason == Some(NotInPaletteReason(hex))
  {
  }

  /** The test suite's accepted colour, in either case. */
  lemma HotPinkAccepted()
    ensures ValidateBrandColor("#FF1D6C").valid
    ensures ValidateBrandColor("#ff1d6c").valid
  {
    assert EqualsIgnoringCase("#ff1d6c", BrandColors[3].1);
    PaletteColorAccepted(3, "#ff1d6c");
  }

  /** The test suite's forbidden colour is rejected as forbidden. */
  lemma LegacyOrangeRejected()
    ensures !ValidateBrandColor("#FF9D00").valid
    ensures Contains(ValidateBrandColor("#FF9D00").reason.value, "Forbidden")
  {
    ForbiddenRejected("#FF9D00");
  }

  /** No spelling of a legacy colour, in any letter case, is accepted. */
  lemma LegacyVariantRejected(hex: string, j: nat)
    requires j < |ForbiddenColors|
    requires EqualsIgnoringCase(hex, ForbiddenColors[j])
    ensures !ValidateBrandColor(hex).valid
  {
    ValidIffPaletteMatch(hex);
    forall i | 0 <= i < |BrandColors| ensures !EqualsIgnoringCase(hex, BrandColors[i].1) {
      if EqualsIgnoringCase(hex, BrandColors[i].1) {
        UpperEqualIff(hex, ForbiddenColors[j]);
        EqualsIgnoringCaseTransitive(ForbiddenColors[j], hex, BrandColors[i].1);
        ForbiddenMatchesNoPaletteColor(ForbiddenColors[j], i);
      }
    }
  }

  /** The denylist is matched case-sensitively: the lower-case spelling of a legacy colour is not forbidden, only unknown. */
  lemma LowerCaseLegacyOrange()
    ensures ValidateBrandColor("#ff9d00") == Validation(false, Some(NotInPaletteReason("#ff9d00")))
  {
    var lower := "#ff9d00";
    assert lower !in ForbiddenColors;
    assert EqualsIgnoringCase(lower, ForbiddenColors[0]);
    LegacyVariantRejected(lower, 0);
    OtherRejection(lower);
  }
}
