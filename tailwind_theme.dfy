/**
 * `generateTailwindTheme`: the brand constants re-keyed into the three
 * sections of a Tailwind theme extension.
 */
module TailwindTheme {
  import opened Wrappers
  import opened JsStrings
  import opened JsObjects
  import opened BrandTokens

  /** The theme object: each section is an object, kept as its ordered entries. */
  datatype Theme = Theme(
    colors: seq<(string, string)>,
    spacing: seq<(string, string)>,
    backgroundImage: seq<(string, string)>)

  /** `Object.fromEntries(Object.entries(m).map(([k, v]) => [p + k, v]))` */
  function PrefixKeys<V>(m: seq<(string, V)>, p: string): (r: seq<(string, V)>)
    ensures |r| == |m|
    ensures forall i :: 0 <= i < |m| ==> r[i].0 == p + m[i].0 && r[i].1 == m[i].1
  {
    if m == [] then [] else [(p + m[0].0, m[0].1)] + PrefixKeys(m[1..], p)
  }

  /** Prefixing is injective, so a prefixed key finds exactly what the plain key found. */
  lemma {:induction false} LookupPrefixKeys<V>(m: seq<(string, V)>, p: string, k: string)
    ensures Lookup(PrefixKeys(m, p), p + k) == Lookup(m, k)
  {
    if m != [] {
      var r := PrefixKeys(m, p);
      assert r[1..] == PrefixKeys(m[1..], p);
      if m[0].0 != k {
        assert (p + m[0].0)[|p|..] == m[0].0;
        assert (p + k)[|p|..] == k;
      }
      LookupPrefixKeys(m[1..], p, k);
    }
  }

  /** A key without the prefix is absent from the prefixed object. */
  lemma {:induction false} LookupUnprefixed<V>(m: seq<(string, V)>, p: string, key: string)
    requires !(p <= key)
    ensures Lookup(PrefixKeys(m, p), key) == None
  {
    if m != [] {
      var r := PrefixKeys(m, p);
      assert r[1..] == PrefixKeys(m[1..], p);
      assert p <= r[0].0;
      LookupUnprefixed(m[1..], p, key);
    }
  }

  /** Distinct keys stay distinct under a common prefix. */
  lemma PrefixKeysDistinct<V>(m: seq<(string, V)>, p: string)
    requires DistinctKeys(m)
    ensures DistinctKeys(PrefixKeys(m, p))
  {
    var r := PrefixKeys(m, p);
    forall i, j | 0 <= i < j < |r| ensures r[i].0 != r[j].0 {
      assert r[i].0[|p|..] == m[i].0;
      assert r[j].0[|p|..] == m[j].0;
    }
  }

  const ThemePrefix := "br-"

  /** The `colors` section, with its keys as the source spells them. */
  const ThemeColorEntries: seq<(string, string)> := [
    ("br-black", Black),
    ("br-white", White),
    ("br-amber", Amber),
    ("br-pink", HotPink),
    ("br-blue", ElectricBlue),
    ("br-violet", Violet)
  ]

  /**
   * `generateTailwindTheme()`: the colours are the palette values in palette
   * order under `br-` keys, and the spacing is SPACING with `br-` keys.
   */
  function GenerateTailwindTheme(): (t: Theme)
    ensures |t.colors| == |BrandColors|
    ensures forall i :: 0 <= i < |BrandColors| ==> ThemePrefix <= t.colors[i].0 && t.colors[i].1 == BrandColors[i].1
    ensures |t.spacing| == |Spacing|
    ensures forall i :: 0 <= i < |Spacing| ==> t.spacing[i] == (ThemePrefix + Spacing[i].0, Spacing[i].1)
  {
    Theme(
      colors := ThemeColorEntries,
      spacing := PrefixKeys(Spacing, ThemePrefix),
      backgroundImage := [("br-gradient", BrandGradient)])
  }

  /** Each theme colour is the palette colour it is named after; pink is hot-pink and blue electric-blue. */
  lemma ThemeColors()
    ensures DistinctKeys(GenerateTailwindTheme().colors)
    ensures |GenerateTailwindTheme().colors| == |BrandColors|
    ensures Lookup(GenerateTailwindTheme().colors, "br-black") == Lookup(BrandColors, "black")
    ensures Lookup(GenerateTailwindTheme().colors, "br-white") == Lookup(BrandColors, "white")
    ensures Lookup(GenerateTailwindTheme().colors, "br-amber") == Lookup(BrandColors, "amber")
    ensures Lookup(GenerateTailwindTheme().colors, "br-pink") == Lookup(BrandColors, "hot-pink")
    ensures Lookup(GenerateTailwindTheme().colors, "br-blue") == Lookup(BrandColors, "electric-blue")
    ensures Lookup(GenerateTailwindTheme().colors, "br-violet") == Lookup(BrandColors, "violet")
    ensures Lookup(GenerateTailwindTheme().colors, "br-pink") == Some("#FF1D6C")
  {
    assert GenerateTailwindTheme().colors == ThemeColorEntries;
    assert DistinctKeys(ThemeColorEntries);
    PaletteShape();
    FirstColorLookups();
    LastColorLookups();
  }

  lemma FirstColorLookups()
    requires DistinctKeys(ThemeColorEntries)
    ensures Lookup(ThemeColorEntries, "br-black") == Lookup(BrandColors, "black")
    ensures Lookup(ThemeColorEntries, "br-white") == Lookup(BrandColors, "white")
    ensures Lookup(ThemeColorEntries, "br-amber") == Lookup(BrandColors, "amber")
  {
    PaletteShape();
    LookupEntry(ThemeColorEntries, 0); LookupEntry(BrandColors, 0);
    LookupEntry(ThemeColorEntries, 1); LookupEntry(BrandColors, 1);
    LookupEntry(ThemeColorEntries, 2); LookupEntry(BrandColors, 2);
  }

  lemma LastColorLookups()
    requires DistinctKeys(ThemeColorEntries)
    ensures Lookup(ThemeColorEntries, "br-pink") == Lookup(BrandColors, "hot-pink")
    ensures Lookup(ThemeColorEntries, "br-blue") == Lookup(BrandColors, "electric-blue")
    ensures Lookup(ThemeColorEntries, "br-violet") == Lookup(BrandColors, "violet")
  {
    PaletteShape();
    LookupEntry(ThemeColorEntries, 3); LookupEntry(BrandColors, 3);
    LookupEntry(ThemeColorEntries, 4); LookupEntry(BrandColors, 4);
    LookupEntry(ThemeColorEntries, 5); LookupEntry(BrandColors, 5);
  }

  /** The spacing section is SPACING with every key prefixed by "br-": values and order unchanged. */
  lemma ThemeSpacing(k: string, key: string)
    ensures |GenerateTailwindTheme().spacing| == |Spacing|
    ensures forall i :: 0 <= i < |Spacing| ==>
      GenerateTailwindTheme().spacing[i] == ("br-" + Spacing[i].0, Spacing[i].1)
    ensures DistinctKeys(GenerateTailwindTheme().spacing)
    ensures Lookup(GenerateTailwindTheme().spacing, "br-" + k) == Lookup(Spacing, k)
    ensures !("br-" <= key) ==> Lookup(GenerateTailwindTheme().spacing, key) == None
  {
    assert DistinctKeys(Spacing);
    PrefixKeysDistinct(Spacing, ThemePrefix);
    LookupPrefixKeys(Spacing, ThemePrefix, k);
    if !("br-" <= key) {
      LookupUnprefixed(Spacing, ThemePrefix, key);
    }
  }

  /** The single background image is the brand gradient. */
  lemma ThemeGradient()
    ensures Lookup(GenerateTailwindTheme().backgroundImage, "br-gradient") == Some(BrandGradient)
    ensures Contains(Lookup(GenerateTailwindTheme().backgroundImage, "br-gradient").value, "linear-gradient")
  {
    GradientShape();
  }
}
