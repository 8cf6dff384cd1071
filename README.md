# BlackRoad design tokens, in Dafny

This project models the token generator of the BlackRoad design system
(`src/tokens/generator.ts`) and proves properties of it. It covers:

- the brand constants: the six-colour palette `BRAND_COLORS`, the gradient
  `BRAND_GRADIENT`, the denylist of old-system colours `FORBIDDEN_COLORS` and
  the golden-ratio spacing scale `SPACING` (module `BrandTokens`);
- `validateBrandColor`. It first checks the raw input against the denylist,
  exactly and case-sensitively. It then looks for the upper-cased input among
  the upper-cased palette values (module `BrandTokens`);
- `generateTailwindTheme`, which projects the constants into a theme object
  with `colors`, `spacing` and `backgroundImage` sections (module `TailwindTheme`);
- `generateCSSVariables`, which walks a nested token map depth-first and emits
  one `  --prefix-k1-k2: value;` declaration per leaf inside `:root { ... }`
  (module `CssVariables`, with its properties in `CssVariablesProperties`).

The JavaScript built-ins it relies on are modelled in `JsStrings`:
`toUpperCase` and `join`. The string `includes` and `split` there are used to
state properties: `includes` for what the source's tests check of the gradient
and the reasons, `split` for reading the output back line by line. The
generator's own two `includes` calls are on arrays and are Dafny's `in`.
Objects are modelled in `JsObjects` as the ordered list of their entries.

Modelling choices:

- A JavaScript value is `Prim(text)` (anything whose `typeof` is not
  `"object"`, with its template-literal text), `Null`, or `Obj(entries)`.
  A leaf is an object that has a `value` key among its own entries: the
  source's `'value' in obj` test, applied to an object's own entries. Its
  declaration carries the template-literal text of that field: the text of a
  primitive, `null`, or `[object Object]`.
- The source evaluates `typeof obj === 'object' && 'value' in obj`. For
  `null`, `typeof` is `"object"` and `in` then throws a `TypeError`. So a
  `null` in a group, or a `null` token map, makes `generateCSSVariables` throw.
  The model returns `Failure(InOperatorOnNull)` in that case (the TypeScript
  types rule this input out, but the code does not). A `null` as a leaf's
  `value` is never tested with `in` and renders as `null`.
- `flatten` pushes onto a local array from inside its recursion. Here it is
  the method `CssVariables.Flatten`. It takes the lines pushed so far and
  returns them extended, plus a flag that is false where the source throws.
  Its loop over the entries carries invariants against the pure recursive
  function `Lines`.
- `BrandGradient` is written as a concatenation of the named colours and the
  stops. The string is the same as the source's single literal.

## Model

| member | source | states |
|---|---|---|
| `JsStrings.Upper` | src/tokens/generator.ts:107 | upper-casing keeps the length and maps each character through the ASCII a-z to A-Z mapping |
| `JsStrings.UpperEqualIff` | src/tokens/generator.ts:111-112 | two strings have equal upper-case forms exactly when they are equal up to letter case, character by character |
| `JsStrings.UpperIdempotent` | src/tokens/generator.ts:107 | upper-casing twice is the same as upper-casing once |
| `JsStrings.Join` | src/tokens/generator.ts:71-82 | the joined text starts with the first element |
| `JsStrings.SplitJoin` | src/tokens/generator.ts:82 | joining lines with a newline and splitting the text on newlines gives the lines back, when no line contains a newline |
| `JsObjects.Lookup` | src/tokens/generator.ts:89-94 | a key is absent exactly when no entry carries it; otherwise the result is the value of the first entry that carries it |
| `JsObjects.LookupSomeIff` | src/tokens/generator.ts:70 | a key is found exactly when some entry carries it |
| `JsObjects.LookupEntry` | src/tokens/generator.ts:89-94 | with distinct keys, an entry's key finds that entry's value |
| `BrandTokens.PaletteShape` | src/tokens/generator.ts:35-42 | the palette has exactly six entries with distinct names, each `#` plus six upper-case hex digits; hot-pink is #FF1D6C and amber #F5A623 |
| `BrandTokens.ForbiddenShape` | src/tokens/generator.ts:51-53 | the denylist has exactly seven distinct entries, each an upper-case `#RRGGBB` colour |
| `BrandTokens.PaletteForbiddenDisjoint` | src/tokens/generator.ts:35-53 | no denylisted colour is a palette colour |
| `BrandTokens.ForbiddenMatchesNoPaletteColor` | src/tokens/generator.ts:35-53 | no denylisted colour equals a palette colour even when letter case is ignored |
| `BrandTokens.SpacingIsFibonacci` | src/tokens/generator.ts:56-63 | the six spacing values are whole pixel amounts 8, 13, ... with each one the sum of the two before it (the golden-ratio scale) |
| `BrandTokens.SpacingKeys` | test/test_design_tokens.ts:56-60 | SPACING has distinct keys, and `xs`, `sm`, `md`, `lg`, `xl`, `2xl` name exactly `8px`, `13px`, `21px`, `34px`, `55px`, `89px` |
| `BrandTokens.GradientShape` | src/tokens/generator.ts:47-48 | the gradient is a `linear-gradient` containing amber, hot-pink, violet and electric-blue and the stops 38.2% and 61.8% |
| `BrandTokens.ValidateBrandColor` | src/tokens/generator.ts:106-116 | the validator is total, and `reason` is present exactly when `valid` is false |
| `BrandTokens.ValidIffPaletteMatch` | src/tokens/generator.ts:106-116 | an input is accepted exactly when it equals some palette colour up to letter case, in both directions |
| `BrandTokens.ValidityIgnoresCase` | src/tokens/generator.ts:107-112 | two inputs equal up to letter case are both accepted or both rejected |
| `BrandTokens.PaletteColorAccepted` | src/tokens/generator.ts:111-115 | every palette colour and every case variant of it is accepted |
| `BrandTokens.ForbiddenRejected` | src/tokens/generator.ts:108-110 | a denylisted input is rejected by the first check, with the reason `Forbidden color: <hex> (old system)`, which contains "Forbidden" |
| `BrandTokens.OtherRejection` | src/tokens/generator.ts:112-114 | any rejection of an input that is not denylisted gives the reason `<hex> is not in the BlackRoad brand palette` |
| `BrandTokens.LegacyVariantRejected` | src/tokens/generator.ts:107-114 | no spelling of a denylisted colour in any letter case is accepted |
| `BrandTokens.LowerCaseLegacyOrange` | src/tokens/generator.ts:108-114 | the denylist is case-sensitive: `#ff9d00` is rejected as not in the palette, not as forbidden |
| `BrandTokens.HotPinkAccepted` | test/test_design_tokens.ts:66-69 | `#FF1D6C` is accepted, and so is `#ff1d6c` |
| `BrandTokens.LegacyOrangeRejected` | test/test_design_tokens.ts:71-75 | `#FF9D00` is rejected with a reason containing "Forbidden" |
| `BrandTokens.UpperBrandValues` | src/tokens/generator.ts:111 | the palette is written in upper case, so the upper-cased values are the palette values themselves, one per entry, in order |
| `BrandTokens.PaletteIsUpper` | src/tokens/generator.ts:35-42 | upper-casing any palette colour leaves it unchanged |
| `TailwindTheme.GenerateTailwindTheme` | src/tokens/generator.ts:86-103 | the colours are the six palette values in palette order, each under a `br-` key, and the spacing section is SPACING entry by entry with `br-` keys |
| `TailwindTheme.PrefixKeys` | src/tokens/generator.ts:96-98 | re-keying keeps the length, the order and every value, and prefixes every key |
| `TailwindTheme.LookupPrefixKeys` | src/tokens/generator.ts:96-98 | looking up `p + k` in the re-keyed object finds exactly what `k` finds in the original |
| `TailwindTheme.LookupUnprefixed` | src/tokens/generator.ts:96-98 | a key without the prefix is absent from the re-keyed object |
| `TailwindTheme.PrefixKeysDistinct` | src/tokens/generator.ts:96-98 | distinct keys stay distinct after prefixing |
| `TailwindTheme.ThemeColors` | src/tokens/generator.ts:88-95 | the six theme colours have distinct keys and each is its palette colour; `br-pink` is hot-pink (#FF1D6C) and `br-blue` is electric-blue |
| `TailwindTheme.ThemeSpacing` | src/tokens/generator.ts:96-98 | the spacing section is SPACING with keys `br-`+k, values and order unchanged; every lookup agrees and unprefixed keys are absent |
| `TailwindTheme.ThemeGradient` | src/tokens/generator.ts:99-101 | `backgroundImage['br-gradient']` is the brand gradient, a `linear-gradient` |
| `CssVariables.Lines` | src/tokens/generator.ts:69-77 | every line the walk pushes is a declaration `  --prefix-...;` in the prefix's namespace |
| `CssVariables.Flatten` | src/tokens/generator.ts:69-78 | the walk throws exactly when the value holds a `null` where the `in` test runs; otherwise it appends exactly the lines of the recursive specification `Lines` |
| `CssVariables.GenerateCssVariables` | src/tokens/generator.ts:66-83 | the result is a failure exactly when the walk throws; otherwise it is `:root {`, the leaf lines and `}` joined with newlines |
| `CssVariablesProperties.LinesDeclareLeaves` | src/tokens/generator.ts:69-77 | there is exactly one line per leaf, in depth-first entry order, and the i-th line is `  --prefix-<path joined by ->: <value>;` for the i-th leaf |
| `CssVariablesProperties.LeavesBelowPath` | src/tokens/generator.ts:74-76 | every leaf's path extends the path the walk started from, strictly below a group |
| `CssVariablesProperties.CssLinesShape` | src/tokens/generator.ts:67-82 | the output has leaves + 2 lines: first `:root {`, last `}`, and one declaration per leaf in between |
| `CssVariablesProperties.OutputLines` | src/tokens/generator.ts:80-82 | when no prefix, key or value contains a newline, splitting the output text on newlines gives exactly those leaves + 2 lines |
| `CssVariablesProperties.EmptyTokenMap` | src/tokens/generator.ts:66-82 | an empty token map does not throw and gives `:root {\n}` |
| `CssVariablesProperties.EntryOrder` | src/tokens/generator.ts:73-76 | for groups, the lines of `a ++ b` are the lines of `a` followed by those of `b`, and it throws exactly when one of them does |
| `CssVariablesProperties.LeafStops` | src/tokens/generator.ts:70-72 | the walk stops at a leaf: any further fields, such as `type` or `description`, add no line, and a `null` among them does not throw |
| `CssVariablesProperties.NonObjectsSilent` | src/tokens/generator.ts:69-77 | a non-object value produces no line; exactly `null` throws |
| `CssVariablesProperties.SingleMemberGroup` | src/tokens/generator.ts:74-75 | a group with one member adds that member's key to the path and no line of its own |
| `CssVariablesProperties.PrimaryExample` | test/test_design_tokens.ts:77-83 | `{primary: {value: '#FF1D6C', type: 'color'}}` with the default prefix gives `:root {`, `  --br-primary: #FF1D6C;`, `}` |
| `CssVariablesProperties.NestedExample` | src/tokens/generator.ts:71-75 | nested keys are joined with `-`: `{colors: {pink: {value: '#FF1D6C'}}}` gives `  --br-colors-pink: #FF1D6C;` |
| `CssVariablesProperties.LeavesSound` | src/tokens/generator.ts:70-75 | for objects with distinct keys, following a listed leaf's keys from the start through groups reaches an object with a `value` field whose text is the listed text |
| `CssVariablesProperties.LeavesComplete` | src/tokens/generator.ts:70-75 | every object with a `value` field reachable by a key path through groups is listed, with that path and its text |
| `CssVariablesProperties.ThrowsIffNullReached` | src/tokens/generator.ts:70-75 | for objects with distinct keys, the walk throws exactly when some key path through groups leads to a `null` |
| `CssVariablesProperties.NullReachedThrows` | src/tokens/generator.ts:70-75 | reaching a `null` by any key path through groups makes the walk throw |
| `CssVariablesProperties.NullExamples` | src/tokens/generator.ts:70-72 | a `null` group member throws; a `null` leaf value renders as `null`; a leaf at the top gets the empty path, `--br-` |

## Left out

- The `fs` and `path` imports (src/tokens/generator.ts:6-7): nothing in the file uses them, so there is no I/O to model.
- `css/tailwind-preset.js` is a static configuration object with no logic; it is not part of this model.
- The console output, counters and `process.exit` of test/test_design_tokens.ts; its assertions appear as the example lemmas.
- `toUpperCase` is modelled on ASCII letters only. The full Unicode mapping, which can change a string's length, is not modelled. So the validator lemmas describe JavaScript's behaviour only for inputs whose non-ASCII characters have no upper-case mapping.
- Objects are ordered entry lists in insertion order. JavaScript enumerates integer-like keys first; that reordering is not modelled. If a key repeats, the first entry wins. Real objects cannot repeat a key, and the constant tables are proved to have distinct keys.
- A token map that contains itself, or one nested deep enough to overflow the stack, makes `flatten` (src/tokens/generator.ts:74-75) recurse until the engine throws a `RangeError`. `Value` is a finite, acyclic datatype, so the model cannot express such input. The failure conditions stated for `Flatten` and `GenerateCssVariables` hold for finite, acyclic token maps within the engine's stack depth.
- `'value' in obj` also sees inherited properties. The model sees only an object's own entries.
- The template-literal text of a leaf's `value` is given with the value (`Prim(text)`). An object renders as `[object Object]`. Arrays and objects with their own `toString` render differently in JavaScript, and this model does not capture that. A `Symbol` value, which makes a template literal throw, is not modelled.
- Calling `generateCSSVariables` with an explicit `undefined` prefix (which also selects the default `br`) is not modelled. The prefix is a parameter defaulting to `br`.
- The TypeScript token-type variants (`type`, `easing`, `description`) are not modelled separately: a leaf is any object with a `value` key. The framework meaning of the theme object is out of scope.
