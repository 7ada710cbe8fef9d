# Optional-modifier alias recognisers

A Dafny model of the recognisers for the "optional modifier" syntax used by a
typed builder of keyboard-remapping rules (`src/utils/optional-modifiers.ts`).
A rule author can mark modifiers as optional in three ways:

- one of three wildcard spellings, `optionalAny`, `?any` and `??`, meaning that
  any further modifier may be held;
- an object `{ optional: ... }` wrapping an ordinary modifier parameter;
- a `?`-prefixed alias that matches the pattern
  `^\?(left|l|<|‹|right|r|>|›)?([⌘⌥⌃⇧⇪]*)$`.

The model is in `optional_modifiers.dfy`, module `OptionalModifiers`:

- `JsValue` stands for the untyped script value given to the wildcard test.
  Only two things about it matter: whether it is a string, and whether it is
  truthy. The empty string is the only falsy string.
- `IsOptionalAnyAlias` is the membership test over the constant list
  `OptionalAnyAliases`.
- `IsOptionalModifierAlias` runs the pattern the way a backtracking
  regular-expression engine does. After the `?` it tries the eight side
  markers of `SideMarkers` in source order. For each one, the rest of the
  input must be glyphs up to the end (`GlyphRunToEnd`). If a marker fails, the
  next one is tried. If all fail, the empty branch of the optional group is
  tried.
- `InAliasLanguage` states the same language declaratively. A string belongs
  to it when it equals `"?" + m + g`, where `m` is empty or a side marker and
  `g` contains only glyphs (`GlyphsOnly`). `AliasRecognisedExactly` proves the
  matcher and this definition agree on every string.
- `FromOptionalModifierParam<M>` is the three-way input union. `M` stands for
  the wrapped modifier parameter, whose type is not part of this model.
  `Classify` sorts a string into one of the two string-shaped tags, or into
  neither.

Strings are modelled as `seq<char>`, where a `char` is a Unicode scalar
value. A script string is a sequence of UTF-16 code units, so the two
representations are not the same: a script string may hold a lone surrogate,
which no `char` can, and a character outside the Basic Multilingual Plane is
two code units there and one `char` here. Every glyph and every side marker is
a single character of the Basic Multilingual Plane, and neither recogniser
accepts any string that contains a surrogate or a character outside that
plane. On such strings both the source and the model return false, so the
results agree.

The declared type `OptionalModifierAlias` (src/utils/optional-modifiers.ts:8-11)
is built from alias types defined in other files. The run-time test at
src/utils/optional-modifiers.ts:26 knows only glyphs, and the model follows
the test (`WordAfterQuestionMarkRejected`).

## Model

| member | source | states |
|---|---|---|
| `OptionalModifiers.IsOptionalAnyAlias` | src/utils/optional-modifiers.ts:5-16 | the wildcard test: the falsy/non-string guard, then membership in the constant `OptionalAnyAliases` (the three spellings of :5, in order); its meaning is fixed by `OptionalAnyAliasExactly` and `FalsyOrNonStringNotOptionalAny` |
| `OptionalModifiers.IsOptionalModifierAlias` | src/utils/optional-modifiers.ts:23-27 | the pattern test: `?`, then the side markers of the constant `SideMarkers` (the alternation of :26, in order) tried with backtracking, then the empty branch, each followed by glyphs to the end; its meaning is fixed by `AliasRecognisedExactly` |
| `OptionalModifiers.InAliasLanguage` | src/utils/optional-modifiers.ts:26 | the reference definition of the pattern's language: `"?" + m + g` with `m` empty or one side marker and `g` only glyphs |
| `OptionalModifiers.OptionalAnyAliasExactly` | src/utils/optional-modifiers.ts:5-16 | a string is a wildcard alias exactly when it is `optionalAny`, `?any` or `??` |
| `OptionalModifiers.FalsyOrNonStringNotOptionalAny` | src/utils/optional-modifiers.ts:13-14 | a falsy value (including the empty string) or a non-string value is never a wildcard alias |
| `OptionalModifiers.GlyphRunToEnd` | src/utils/optional-modifiers.ts:26 | the starred glyph class followed by end of input accepts exactly the strings made only of ⌘ ⌥ ⌃ ⇧ ⇪ |
| `OptionalModifiers.TryAlternatives` | src/utils/optional-modifiers.ts:26 | trying the alternatives in order with backtracking succeeds exactly when some alternative is a prefix of the input and only glyphs follow it; the order does not change the outcome |
| `OptionalModifiers.MatcherSound` | src/utils/optional-modifiers.ts:23-27 | every string the matcher accepts is `?` + (nothing or one side marker) + glyphs |
| `OptionalModifiers.MatcherComplete` | src/utils/optional-modifiers.ts:23-27 | every string of the form `?` + (nothing or one side marker) + glyphs is accepted by the matcher |
| `OptionalModifiers.AliasRecognisedExactly` | src/utils/optional-modifiers.ts:23-27 | the matcher accepts a string if and only if it has that form |
| `OptionalModifiers.AcceptedStartsWithQuestionMark` | src/utils/optional-modifiers.ts:26 | every accepted string is at least one character long and starts with `?` |
| `OptionalModifiers.BareAccepted` | src/utils/optional-modifiers.ts:26 | `?` alone is accepted |
| `OptionalModifiers.SideOnlyAccepted` | src/utils/optional-modifiers.ts:26 | `?` followed by any one side marker and no glyph is accepted |
| `OptionalModifiers.NonGlyphRun` | src/utils/optional-modifiers.ts:26 | the run of non-glyph characters at the front of a string is maximal: all of it is non-glyph, and the next character, if any, is a glyph |
| `OptionalModifiers.MarkersHoldNoGlyph` | src/utils/optional-modifiers.ts:26 | no side marker contains a glyph character |
| `OptionalModifiers.MarkerIsNonGlyphRun` | src/utils/optional-modifiers.ts:26 | in marker + glyphs, the marker is exactly the leading run of non-glyph characters |
| `OptionalModifiers.DecompositionUnique` | src/utils/optional-modifiers.ts:26 | an accepted string splits into `?`, a marker and glyphs in only one way: the side marker appears at most once, directly after `?` |
| `OptionalModifiers.LastIsGlyph` | src/utils/optional-modifiers.ts:26 | `?` + marker + a non-empty glyph string ends in a glyph |
| `OptionalModifiers.EndsInNonGlyphIsMarker` | src/utils/optional-modifiers.ts:26 | if an accepted string ends in a non-glyph, everything after `?` is one side marker |
| `OptionalModifiers.RejectIfTailNotMarker` | src/utils/optional-modifiers.ts:26 | a string that ends in a non-glyph, and whose text after the first character is not a side marker, is rejected |
| `OptionalModifiers.MarkerAfterGlyphRejected` | src/utils/optional-modifiers.ts:26 | `?⌘l` is rejected: a side marker cannot follow a glyph |
| `OptionalModifiers.TwoMarkersRejected` | src/utils/optional-modifiers.ts:26 | `?l<` is rejected: at most one side marker |
| `OptionalModifiers.TruncatedMarkerRejected` | src/utils/optional-modifiers.ts:26 | `?lef` is rejected, although it starts with the marker `l` |
| `OptionalModifiers.MarkerThenGlyphAccepted` | src/utils/optional-modifiers.ts:26 | `?left⌘` is accepted, although the shorter marker `l` is a prefix of `left` |
| `OptionalModifiers.WordAfterQuestionMarkRejected` | src/utils/optional-modifiers.ts:26 | `?cmd` is rejected: the pattern accepts no letters after `?` other than a side marker |
| `OptionalModifiers.AppendGlyphPreservesAcceptance` | src/utils/optional-modifiers.ts:26 | appending any one of the five glyphs to an accepted string keeps it accepted |
| `OptionalModifiers.RecognisersDisjoint` | src/utils/optional-modifiers.ts:5-26 | no value is both a wildcard alias and an optional-modifier alias, so `??` and `?any` do not match the pattern |
| `OptionalModifiers.Classify` | src/utils/optional-modifiers.ts:18-21 | a string is tagged as a wildcard exactly when it is a wildcard alias, and as a `?`-alias exactly when it matches the pattern; it is never tagged as the `{ optional }` wrapper, and the tag it gets matches its payload |

## Left out

- `src/output.ts`: reading and writing the remapping application's JSON file
  in the home directory, profile lookup by name, console output and process
  exit. This is I/O and plumbing around the rule builder. It calls the
  `complexModifications` rule builder, which is not part of this model.
- What `ModifierKeyAlias`, `MultiModifierAlias`, `NamedMultiModifierAlias`,
  `SideMultiModifierAlias` and `FromModifierParam` contain, and how aliases
  resolve to canonical modifiers. They are defined in files that are not part
  of this model. The wrapped parameter is the type parameter `M` of
  `FromOptionalModifierParam`.
- The template-literal type `OptionalModifierAlias` exists only at compile
  time. It is modelled only through the run-time test that guards it.
- JavaScript truthiness is reduced to one flag per non-string value. The model
  does not enumerate which numbers, objects or other values are falsy.
