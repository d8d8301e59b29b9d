# react-tsx-i18n: a verified model of the localized-string engine

This project models the runtime of `src/i18n.tsx`, a small localized-string
engine, in Dafny. A language catalog is a tree whose leaves are template
strings and whose inner nodes are objects mapping names to sub-trees. The
class `I18n` holds a set of such catalogs keyed by language name and
translates a dotted key with positional arguments:

- the **template resolver** (`getTemplate`) splits the key on `.`, looks the
  first segment up in the catalog root and walks the remaining segments,
  descending while the value is an object and keeping a string leaf or
  `undefined` once reached (trailing segments are then ignored);
- the **placeholder engine** (`translateLanguage`) finds the non-overlapping
  `{digits}` tokens of the template left to right, returns the template
  unchanged when there are no arguments or no tokens, and otherwise reduces
  the tokens into a segment list: the non-empty literal slice before each
  token, the argument the token's digits name (`args[n] ?? ""`), and after
  the last token the non-empty trailing slice. If any argument is an object
  (a rich element, and also `null`, since `typeof null === "object"`), the
  segment list goes to the injected `formatJSX` (its falsy result becomes
  `""`; the default `formatJSX` throws); otherwise the segments are joined.
  A key that resolves to nothing or to an inner node gives `""` and a logged
  diagnostic, never an exception;
- the **key enumerator** (`getKey`/`getKeys`) flattens a catalog depth first
  into one dotted key per string leaf, eliding an accumulated prefix that is
  empty or exactly `"default"`;
- the **translator class** selects `langs[defaultLanguage]` at construction
  (failing when it is absent) and translates against it. It has no setter for
  the current language.

Layout: `wrappers.dfy` (Option, Result), `catalog.dfy` (catalog trees,
`split(".")`, the resolver), `keys.dfy` (the enumerator), `placeholder.dfy`
(scanner, reducer, join and a reference renderer), `translator.dfy` (the
translation function and class `I18n`).

The reducer and `getKeys` change state step by step in the source, so they are
methods with loops (`BuildSegments`, `GetKeys`) proved equal to specification
functions (`Segments`, `KeysFrom`); the resolver and the scanner are functions.
The main theorem about substitution is that joining the segments equals
`Render`, an independent character-by-character definition of "replace every
`{digits}` match by the text of the argument it names". The main theorem about
enumeration is that every key `getKeys` emits resolves, through `getTemplate`,
to its own leaf's text, provided names are dot-free, unique per object, and no
top-level name is `""` or `"default"` (keys under a top-level `default` object
lose their prefix and so resolve from the root instead).

The model keeps these behaviours of the code: there is no operation that
changes the current language; a `null` argument counts as an object (so the
call goes to `formatJSX`); `getKeys` returns keys in depth-first order; and
with no arguments a template is returned unchanged even when it contains
tokens.

## Model

| member | source | states |
|---|---|---|
| Catalog.Lookup | src/i18n.tsx:90-91 | property access gives `undefined` exactly when no child has the name; otherwise a child with that name |
| Catalog.LookupDistinct | src/i18n.tsx:90 | in an object with distinct names, looking up a child's name yields that child |
| Catalog.Split | src/i18n.tsx:88 | `key.split(".")` yields at least one segment, every segment dot-free, and joining them with `.` gives the key back |
| Catalog.SplitJoinDots | src/i18n.tsx:88 | splitting the `.`-join of dot-free segments gives those segments back |
| Catalog.Step | src/i18n.tsx:90 | on an object, a found value is a child with that name and `undefined` means no child has it; a string or `undefined` is kept as it is |
| Catalog.Walk | src/i18n.tsx:89-91 | the reduction ends on a value only if it started on one, and ends on an object only if it started on one |
| Catalog.GetTemplate | src/i18n.tsx:84-93 | a key resolves to something only when its first segment names a child of the catalog root |
| Catalog.WalkStops | src/i18n.tsx:89-92 | once the reducer holds a string leaf or `undefined`, further segments leave it unchanged |
| Catalog.WalkFollowsDescent | src/i18n.tsx:89-92 | a path that leads object by object to a leaf is followed by the reducer to that leaf |
| Catalog.WalkFollowsToNode | src/i18n.tsx:89-92 | a path that leads object by object to an object is followed by the reducer to that object |
| Catalog.WalkReachesByDescent | src/i18n.tsx:89-92 | whatever the reducer reaches is reached by a strict descent along a prefix of the path, and an object only along the whole path |
| Catalog.ResolveLeaf | src/i18n.tsx:84-93 | a dotted key whose full path ends at a string leaf resolves to exactly that leaf |
| Catalog.ResolveNode | src/i18n.tsx:84-93 | a dotted key whose full path ends at an object resolves to exactly that object |
| Catalog.ResolveIgnoresTrailing | src/i18n.tsx:89-92 | appending segments to a key that reaches a leaf does not change what it resolves to |
| Catalog.ResolveMissingFirst | src/i18n.tsx:88-91 | a key whose first segment is absent from the root resolves to `undefined` |
| Catalog.ResolveSound | src/i18n.tsx:84-93 | every resolved value is the strict descent along some non-empty prefix of the key's segments; an object is resolved only along all of them |
| Keys.GetKey | src/i18n.tsx:156-161 | the key comes back unqualified exactly when the prefix is empty or `"default"`; otherwise it is `prefix.key` |
| Keys.KeysFrom | src/i18n.tsx:163-173 | the keys emitted for the children from `i` on are as many as the string leaves under them |
| Keys.GetKeys | src/i18n.tsx:163-173 | the loop with its recursive calls returns exactly the depth-first key list `KeysFrom` |
| Keys.KeysAreFlatPaths | src/i18n.tsx:156-173 | exactly one key per string leaf, in depth-first order, each the leaf's path flattened through `getKey` |
| Keys.LeavesDescend | src/i18n.tsx:163-172 | each enumerated leaf's path is non-empty, dot-free, starts at a child of the object and leads to that leaf |
| Keys.LeavesComplete | src/i18n.tsx:163-173 | conversely, every string leaf that a path reaches by strict descent is enumerated with that path, so it gets a key |
| Keys.FlatKeyJoins | src/i18n.tsx:156-161 | under a prefix other than `""` and `"default"`, flattening a path is the `.`-join of prefix and path |
| Keys.KeysResolve | src/i18n.tsx:156-173 | every key `getKeys` emits resolves through `getTemplate` to the text of its own leaf (names dot-free and unique, root names kept) |
| Keys.DefaultElided | src/i18n.tsx:157-158 | leaves under a top-level `default` object are emitted without the `default.` prefix; `{a: {b}, c}` gives `a.b`, `c` |
| Placeholder.DecimalRoundTrip | src/i18n.tsx:131 | reading the decimal numeral of `n` back with `Number` gives `n` |
| Placeholder.LeadingZero | src/i18n.tsx:131 | a leading zero does not change a token's index |
| Placeholder.DigitsEnd | src/i18n.tsx:111 | the digit run from an offset ends at the first non-digit or the end of the template |
| Placeholder.MatchAt | src/i18n.tsx:111 | a match at `p` is `{`, one or more digits, `}`; its index is the digits' decimal value |
| Placeholder.MatchAtIff | src/i18n.tsx:111 | a match starts at `p` exactly when the pattern `{\d+}` matches the text there |
| Placeholder.NoOtherClose | src/i18n.tsx:111 | only the first non-digit after `{` can close a placeholder |
| Placeholder.Scan | src/i18n.tsx:111 | the tokens are ordered, non-overlapping, within the template, and each is a match at its offset |
| Placeholder.InsideNoMatch | src/i18n.tsx:111 | no placeholder starts strictly inside another one |
| Placeholder.ScanComplete | src/i18n.tsx:111 | every offset where a placeholder starts is the start of some token (the scan misses nothing) |
| Placeholder.ScanEmptyIff | src/i18n.tsx:111-113 | the scan is empty exactly when no placeholder starts anywhere in the template |
| Placeholder.ScanExamples | src/i18n.tsx:111 | `{}` and `{a}` have no token; in `{{0}` only the second brace opens one |
| Placeholder.ArgAt | src/i18n.tsx:131 | `args[n] ?? ""` is a rich element exactly when argument `n` is one; a scalar argument gives its own text; an index past the end, `null` and `undefined` give `""` |
| Placeholder.Slice | src/i18n.tsx:126 | for offsets in order and within the template, `value.slice(a, b)` is the text between them |
| Placeholder.PushSlice | src/i18n.tsx:127-129 | `if (vs) data.data.push(vs)`: the slice is appended exactly when it is not empty |
| Placeholder.Interleave | src/i18n.tsx:117-147 | the alternation of slices and arguments is empty exactly when no token is left and the previous token ended the template |
| Placeholder.Pushed | src/i18n.tsx:117-133 | after the reducer has handled `i` matches, `data` is empty exactly when `i` is 0 (each match pushes its argument) |
| Placeholder.Segments | src/i18n.tsx:117-147 | the reducer returns an empty list exactly when the template has no token |
| Placeholder.FitsAt | src/i18n.tsx:123-126 | each token starts after the previous one ends (or at 0) and ends within the template, so every slice is well formed |
| Placeholder.BuildSegments | src/i18n.tsx:117-147 | the reducer's pushes into `data` and moves of `prev` produce exactly `Segments` |
| Placeholder.Join | src/i18n.tsx:153 | joining no segments gives `""` and joining one gives its text (`TextOf`: a string as itself, an element as `[object Object]`, which never occurs by `Translator.ScalarSegmentsAreStrings`) |
| Placeholder.Render | src/i18n.tsx:111-153 | the reference rendering starts with the template's character wherever that is not `{` |
| Placeholder.JoinAppend | src/i18n.tsx:153 | joining two segment lists joins each and concatenates |
| Placeholder.GapShift | src/i18n.tsx:123-129 | starting a slice earlier only prepends the skipped template text to the joined result |
| Placeholder.JoinStepMatch | src/i18n.tsx:126-133 | at a token, the joined segments and the rendered text both emit the argument's text and resume after it |
| Placeholder.JoinStepLiteral | src/i18n.tsx:126-129 | where no token starts, both emit the template character |
| Placeholder.InterleaveRenders | src/i18n.tsx:117-153 | the joined alternation of slices and arguments from any offset is the rendered template from there |
| Placeholder.FitsSuffix | src/i18n.tsx:123-125 | the tokens after the first `i` fit after the end of token `i - 1` |
| Placeholder.PushedThenRest | src/i18n.tsx:117-147 | the segments pushed after `i` steps followed by the alternation of the remaining tokens is the whole alternation |
| Placeholder.SegmentsAlternate | src/i18n.tsx:117-147 | the segment list is slice before each token (from the previous end, or 0), the token's argument, then the trailing slice; empty slices omitted |
| Placeholder.SegmentsRender | src/i18n.tsx:117-153 | joining the segments is the template with every token replaced by its argument's text |
| Placeholder.RenderPlainRun | src/i18n.tsx:111-129 | a run of template text without `{` comes out unchanged |
| Placeholder.RenderOneDigit | src/i18n.tsx:111-131 | a one-digit token `{d}` is replaced by argument `d`'s text and the rest of the template follows |
| Placeholder.RenderNoMatch | src/i18n.tsx:111-114 | a template without tokens renders to itself |
| Placeholder.RenderToken | src/i18n.tsx:119-131 | a lone `{n}` renders to argument `n`'s text, or `""` when out of range, null or undefined |
| Placeholder.ArgPosIncreasing | src/i18n.tsx:117-133 | token `i`'s argument sits before token `i + 1`'s in the segment list, so arguments keep the order of their tokens |
| Placeholder.InterleaveHasArgs | src/i18n.tsx:131 | the entry at token `i`'s place in the segment list is the argument its digits name, not the one at its ordinal position |
| Placeholder.EmptyOnlyFromArgs | src/i18n.tsx:131 | every `""` in the segment list sits at some token's place and is that token's argument, which is `""`; slices never contribute one (`PushSlice` states the `if (vs)` guard) |
| Placeholder.ElemOnlyFromArgs | src/i18n.tsx:131 | every rich element in the segment list sits at the place of a token whose argument is a rich element |
| Placeholder.InterleavePlain | src/i18n.tsx:131 | when every argument index gives a string, every entry of the segment list is a string |
| Placeholder.RenderSwapped | src/i18n.tsx:131 | `{1} {0}` with any strings `a`, `b` renders as `b a` |
| Placeholder.RenderRepeated | src/i18n.tsx:131 | `{0} and {0}` with any string `x` renders as `x and x` |
| Placeholder.RenderOutOfRange | src/i18n.tsx:131 | `{5}` with at most five arguments renders as `""` |
| Translator.HasObject | src/i18n.tsx:149 | when no argument is an object, every argument index (in range or not) gives a string segment |
| Translator.Compose | src/i18n.tsx:150 | the call throws exactly when no `formatJSX` was supplied; a plain result is only the `""` of a falsy return |
| Translator.Translation | src/i18n.tsx:95-154 | a logged diagnostic comes with `""`; a throw or composed content needs an object argument, and a throw needs the default `formatJSX` |
| Translator.MissingFirstSegment | src/i18n.tsx:100-104 | a key whose first segment is absent gives `""` with the not-found diagnostic, never an exception |
| Translator.NodeKeyNotString | src/i18n.tsx:106-108 | a dotted key whose full path ends at an object gives `""` with the not-a-string diagnostic |
| Translator.Fallbacks | src/i18n.tsx:100-109 | a diagnostic is logged exactly when the key does not resolve to a string (not-found exactly for `undefined`), and then the result is `""` |
| Translator.TemplateUnchanged | src/i18n.tsx:111-115 | with no arguments or no token, the resolved template is returned unchanged |
| Translator.ScalarTranslation | src/i18n.tsx:111-153 | with arguments and none an object, the result is the template with every token replaced by its argument's text |
| Translator.RichTranslation | src/i18n.tsx:149-151 | with an object argument and a token, the segment list goes to `formatJSX`: the default throws, and a plain result is only the `""` of a falsy return |
| Translator.ScalarSegmentsAreStrings | src/i18n.tsx:149-153 | without object arguments every segment that reaches `join` is a string, so `[object Object]` is never written |
| Translator.ScalarNeverThrows | src/i18n.tsx:149-153 | without object arguments the result is always a plain string; the composer is never needed |
| Translator.SwappedOrder | src/i18n.tsx:131 | translating `{1} {0}` with any strings `a`, `b` gives `b a` |
| Translator.RepeatedIndex | src/i18n.tsx:131 | translating `{0} and {0}` with any string `x` gives `x and x` |
| Translator.OutOfRangeIndex | src/i18n.tsx:131 | translating `{5}` with one string argument gives `""` |
| Translator.I18n.constructor | src/i18n.tsx:64-79 | stores the catalogs, default name and composer, and selects `langs[defaultLanguage]` as the current language |
| Translator.I18n.Create | src/i18n.tsx:50-78 | construction fails with the init error exactly when the default language is absent; otherwise a fresh translator whose current language is `langs[defaultLanguage]` |
| Translator.I18n.TranslateLanguage | src/i18n.tsx:95-154 | resolve, fast path, reducer and output choice compute exactly `Translation` |
| Translator.I18n.Translate | src/i18n.tsx:175-180 | `translate(k, args)` is `translateLanguage(currentLanguage, k, args)` |

## Left out

- The type-level declarations (`TI18nKeyType`, `ReturnI18nType`, `NotUnJSXObject`, `I18nArgs`, lines 1-38) have no runtime behaviour.
- `console.error` output: the model records which diagnostic would be logged (`Report.logged`) and not the message text.
- `formatJSX` is a parameter with no interpretation: the model does not say what content it builds, nor what happens if a supplied one throws.
- Scalar arguments are represented by their string form; JavaScript's number and boolean to string conversion is not modelled, and the composer receives a scalar argument as a string.
- A rich element that reaches `join` is written `[object Object]`; the code never joins a list that holds one, since such a call takes the composer branch (`Translator.ScalarSegmentsAreStrings`).
- Token indices are unbounded naturals; the loss of precision of `Number` on very long digit strings is not modelled (such indices are out of range anyway).
- Catalog objects are ordered lists of named children; property lookup takes the first child of that name, and JavaScript's reordering of integer-like property names and its prototype properties are not modelled.
- Translator.I18n.constructor: requires the default language to be present; the guard that throws otherwise is modelled in `Create`, its only caller, because a Dafny constructor cannot fail.
- `getTemplate`, `getKey` and `getKeys` are private members of `I18n` that use no instance state; they are modelled at module level (`Catalog.GetTemplate`, `Keys.GetKey`, `Keys.GetKeys`), and `getKeys`' default prefix `""` is passed explicitly.
- `src/test/local.ts` builds a module-level translator from catalogs that are not part of this model; it has no logic of its own.
- JavaScript string offsets and lengths count UTF-16 code units, while the model counts characters. The output is the same, because the tokens are ASCII and the slices between them are copied whole; templates with lone surrogates are not modelled.
- Placeholder.Slice: its contract covers only offsets that are in order and within the template; the clamping of other offsets is in its body alone, and the reducer never passes such offsets for a scanned template (`Placeholder.FitsAt`).
