# Shared string utilities: `slugify` and `truncateText`

The shared package of this monorepo exports two small pure string functions:

- `slugify(text)` chains four steps. It lower-cases the text. It deletes every
  character that is not a word character, whitespace or `-`. It replaces each
  run of whitespace, `_` and `-` by one `-`, and then removes `-` from both
  ends.
- `truncateText(text, maxLength)` returns the text unchanged when it is at most
  `maxLength` long. Otherwise it returns its first `maxLength - 3` characters
  followed by `"..."`.

This project models both as Dafny functions on `string` (`seq<char>`) and
proves what they guarantee:

- the alphabet of a slug;
- no doubled and no edge hyphens;
- every letter and digit is kept, in order;
- idempotence, and that the fixed points are exactly the slugs;
- the empty-slug condition;
- an independent description of the slug as the words of the text joined by
  single hyphens;
- the exact length, prefix and ellipsis of a truncated text.

Files and modules:

- `chars.dfy` (`Chars`): the character classes of the regular expressions
  (`\w`, `\s`) and ASCII lower-casing of one character.
- `slug.dfy` (`Slug`): one function per stage of `slugify` (`Lower`, `Strip`,
  `Collapse`, `Trim`), their composition `Slugify`, and its properties.
- `slug_words.dfy` (`SlugWords`): the words-joined-by-hyphens description and
  the proof that `Slugify` agrees with it.
- `truncate.dfy` (`Truncation`): `String.prototype.substring` with its
  clamping, `TruncateText`, and its properties.

Character classes follow the ECMAScript regular-expression semantics of the
patterns, which carry no `u` flag. `\w` is `[A-Za-z0-9_]`. `\s` is the
ECMAScript WhiteSpace and LineTerminator set: tab, line feed, vertical tab,
form feed, carriage return, the Zs space separators (U+0020, U+00A0, U+1680,
U+2000-U+200A, U+202F, U+205F, U+3000), U+2028, U+2029 and U+FEFF.
The model's `toLowerCase` maps `A-Z` to `a-z` and leaves every other
character as it is (see "## Left out" for where JavaScript differs).
`/[\s_-]+/g` is global and greedy, so each maximal run of separators becomes
one hyphen. `/^-+|-+$/g` has no `m` flag, so it removes only the leading and
the trailing run of hyphens.

## Model

| member | source | states |
|---|---|---|
| `Chars.IsWord` | packages/shared/src/utils/index.ts:13 | definition of the class `\w`: `[A-Za-z0-9_]` |
| `Chars.IsSpace` | packages/shared/src/utils/index.ts:13-14 | definition of the class `\s`: the ECMAScript WhiteSpace and LineTerminator characters |
| `Slug.Kept` | packages/shared/src/utils/index.ts:13 | definition of the class of characters `[^\w\s-]` does not match |
| `Slug.IsSep` | packages/shared/src/utils/index.ts:14 | definition of the class `[\s_-]` |
| `Chars.LowerChar` | packages/shared/src/utils/index.ts:12 | lower-casing one character never yields `A-Z`; it maps `A-Z` to the letter 32 code points higher and leaves other characters alone; the result is `[a-z0-9]` exactly when the input is an ASCII letter or digit |
| `Slug.Lower` | packages/shared/src/utils/index.ts:12 | the lower-cased text has the same length, no upper-case ASCII letter, and is the input lower-cased position by position |
| `Slug.Strip` | packages/shared/src/utils/index.ts:13 | after deleting `[^\w\s-]`, only word characters, whitespace and `-` remain; a text made only of those is unchanged; on lower-cased input every remaining character is `[a-z0-9]` or a separator |
| `Slug.StripChar` | packages/shared/src/utils/index.ts:13 | on one character, `replace(/[^\w\s-]/g, '')` keeps a word character, whitespace or `-` and deletes anything else; lower-casing never changes whether a character is kept |
| `Slug.StripAppend` | packages/shared/src/utils/index.ts:13 | the deletion acts on each character on its own: stripping a concatenation is the concatenation of the stripped parts, so together with `StripChar` the result is exactly the kept characters, in order, with nothing added |
| `Slug.StripAlnums` | packages/shared/src/utils/index.ts:13 | deleting `[^\w\s-]` loses no lower-case letter or digit and keeps their order |
| `Slug.DropSeps` | packages/shared/src/utils/index.ts:14 | one greedy match of `[\s_-]+`: what is left is no longer than the text, does not start with a separator, and keeps the text's alphabet of letters, digits and separators |
| `Slug.DropSepsSuffix` | packages/shared/src/utils/index.ts:14 | the greedy match consumes exactly the leading run: what is left is a suffix of the text and every character skipped is a separator |
| `Slug.Collapse` | packages/shared/src/utils/index.ts:14 | after replacing each run of `[\s_-]+` by `-`, no two hyphens are adjacent; a leading non-separator is kept; on text of `[a-z0-9]` and separators, the result is `[a-z0-9-]` only |
| `Slug.CollapseAlnums` | packages/shared/src/utils/index.ts:14 | collapsing separator runs keeps every lower-case letter and digit, in order |
| `Slug.CollapseOfSlug` | packages/shared/src/utils/index.ts:14 | collapsing leaves unchanged a string of `[a-z0-9-]` with no doubled hyphen |
| `Slug.TrimStart` | packages/shared/src/utils/index.ts:15 | after `^-+` the text is no longer and does not start with `-` |
| `Slug.TrimStartSuffix` | packages/shared/src/utils/index.ts:15 | `^-+` removes only a prefix, and that prefix is made only of hyphens |
| `Slug.TrimEnd` | packages/shared/src/utils/index.ts:15 | after `-+$` the text is no longer and does not end with `-` |
| `Slug.TrimEndPrefix` | packages/shared/src/utils/index.ts:15 | `-+$` removes only a suffix, and that suffix is made only of hyphens |
| `Slug.Trim` | packages/shared/src/utils/index.ts:15 | the trimmed text neither starts nor ends with `-`; it keeps the slug alphabet and the absence of doubled hyphens |
| `Slug.TrimAlnums` | packages/shared/src/utils/index.ts:15 | trimming hyphens keeps every lower-case letter and digit, in order |
| `Slug.LowerAppend` | packages/shared/src/utils/index.ts:12 | lower-casing acts on each character on its own: it distributes over concatenation |
| `Slug.Slugify` | packages/shared/src/utils/index.ts:10-16 | the result is a slug: only `[a-z0-9-]` (no `_` survives), no two adjacent hyphens, and no `-` at either end; deleting its hyphens gives exactly the `[a-z0-9]` characters of the lower-cased text, in order |
| `Slug.SlugifyFixedPoints` | packages/shared/src/utils/index.ts:10-16 | `slugify(t) == t` if and only if `t` is already a slug |
| `Slug.SlugifyIdempotent` | packages/shared/src/utils/index.ts:10-16 | `slugify(slugify(s)) == slugify(s)` |
| `Slug.SlugifyEmpty` | packages/shared/src/utils/index.ts:10-16 | the slug is empty if and only if the text contains no ASCII letter or digit |
| `Slug.SlugifyIgnoresDeleted` | packages/shared/src/utils/index.ts:10-16 | a character that stage 2 deletes does not affect the slug, not even as a word break: removing it from anywhere in the text gives the same slug |
| `SlugWords.SlugifyJoinsWords` | packages/shared/src/utils/index.ts:10-16 | the slug equals the maximal runs of non-separators of the stripped, lower-cased text, joined by single hyphens, so a hyphen stands exactly between two words |
| `SlugWords.CollapseFromWord` | packages/shared/src/utils/index.ts:14 | on text that starts with a word, collapsing gives the joined words, plus one `-` when the text ends in separators |
| `Truncation.Clamp` | packages/shared/src/utils/index.ts:20 | a `substring` index is clamped into `[0, length]`, with negative values going to 0 |
| `Truncation.Substring` | packages/shared/src/utils/index.ts:20 | `substring` with a start of 0 or below is the prefix up to the clamped end, and the indices may come in either order |
| `Truncation.TruncateText` | packages/shared/src/utils/index.ts:18-21 | a text of length at most `maxLength` is returned unchanged; a longer one yields a prefix of the text followed by `"..."`, of length exactly `maxLength` when `maxLength >= 3` and exactly `"..."` when `maxLength < 3`; the result is never longer than the text unless it is `"..."`; the text comes back unchanged if and only if it fits, or it is `"..."` and `maxLength < 3` |
| `Truncation.TruncateIdempotent` | packages/shared/src/utils/index.ts:18-21 | truncating a truncated text with the same bound changes nothing |

## Left out

- `formatDate` (packages/shared/src/utils/index.ts:2-4): it only calls `Date.prototype.toISOString`, a runtime-library function whose code is not part of this model.
- `generateId` (packages/shared/src/utils/index.ts:6-8): it depends on `Math.random()`, a floating-point value printed in base 36, and on the clock `Date.now()`. It has no deterministic result to state.
- Type declarations, constants, configuration files and the static pages of the front end: none of them has behaviour.
- Slug.Lower: handles only ASCII case mapping. JavaScript's `toLowerCase` also maps U+0130 to `i` followed by U+0307, and U+212A (Kelvin sign) to `k`. The model leaves both as they are, so stage 2 deletes them where JavaScript keeps an `i` or a `k`. Every other non-ASCII letter lower-cases to a non-ASCII letter, which stage 2 deletes in both cases.
- Truncation.TruncateText: counts `string` elements, which are Unicode scalar values. JavaScript's `length` and `substring` count UTF-16 code units, so the two agree only on text inside the Basic Multilingual Plane. The model also does not capture that `substring` can split a surrogate pair.
- Truncation.TruncateText: takes `maxLength` as an integer. A fractional, infinite or NaN `maxLength` (a JavaScript number) is not modelled.
