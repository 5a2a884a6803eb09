# Instaread audio player: sanitisers, slug exclusion and resource hints

This project models the decision and sanitising logic of the Instaread Audio Player
WordPress plugin (class `InstareadPlayer` in `instaread.php`) and proves properties of it.

- `sanitize_css_selector` is the save-time filter for the target-selector setting. It deletes
  every byte outside letters, digits, PCRE `\s` whitespace and `. # - > + ~ = ^ $ | * , :`.
- `sanitize_insert_position` keeps `prepend`, `append` or `inside` and maps anything else to
  `append`.
- `should_inject_player` decides whether the player script goes into the page head. It says
  no off singular main-query views. Otherwise it says no exactly when the post slug equals one
  of the comma-separated, trimmed entries of the excluded-slugs option.
- `add_resource_hints` adds `https://instaread.co` to the `dns-prefetch` and `preconnect`
  hint lists on singular views, then removes duplicates with `array_unique`.

The PHP built-ins these rely on are modelled beside them. `PhpStrings` holds `explode` and
`trim`, with `implode` as the inverse `explode` is proved against. `PhpArrays` holds
`array_unique`, given both as a specification function and as the one-pass method PHP runs.
The WordPress lookups `is_singular()`, `is_main_query()`, `get_option(...)` and
`$post->post_name` are parameters. PHP strings are byte strings, so each `char` stands for
one byte. The allowed selector characters are all ASCII, so a multi-byte character is
deleted byte by byte, exactly as the model deletes each of its `char`s.

Files:
- `PhpStrings.dfy`: `explode`, `implode`, `trim`, fields of a delimited string.
- `PhpArrays.dfy`: `array_unique` and first-occurrence order.
- `InstareadPlayer.dfy`: the four plugin members and their properties.

## Model

| member | source | states |
|---|---|---|
| `InstareadPlayer.SanitizeCssSelector` | instaread.php:212-214 | every character of the sanitised selector is in the allowed set (letters, digits, `\s` whitespace, `. # - > + ~ = ^ $ \| * , :`), and it is never longer than the input |
| `InstareadPlayer.SanitizeConcat` | instaread.php:213 | the filter works character by character: sanitising a concatenation concatenates the sanitised parts |
| `InstareadPlayer.SanitizeKeepsAllowed` | instaread.php:213 | an input made only of allowed characters is returned unchanged |
| `InstareadPlayer.SanitizeIdempotent` | instaread.php:213 | sanitising twice gives the same selector as sanitising once |
| `InstareadPlayer.SanitizeCounts` | instaread.php:213 | each allowed character occurs in the output exactly as often as in the input, and each other character does not occur at all |
| `InstareadPlayer.SanitizeIsSubsequence` | instaread.php:213 | the output is an order-preserving subsequence of the input, so the filter only deletes |
| `InstareadPlayer.SanitizeInsertPosition` | instaread.php:216-218 | the result is always `prepend`, `append` or `inside`; it equals the input iff the input is one of these; any other input gives `append` |
| `InstareadPlayer.InsertPositionIdempotent` | instaread.php:217 | sanitising a position twice gives the same as once |
| `InstareadPlayer.ShouldInjectPlayer` | instaread.php:200-207 | fails closed: it is true only on a singular view in the main query, whatever the slug list |
| `InstareadPlayer.ExcludedSlugs` | instaread.php:204 | the excluded-slug list has one entry per comma-separated field of the option, so one more than there are commas, and no entry starts or ends with a trim character |
| `InstareadPlayer.ExclusionRule` | instaread.php:203-206 | on a singular main-query view, the player is left out iff some comma-delimited field of the option, once trimmed, equals the untrimmed post slug exactly |
| `InstareadPlayer.ExcludedSlugsExample` | instaread.php:204 | the option `about, home` yields the excluded slugs `about` and `home` |
| `InstareadPlayer.TrimmedEntryExample` | instaread.php:204-206 | with `about, home`, slug `home` is excluded, because the entry ` home` is trimmed |
| `InstareadPlayer.CaseSensitiveExample` | instaread.php:206 | with `about, home`, slug `Home` is not excluded: the comparison is case-sensitive |
| `InstareadPlayer.UntrimmedSlugExample` | instaread.php:206 | with `about, home`, slug ` home` is not excluded: the slug itself is not trimmed |
| `InstareadPlayer.HintedUrls` | instaread.php:221-223 | before duplicates are removed, the hint list is the input list unchanged, followed by `https://instaread.co` exactly when the relation is `dns-prefetch`/`preconnect` on a singular view |
| `InstareadPlayer.AddResourceHints` | instaread.php:220-225 | the result is `array_unique` of the conditionally extended list; it has no duplicates; it holds exactly the input URLs plus `https://instaread.co` when the relation is `dns-prefetch`/`preconnect` on a singular view; its elements are in order of first occurrence |
| `InstareadPlayer.ResourceHintsOfDistinct` | instaread.php:221-224 | on a duplicate-free list the filter changes nothing, except that it appends the origin when it is hinted and not yet listed |
| `PhpStrings.Explode` | instaread.php:204 | `explode` always returns at least one piece, so an empty option gives one empty piece; the lemmas below pin it down against `implode` in both directions |
| `PhpStrings.IndexOfIs` | instaread.php:204 | the first occurrence of the delimiter is the position with no delimiter before it |
| `PhpStrings.ImplodeExplode` | instaread.php:204 | joining the pieces of `explode` with the delimiter gives back the original option |
| `PhpStrings.ExplodeImplode` | instaread.php:204 | exploding a join of delimiter-free pieces gives back exactly those pieces |
| `PhpStrings.ExplodeCount` | instaread.php:204 | `explode` gives one more piece than there are commas, so an empty option gives one empty piece |
| `PhpStrings.ExplodePiecesLackSep` | instaread.php:204 | no piece of `explode` contains the delimiter |
| `PhpStrings.ExplodeFields` | instaread.php:204 | the pieces of `explode` are exactly the delimiter-bounded fields of the input |
| `PhpStrings.Trim` | instaread.php:204 | `trim` never lengthens its input, and its result neither starts nor ends with a trim character (space, tab, LF, CR, NUL, vertical tab) |
| `PhpStrings.TrimLeft` | instaread.php:204 | the result is the input with its longest prefix of trim characters (space, tab, LF, CR, NUL, vertical tab) removed |
| `PhpStrings.TrimRight` | instaread.php:204 | the result is the input with its longest suffix of trim characters removed |
| `PhpStrings.TrimIsSlice` | instaread.php:204 | `trim` returns a contiguous slice of its input, everything cut off at either end is a trim character, and the result neither starts nor ends with one |
| `PhpStrings.TrimUnchanged` | instaread.php:204 | a string with no trim character at either end is its own `trim` |
| `PhpStrings.TrimIdempotent` | instaread.php:204 | trimming twice gives the same as once |
| `PhpArrays.Unique` | instaread.php:224 | `array_unique` keeps exactly the values of its input and has no duplicates |
| `PhpArrays.UniqueKeepsFirstOccurrenceOrder` | instaread.php:224 | of two kept values, the one that occurs first in the input comes first in the result |
| `PhpArrays.UniqueOfDistinct` | instaread.php:224 | a list without duplicates is returned unchanged |
| `PhpArrays.UniqueIdempotent` | instaread.php:224 | `array_unique` is idempotent |
| `PhpArrays.ArrayUnique` | instaread.php:224 | one pass that keeps each value the first time it is seen computes exactly `Unique` |

## Left out

- The auto-update checker (instaread.php:16-23) is a call into a library that is not part of this model.
- The singleton holder and the hook registration (instaread.php:29-44, 228) only wire callbacks into WordPress.
- `register_settings` (instaread.php:49-73) only declares options and their defaults to WordPress. `sanitize_text_field` is a WordPress function that is not part of this model.
- The admin page (instaread.php:78-148) renders HTML only.
- `inject_player_script` (instaread.php:153-198) writes a script template whose values pass through WordPress's `esc_js`, which is not part of this model. The script waits for the target element in the browser through DOM events and a mutation observer, and modelling that would need a DOM. Only the decision it starts with, `should_inject_player`, is modelled.
- `SanitizeInsertPosition` takes strings only. PHP's loose `in_array` at instaread.php:217 also returns some non-string inputs (for example `true`) unchanged.
- `SanitizeCssSelector` takes strings only. `preg_replace` at instaread.php:213 also accepts an array subject, and then returns an array of filtered strings; a `null` subject gives the empty string with a deprecation notice.
- `AddResourceHints` takes the relation type as a string and the URLs as strings. For these, the loose `in_array` at instaread.php:221 is plain string equality, because `dns-prefetch` and `preconnect` are not numeric. WordPress can also pass URL entries as arrays (a URL with attributes); those are not modelled. With such entries, `array_unique`'s default `SORT_STRING` comparison turns every array into the string `Array`, so every array entry after the first is dropped, with a notice (a warning from PHP 8): of two array-valued `preconnect` hints, one would be lost. This behaviour is not modelled.
- `AddResourceHints` returns a list. `array_unique` keeps the original keys of the survivors, so the PHP array can have gaps in its keys.
- `ShouldInjectPlayer` takes the excluded-slugs option as a string. When the option was never saved, `get_option` returns `false`. `explode` then sees an empty string, which is the empty-string case the model covers.
- Rule lists, skipping rules with an empty selector, trimming the post slug, and migrating a single legacy rule to a list are not in this version of the code. The model follows the code: one rule, and the slug is compared untrimmed.
