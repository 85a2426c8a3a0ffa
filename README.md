# pythonz utilities: a verified model

This project models the deterministic helpers of the pythonz site's
`apps/utils.py` in Dafny and proves properties of the model:

- `format_currency` groups the digits of an amount in threes from the right;
- `update_url_qs` and the `UTM` helpers merge query parameters into a URL;
- `url_mangle` shortens a long URL to scheme, host and the last path segment;
- `get_thumb_url` derives a thumbnail's path and memoises its URL in a cache,
  creating the thumbnail file on a miss;
- `PyDigestResource.fetch_entries` collects the newest entries of the Python
  Digest feeds per realm section and drops repeated links;
- `BasicTypograph` runs eleven regular-expression substitutions (quotes,
  dashes, spaces, ellipsis, ©/™/®, Russian quotes) over a text.

Modules, one per concern:

| file | module | models |
|---|---|---|
| wrappers.dfy | `Wrappers` | `Option` |
| text.dfy | `Text` | `str.strip()`, `\s`, `str(n)`, the text after the last `/` |
| currency.dfy | `Currency` | `format_currency` |
| query.dfy | `QueryString` | `update_url_qs`, `UTM` |
| mangle.dfy | `UrlMangle` | `url_mangle` |
| thumbs.dfy | `Thumbs` | `get_thumb_url`, as the class `ThumbStore` over a cache and a filesystem |
| digest.dfy | `Digest` | `fetch_entries`, as a method with the loops of the source |
| typograph.dfy | `Typograph` | the rules, `re.sub`, `apply_to` as a loop over the rules |
| typograph_scan.dfy | `TypographScan` | what `re.sub` produces on a whole text, stated without the scan |
| typograph_literals.dfy | `TypographLiterals` | the matches, the results and properties of `QUOTES_REPLACE`, `DASH_REPLACE`, `HELLIP`, `COPYRIGHT`, `TRADEMARK`, `TRADEMARK_R` |
| typograph_dashes.dfy | `TypographDashes` | the results and properties of `SEQUENTIAL_SPACES`, `DASH_EM`, `DASH_EN` |
| typograph_quotes.dfy | `TypographQuotes` | the per-token characterisation of `QUOTES_CYR_CLOSE` and `QUOTES_CYR_OPEN` |
| typograph_examples.dfy | `TypographExamples` | results of `apply_to`, and of one rule, on sample inputs |

`re.sub` is one function `Typograph.Sub` shared by all rules. It scans left
to right, replaces the leftmost match, resumes after it, and copies one
character where nothing matches. Each pattern is a hand-written matcher
(`Typograph.MatchAt`). These matchers spell out the engine's choices:
alternatives are tried in the order written, `+` and `{2,3}` are greedy,
and `(\S+)"` backtracks to the last quote of the token.
`TypographScan` then states the result of a whole substitution without the
scan: the text with the leftmost non-overlapping matches replaced and every
other character kept. Each rule's module says which text that rule matches at
each position.

`apply_to` is not idempotent. A token with three or more straight quotes
keeps a `"` after one pass, which a second pass changes: `a"b"c"d` becomes
`a«b"c»d`, and that becomes `a«b»c»d`, because `(\S+)"` backtracks to the
last `"` left in the token (`TypographExamples.NotIdempotent`).

Parsing and printing of URLs (`urlparse`, `parse_qs`, `urlencode`,
`urlunparse`, `urlsplit`, `urlunsplit`) are not modelled as strings. The
query helpers work on the parsed URL. `Mangle` takes the split and unsplit
functions as parameters. The feed parser is a parameter of `FetchEntries`
(`None` stands for a parse that raised). The realm mapping is an input
sequence.

## Model

| member | source | states |
|---|---|---|
| Text.Strip | apps/utils.py:316 | `s.strip()` is the middle slice of `s`: it is all whitespace that is cut off at either end, and the result neither starts nor ends with whitespace |
| Text.DecimalRoundTrip | apps/utils.py:42 | reading the digits of `str(n)` back gives `n` |
| Text.LastSegmentTail | apps/utils.py:338 | `p.split('/')[-1]` is a tail of `p` with no `/`, preceded by a `/` in `p` unless it is all of `p` |
| Currency.FormatCurrency | apps/utils.py:35-42 | `' '.join(wrap(str(n)[::-1], 3))[::-1]` on a non-negative amount; what it produces is stated by the three lemmas below |
| Currency.FormatCurrencyGroups | apps/utils.py:35-42 | `format_currency(n)` is groups of `str(n)` joined by single spaces; the leftmost group has 1 to 3 digits, every other group exactly 3, and the groups concatenate to `str(n)` |
| Currency.FormatCurrencyDigits | apps/utils.py:42 | deleting the spaces of `format_currency(n)` gives back `str(n)` |
| Currency.FormatCurrencyExample | apps/utils.py:42 | 1234567 is formatted as `1 234 567` |
| QueryString.Update | apps/utils.py:56 | `dict.update` on a query with distinct keys gives a query with distinct keys |
| QueryString.UpdateIsMerged | apps/utils.py:56 | `dict.update` equals the reference merge: an overridden key keeps its position with the new values, and new keys are appended in their given order |
| QueryString.UpdateLookup | apps/utils.py:56 | after the update, every new key carries exactly its new values and every other key keeps what it had (or stays absent) |
| QueryString.UpdateUrlQs | apps/utils.py:45-58 | only the query changes; it becomes the merge of the old query with the new parameters, with the per-key lookup above |
| QueryString.AddToUrl | apps/utils.py:65-86 | `utm_source`, `utm_medium` and `utm_campaign` carry exactly the given values; every other parameter and every other URL component is unchanged |
| QueryString.AddToExternalUrl | apps/utils.py:89-95 | the UTM keys are always `pythonz`, `referral`, `item`; everything else is unchanged |
| QueryString.AddToInternalUrl | apps/utils.py:98-105 | the UTM keys are the given source, `link`, `promo`; everything else is unchanged |
| UrlMangle.StripSlashesEmpty | apps/utils.py:337 | `path.strip('/')` is non-empty exactly when the path has a character other than `/` |
| UrlMangle.Mangle | apps/utils.py:331-332 | a URL of at most 45 characters is returned unchanged |
| UrlMangle.MangleParts | apps/utils.py:333-338 | the component edits of a long URL; stated by `MangledComponents` |
| UrlMangle.MangledComponents | apps/utils.py:333-340 | for a longer URL: scheme and netloc are kept, query and fragment are emptied, an all-slash path is kept, and any other path becomes `<...>` followed by the text after its last `/` |
| Thumbs.ThumbFileBase | apps/utils.py:353-357 | `thumb_file_base`: the base path joined with the image's file name, or nothing when `image.path` raises; stated by `ThumbUrlShape` |
| Thumbs.CacheKey | apps/utils.py:359 | the key `thumbs|<thumb_file_base>|<absolute_url>`; stated by `CacheKeyRoundTrip` |
| Thumbs.ThumbUrl | apps/utils.py:376-378 | `MEDIA_URL` joined with the path, prefixed with `SITE_URL` when absolute; stated by `ThumbUrlShape` |
| Thumbs.CacheKeyRoundTrip | apps/utils.py:359 | the cache key `thumbs|<path>|<flag>` determines the thumbnail path and the flag, so two thumbnails never share a key |
| Thumbs.BasePathShape | apps/utils.py:353 | for a non-empty `name_plural` that neither starts nor ends with `/`, the base path is `img/<name_plural>/thumbs/<W>x<H>` |
| Thumbs.ThumbUrlShape | apps/utils.py:353-378 | for a non-empty `MEDIA_URL` ending in `/` and such a `name_plural`, the thumbnail path is `img/<name_plural>/thumbs/<W>x<H>/<basename>`, and its URL is `MEDIA_URL` plus that path, prefixed with `SITE_URL` exactly when the absolute flag is set |
| Thumbs.StoreKeepsConsistent | apps/utils.py:376-380 | storing a thumbnail's own URL under its own key keeps every cache entry equal to the URL its key determines |
| Thumbs.ConsistentHit | apps/utils.py:361-363 | in such a cache, a hit returns the URL the thumbnail would get if computed now |
| Thumbs.ThumbStore.GetThumbUrl | apps/utils.py:343-382 | returns `''` when the image path cannot be resolved, else the thumbnail's URL; a hit changes nothing; a miss creates the directory and the file when the file is missing, and stores the URL under the thumbnail's key; the cache stays consistent |
| Thumbs.ThumbStore.Expire | apps/utils.py:380 | a lapsed cache entry disappears, the filesystem is untouched and the cache stays consistent |
| Digest.EntriesMax | apps/utils.py:260-262 | five entries per section, three exactly when the realm has more than one section |
| Digest.TaggedReversed | apps/utils.py:274-285 | the entries tagged with the realm name, in reverse order, one record per entry |
| Digest.SectionItems | apps/utils.py:266-285 | a feed that raised offers nothing; otherwise `min(entries_max, len(entries))` records, the first entries taken last first |
| Digest.SectionItemsMembers | apps/utils.py:274 | a record comes from a section exactly when it is one of that feed's first `entries_max` entries, tagged |
| Digest.RealmCandidatesMembers | apps/utils.py:264-285 | a record comes from a realm exactly when one of its aliases' feeds offers it |
| Digest.CandidatesMembers | apps/utils.py:257-285 | a record is offered exactly when some section of some realm offers it, limited by that realm's `entries_max` and tagged with its name |
| Digest.Candidates | apps/utils.py:257-285 | the records all realms offer, realm after realm, before the link check; stated by `CandidatesMembers` |
| Digest.DedupByUrl | apps/utils.py:275-285 | the records kept by the link check; stated by `DedupByUrlSpec` |
| Digest.DedupState | apps/utils.py:276-279 | `known_links` is always the list of the links of `results` |
| Digest.DedupByUrlSpec | apps/utils.py:275-285 | no two results share a link; each result is the first offered record with its link; every offered link is among the results |
| Digest.OfferEntries | apps/utils.py:274-285 | the inner loop over one feed's entries leaves `results` and `known_links` as after offering those entries, last first, tagged |
| Digest.OfferSection | apps/utils.py:266-285 | one section: a feed that raised leaves the state as it was; otherwise its first `entries_max` entries are offered |
| Digest.OfferRealm | apps/utils.py:260-285 | one realm: `entries_max` is set from the number of sections, and the sections are offered in order |
| Digest.FetchEntries | apps/utils.py:243-287 | the nested loops return exactly the de-duplicated offered records, in order; an empty mapping gives `[]` |
| Typograph.FirstAlternative | apps/utils.py:297-298 | an alternation of literals matches its first alternative, in the order written, that occurs at the position, and none when none occurs |
| Typograph.MatchAt | apps/utils.py:297-311 | no rule's match is empty, and no match runs past the text |
| Typograph.Sub | apps/utils.py:319 | `re.sub` as a scan; its result is stated by `TypographScan.SubstituteIsRewritten` |
| Typograph.Typography | apps/utils.py:315-321 | `apply_to` as a function: strip, pad with one space on each side, apply the rules in order, strip; `ApplyTo` is the loop proved to compute it |
| Typograph.ApplyRulesInOrder | apps/utils.py:296-319 | the rules run once each, in declaration order |
| Typograph.ApplyTo | apps/utils.py:315-321 | the loop computes the rules applied in order to the padded, stripped input, then stripped; the result has no leading or trailing whitespace |
| TypographScan.SubstituteIsRewritten | apps/utils.py:319 | `re.sub` on a whole text gives the text in which each leftmost non-overlapping match becomes its replacement, the characters inside it are dropped, and every other character is kept, in order |
| TypographScan.CoveredIff | apps/utils.py:319 | a position is inside a replaced match exactly when a replaced match that starts earlier reaches past it, so a match is replaced exactly when no earlier replaced match overlaps it |
| TypographLiterals.QuotesReplaceMatch | apps/utils.py:297 | `QUOTES_REPLACE` matches one `„`, `“` or `”`, or two apostrophes, and writes `"`; nothing else matches |
| TypographLiterals.QuotesReplaceResult | apps/utils.py:297 | `QUOTES_REPLACE` on a whole text: each `„`, `“`, `”` and each pair of apostrophes, paired from the left, becomes `"`, and every other character is kept |
| TypographLiterals.HellipMatch | apps/utils.py:305 | `HELLIP` matches three dots where there are three, else two, and writes `…`; a single dot does not match |
| TypographLiterals.HellipResult | apps/utils.py:305 | `HELLIP` on a whole text: each run of two or three dots, taken from the left, becomes `…`, and every other character is kept |
| TypographLiterals.CopyrightMatch | apps/utils.py:306 | `COPYRIGHT` matches `(c)` with a Latin or a Cyrillic `c` and writes `©` |
| TypographLiterals.CopyrightResult | apps/utils.py:306 | `COPYRIGHT` on a whole text: each such `(c)` becomes `©`, and every other character is kept |
| TypographLiterals.TrademarkMatch | apps/utils.py:307 | `TRADEMARK` matches `(tm)` and writes `™` |
| TypographLiterals.TrademarkResult | apps/utils.py:307 | `TRADEMARK` on a whole text: each `(tm)` becomes `™`, and every other character is kept |
| TypographLiterals.TrademarkRMatch | apps/utils.py:308 | `TRADEMARK_R` matches `(r)` and writes `®` |
| TypographLiterals.TrademarkRResult | apps/utils.py:308 | `TRADEMARK_R` on a whole text: each `(r)` becomes `®`, and every other character is kept |
| TypographLiterals.NoAlternativeLeft | apps/utils.py:297-308 | a literal rule whose replacement appears in none of its alternatives leaves no occurrence of any alternative |
| TypographLiterals.QuotesReplaceLeavesNone | apps/utils.py:297 | after `QUOTES_REPLACE` no `„`, `“` or `”` and no two adjacent apostrophes remain |
| TypographLiterals.HellipLeavesNone | apps/utils.py:305 | after `HELLIP` no two adjacent dots remain |
| TypographLiterals.SymbolsLeaveNone | apps/utils.py:306-308 | after the symbol rules no `(c)`, Cyrillic `(с)`, `(tm)` or `(r)` remains |
| TypographLiterals.DashReplaceMatch | apps/utils.py:298 | `DASH_REPLACE` matches exactly one dash character, so `--` never wins |
| TypographLiterals.DashReplacePointwise | apps/utils.py:298 | `DASH_REPLACE` is a length-preserving map of `-`, U+00AD, `–`, `—`, `―`, `−` to `-` that keeps every other character |
| TypographDashes.SequentialSpacesResult | apps/utils.py:300 | `SEQUENTIAL_SPACES` equals `Squeeze`, defined without matches: every maximal run of spaces and tabs becomes exactly one space, and every other character is kept, in order |
| TypographDashes.SequentialSpacesSqueeze | apps/utils.py:300 | after `SEQUENTIAL_SPACES` no tab and no two adjacent spaces remain, and every other character is kept in order |
| TypographDashes.DashEmResult | apps/utils.py:302 | `DASH_EM` is length-preserving and turns into `—` exactly the hyphens between a space or comma and a space that an earlier match did not cover |
| TypographDashes.DashEnMatchShape | apps/utils.py:303 | `DASH_EN` matches at a position exactly where `(\d+)[ ]*-[ ]*(\d+)` occurs there with its last digit run taken whole, and then writes the first digits, `–` and the second digits |
| TypographDashes.DashEnResult | apps/utils.py:303 | `DASH_EN` on a whole text: the leftmost non-overlapping such stretches become `<digits>–<digits>`, and every other character is kept |
| TypographDashes.DashEnKeepsContent | apps/utils.py:303 | `DASH_EN` removes only spaces and turns only hyphens into `–`; all other characters are kept in order |
| TypographQuotes.QuotesCloseResult | apps/utils.py:310 | `QUOTES_CYR_CLOSE` is length-preserving and turns into `»` exactly the last `"` of each token that is not the token's first character |
| TypographQuotes.QuotesOpenResult | apps/utils.py:311 | `QUOTES_CYR_OPEN` is length-preserving and turns into `«` exactly the first `"` of each token that is not the token's last character |
| TypographExamples.QuotedWord | apps/utils.py:310-321 | `"word"` becomes `«word»` |
| TypographExamples.LoneQuote | apps/utils.py:310-321 | a lone `"` is unchanged |
| TypographExamples.NumberRange | apps/utils.py:303-321 | `1-2` becomes `1–2` |
| TypographExamples.ChainedRange | apps/utils.py:303 | `DASH_EN` turns `1-2-3` into `1–2-3`: the scan resumes after `1-2`, so the second hyphen has no digits before it in the match |
| TypographExamples.NotIdempotent | apps/utils.py:310-321 | `apply_to` is not idempotent: `a"b"c"d` becomes `a«b"c»d` after one pass and `a«b»c»d` after two |
| TypographExamples.SpacedDash | apps/utils.py:302-321 | `1 - 2` becomes `1 — 2` (an em dash, because `DASH_EM` runs before `DASH_EN`) |
| TypographExamples.CopyrightSign | apps/utils.py:306-321 | `a(c)b` becomes `a©b` |

## Left out

- `\d` is modelled as the ASCII digits `0`-`9`; Python's `re` also matches other Unicode decimal digits. `\s`, `\S` and `str.strip()` use CPython's whitespace table.
- Currency.FormatCurrency: modelled on non-negative integers only. `int()` of a float or a negative value, and textwrap's handling of the minus sign, are not modelled. `textwrap.wrap` is modelled only on whitespace-free digit strings, where it cuts chunks of three.
- String-level `urlparse`/`urlunparse`/`parse_qs`/`urlencode` are not modelled. For example, `parse_qs` dropping blank values is not captured. The query is the parsed dictionary, modelled as a sequence of keys with their value lists.
- `urlsplit`/`urlunsplit` are parameters of `UrlMangle.Mangle`. How `urlunsplit` re-joins the components is not modelled.
- Python dictionaries are modelled as sequences in insertion order, both the parsed query and the realm mapping. Every query value is a list, so the plain-string UTM values of apps/utils.py:65-86 are one-element lists (`[source]`). `urlencode(..., doseq=True)` encodes a string and a one-element list alike.
- Thumbs.ThumbStore.GetThumbUrl: the cache timeout of 86400 seconds is not a clock in the model; an entry lapsing is the separate method `Expire`.
- Thumbs.ThumbStore.GetThumbUrl: a PIL failure while opening, resizing or saving (apps/utils.py:372-374) raises after `makedirs`, leaving the directory without the file and without a cache entry. In the model a miss always succeeds.
- Thumbs.ThumbStore.GetThumbUrl: a hit returns the URL the thumbnail would get now because of the store's invariant `Valid()`. It holds because the cache starts empty, only this method writes `thumbs|` keys, and `MEDIA_URL` and `SITE_URL` are constants of the store. A real Django cache can outlive a change of those settings and then returns the old URL.
- Thumbs.BasePathShape: the shape is stated only for a non-empty `name_plural` without a leading or trailing `/`. `os.path.join` with other values is modelled (`PathJoin`) but its result is not stated.
- Thumbs.ThumbUrlShape: stated only for such a `name_plural` and a non-empty `MEDIA_URL` ending in `/`.
- Thumbs.ThumbStore.GetThumbUrl: `width` and `height` are natural numbers and `absolute_url` is a boolean. The source formats any value with `'%sx%s'` and `'%s'` (apps/utils.py:353, 359), so a negative or fractional size, or a truthy flag that is not a bool, would give another path or cache key. That is not modelled.
- Opening, resizing, converting and saving the image with PIL is one step that adds the thumbnail file to the set of existing paths. Nothing is said about the image itself.
- The `makedirs`/`FileExistsError` race is concurrency. The model just adds the directory path; an existing directory is not an error.
- `feedparser.parse` and the network are a parameter. The `sig_integration_failed` signal sent when a parse raises is left out; the model only skips that feed.
- Digest.FetchEntries: a feed entry without `link`, `title` or `summary` makes `fetch_entries` raise `AttributeError`. The entry loop runs in the `else:` of the `try` (apps/utils.py:273-285), so the error is not caught. In the model an `Entry` always has all three fields.
- `PyDigestResource.get_mapping` (lazy import of the realm classes) is not modelled; the mapping is an input.
- Digest.FeedUrl has no contract of its own; it is the address formula `BaseUrl + alias + "/"` used by the loop and the lemmas.
- Digest.SectionItems bounds each section's contribution; the total per realm is not stated as a separate bound.
- The HTTP helpers (`get_from_url`, `get_json`, `get_image_from_url`, `get_timezone_name`, `get_location_data`, `make_soup`) wrap remote services and are not modelled.
- `HhVacancyManager` reshapes remote JSON whose shape is assumed; not modelled.
- `truncate_chars`/`truncate_words` delegate to Django's `Truncator`, which is not part of this model.
- `scrape_page` always returns `None` and is not modelled.
- settings/base.py is static configuration and is not part of this model.
