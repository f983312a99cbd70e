# Price normalisation and metric evaluation, modelled in Dafny

This project models the logic of a Sunflower Land economy dashboard that turns market prices
into rankings:

- **Market** (`src/lib/market.ts`): `getPriceBook` builds the *price book*, a map from trimmed,
  lower-cased item name to a positive price. It first tries a private feed: a list of items,
  given bare or under `items`, each with aliased name and price fields. If that feed yields
  nothing, it falls back to a public feed. The public feed's JSON may take several shapes:
  - `p2p`/`seq` price maps, where p2p wins and seq only fills gaps (`mergePreferP2P`);
  - the same maps nested under `prices` or `data`;
  - a per-item map of objects carrying `p2p`/`seq`/`floor`/`last` fields.
- **Evaluate** (`src/lib/evaluate.ts`): `evaluateEfficiency` rates each catalog item by price
  earned per hour of production. It drops items without a positive price or duration and ranks
  the rest from best to worst.
- **CoinTrade** (`src/lib/evaluateCoinTrade.ts`): `evaluateCoinTrade` matches each entry of a
  coin-price catalog against the price book by name variants: the name trimmed, lower-cased,
  with its white space removed or replaced, and `normName`, the accent-free `[a-z0-9]` key. It
  then ranks the matches by coins earned per unit of market currency.

Supporting modules:

- `Text`: the JavaScript string primitives used.
- `Json`: parsed JSON values and the JavaScript coercions applied to them.
- `Folds`: the generic loop shapes, each with its characterising lemmas. These are:
  - later write wins;
  - first write wins;
  - a walk that can throw;
  - filter-map;
  - one value spread over many keys.
- `Sorting`: the stable descending sort that `Array.prototype.sort` performs with the
  comparators used.

The loops of the source are Dafny methods with loop invariants:

- `mergePreferP2P`;
- the private-list walk;
- the per-item walk;
- `buildPriceIndex`;
- the variant probe;
- the main loop of `evaluateCoinTrade`.

Each method is proved equal to a specification function. The properties the source promises
are proved as lemmas about those functions:

- p2p precedence;
- key normalisation and positivity of every price;
- which rows appear, and that each appears once;
- ordering and stability;
- idempotence of the normalisers.

Some behaviours of the code are easy to miss. The model follows the code on each of them:

- The efficiency evaluator looks a name up by `toLowerCase()` only. The name is not trimmed,
  although the price book's keys are.
- The per-item shape takes the first of `p2p ?? seq ?? floor ?? last` that is not `null`. That
  field may be zero, in which case the item is dropped, even when a later field is positive.
- `variants` works on the trimmed name, but the final `normName` probe and the index's extra key
  use the untrimmed name. `CoinTrade.NormNameTrim` shows that this makes no difference.
- An unknown public shape gives an empty map, with one exception: the body `null` makes the
  source throw (see Findings). `Market.PriceBookOutcomeAsWritten` is the request flow as
  written, and it fails on that body. `Market.PriceBookOutcome` and `Market.GetPriceBook` use
  the corrected decoder, and give the empty map there. The two flows differ on that body only.

## Model

| member | source | states |
|---|---|---|
| Text.Lower | src/lib/market.ts:23 | length kept, each character lower-cased, no upper-case letter left |
| Text.Trim | src/lib/market.ts:23 | the result neither starts nor ends with white space and is no longer than the input |
| Text.TrimSlice | src/lib/market.ts:23 | `trim` removes exactly white space: the result is a slice of the input with only white space before and after it |
| Text.PriceKey | src/lib/market.ts:23 | `trim().toLowerCase()` gives a key without surrounding white space or upper-case letters |
| Text.PriceKeyIdempotent | src/lib/market.ts:23 | normalising a price-book key again leaves it unchanged |
| Text.ReplaceSpaceRunsSpec | src/lib/evaluateCoinTrade.ts:39-41 | replacing white-space runs by white-space-free text leaves no white space; text without white space is unchanged |
| Text.ReplaceSpaceRunsAt | src/lib/evaluateCoinTrade.ts:39-41 | for a white-space-free prefix followed by a maximal white-space run, the prefix is kept, the whole run becomes one `rep`, and the rest is replaced in turn |
| Json.Lookup | src/lib/market.ts:76 | a property read returns a field with that name; no result means no field has that name |
| Json.FirstPresentSpec | src/lib/market.ts:49-51 | an `a ?? b ?? ...` chain returns the first read that is neither `undefined` nor `null`, and returns nothing exactly when every read is nullish |
| Json.EntriesKeysDistinct | src/lib/market.ts:89-93 | the keys `Object.entries` gives an array or a string are digit strings, no two alike, each reading back as its position, so writes under them never collide |
| Json.ParseDecimalText | src/lib/market.ts:51 | `Number` reads the decimal text of every natural number back as that number |
| Json.ParseNumeric | src/lib/market.ts:51 | `Number` of a string reads a negative value only when the trimmed text starts with a minus sign |
| Json.ParseNumericNegate | src/lib/market.ts:51 | for a text `t` that starts with a digit and does not end in white space, `Number('-' + t)` is `-Number(t)`, and the two are NaN together |
| Json.ToNumberReads | src/lib/market.ts:92 | `Number` reads a number as itself; it reads a natural number's decimal text, bare or as an array's only element, as that number |
| Json.ToTextOfArray | src/lib/market.ts:49-50 | `toString` of a one-element array of a non-`null` element is that element's text, and of an empty array the empty string |
| Folds.LastWinsSpec | src/lib/market.ts:22-25 | a key is written by a loop of `out[key] = v` exactly when some step writes it, and it holds the value of the last such step |
| Folds.FirstFillsSpec | src/lib/market.ts:26-29 | a `!out[key]` guarded loop keeps every existing key's value and gives a new key the value of the first step that writes it |
| Folds.WalkIsLastWins | src/lib/market.ts:48-53 | a walk completes exactly when no item throws, and then its result is that of the last-write-wins loop |
| Folds.FilterMapExactly | src/lib/evaluate.ts:13-30 | `map(...).filter(r => r !== null)` contains a value exactly when some element maps to it |
| Folds.SpreadSpec | src/lib/evaluateCoinTrade.ts:55-62 | writing one value under all of an element's keys: a key is present exactly when some element has it, with the value of the last such element |
| Market.EntryWrite | src/lib/market.ts:23-24 | an entry is kept exactly when its value is a positive number, under its normalised name and with that value |
| Market.MergePreferP2P | src/lib/market.ts:19-31 | the two loops compute the p2p-then-seq merge, and every key is normalised with a positive price |
| Market.MergedWellKeyed | src/lib/market.ts:19-31 | every merged key is its own `trim().toLowerCase()` and every merged price is positive |
| Market.MergedKeys | src/lib/market.ts:22-29 | the merged keys are exactly those of the positively priced p2p entries and the positively priced seq entries |
| Market.MergedPrefersP2P | src/lib/market.ts:22-28 | a key some p2p entry prices holds the last such p2p price, whatever seq says |
| Market.MergedSeqFillsGaps | src/lib/market.ts:26-28 | a key no p2p entry prices holds the price of the first seq entry that prices it |
| Market.FeedWrite | src/lib/market.ts:49-52 | a private item is kept exactly when its aliased name is non-empty after normalising and its aliased price is positive |
| Market.ParsePrivateList | src/lib/market.ts:46-53 | the list loop computes the walk: it throws on a `null` item, otherwise writes each kept item |
| Market.PrivateFeed | src/lib/market.ts:33-58 | a usable private result is non-empty, its keys are non-empty and normalised, and its prices are positive |
| Market.PrivateFeedSpec | src/lib/market.ts:47-53 | with no `null` item the walk completes; a key is present exactly when some item writes it, with the last such item's price |
| Market.FeedListSpec | src/lib/market.ts:46 | getting the list throws exactly when the body is `null`, or is not an array and holds under `items` something that is neither an array nor a string; an array body is the list |
| Market.FeedListOfString | src/lib/market.ts:46-53 | a string under `items` is walked by character without throwing and keeps nothing |
| Market.HasP2PSeq | src/lib/market.ts:80 | only an object selects the merge, and an empty `p2p` map does select it |
| Market.Container | src/lib/market.ts:76 | `raw?.prices ?? raw?.data ?? raw ?? {}` is never `null` |
| Market.ItemWrite | src/lib/market.ts:89-93 | a per-item entry is written exactly when its value is a truthy object whose `Number(p2p ?? seq ?? floor ?? last ?? 0)` is positive, under the entry's normalised name and with that price |
| Market.ParsePerItem | src/lib/market.ts:87-96 | the per-item loop computes the last-write-wins map of the item writes, normalised and positive |
| Market.PublicPrices | src/lib/market.ts:76-101 | the public decoding's result is normalised with positive prices for every body, `null` included |
| Market.PublicPricesAsWrittenThrowsOnNull | src/lib/market.ts:95-99 | the decoding as written throws on the body `null`, where the corrected one gives the empty map |
| Market.PublicPricesAgree | src/lib/market.ts:76-101 | on every other body the decoding as written and the corrected one agree |
| Market.PublicPricesMerge | src/lib/market.ts:80-84 | a container with a truthy `p2p` or `seq` is decoded by the merge |
| Market.PublicPricesPerItem | src/lib/market.ts:86-96 | in the per-item shape a key is present exactly when some object entry has a positive first present price field, with the last such entry's price |
| Market.PriceBookOutcome | src/lib/market.ts:60-101 | with the corrected decoder: the price book is normalised, a usable private result is returned, and the request fails exactly when the private feed has nothing and the public fetch throws or is not ok |
| Market.PriceBookOutcomeAsWritten | src/lib/market.ts:60-101 | the flow as written fails in decoding exactly when the private feed has nothing and the public answer is ok with the body `null`; otherwise it gives what the corrected flow gives |
| Market.PrivateFeedFirst | src/lib/market.ts:62-63 | with a usable private result the public answer makes no difference |
| Market.GetPriceBook | src/lib/market.ts:60-101 | the request flow, with the corrected decoder, computes `PriceBookOutcome` |
| Market.P2POnlyMergeExample | src/lib/market.ts:19-31 | two positively priced p2p names with distinct keys and an empty seq give exactly those two keys and prices |
| Market.P2PBeatsSeqMergeExample | src/lib/market.ts:26-28 | a name priced in both maps keeps its p2p price |
| Market.P2PSeqBodyExample | src/lib/market.ts:76-84 | a body `{ p2p, seq }` is decoded by merging its two maps |
| Market.UnknownShapeExample | src/lib/market.ts:86-101 | a body of an unknown shape gives the empty map |
| Market.PublicStatusExample | src/lib/market.ts:67-68 | a non-ok public status fails the request when there is no private result |
| Sorting.SortDesc | src/lib/evaluate.ts:31 | the sort is a permutation of its input and non-increasing in the key |
| Sorting.SortDescStable | src/lib/evaluate.ts:31 | elements with equal keys keep their input order |
| Sorting.SortDescCharacterised | src/lib/evaluate.ts:31 | any non-increasing sequence that keeps each key's elements in input order is the sort's result |
| Evaluate.RowFor | src/lib/evaluate.ts:14-28 | an entry gives a row exactly when its lower-cased name has a positive price and its duration is positive; the row copies the entry and its rate times the hours is the price |
| Evaluate.EvaluateEfficiency | src/lib/evaluate.ts:12-32 | the output is non-increasing by rate, a permutation of the candidate rows, and no longer than the catalog |
| Evaluate.CandidatesExactly | src/lib/evaluate.ts:13-30 | a row is a candidate exactly when some catalog entry produces it |
| Evaluate.EvaluateEfficiencyRows | src/lib/evaluate.ts:12-32 | every output row comes from an entry that passes the filter, and every passing entry's row is output |
| Evaluate.EvaluateEfficiencyStable | src/lib/evaluate.ts:31 | rows with equal rates keep catalog order |
| Evaluate.EvaluateEfficiencyUnique | src/lib/evaluate.ts:31 | the output is the only non-increasing, tie-stable ordering of the candidates |
| Evaluate.WheatExample | src/lib/evaluate.ts:14-28 | a one-hour item earns its price per hour |
| Evaluate.ZeroDurationExample | src/lib/evaluate.ts:17 | an item with no production time gives no row |
| CoinTrade.NormKind | src/lib/evaluateCoinTrade.ts:16-21 | `fruit` and `fruits` in any case give `fruit`; every other kind is just lower-cased |
| CoinTrade.NormKindIdempotent | src/lib/evaluateCoinTrade.ts:16-21 | normalising a kind twice changes nothing |
| CoinTrade.CharKey | src/lib/evaluateCoinTrade.ts:25-30 | one character leaves only `[a-z0-9]`; a key character stands for itself and white space leaves nothing |
| CoinTrade.NormName | src/lib/evaluateCoinTrade.ts:24-31 | `normName` yields only `[a-z0-9]` characters |
| CoinTrade.NormNameConcat | src/lib/evaluateCoinTrade.ts:24-31 | `normName` distributes over concatenation |
| CoinTrade.NormNameOfKey | src/lib/evaluateCoinTrade.ts:30 | a string already in `[a-z0-9]` is its own `normName` |
| CoinTrade.NormNameIdempotent | src/lib/evaluateCoinTrade.ts:24-31 | `normName` applied twice changes nothing |
| CoinTrade.NormNameOfSpaces | src/lib/evaluateCoinTrade.ts:29 | white space leaves nothing under `normName` |
| CoinTrade.NormNameTrim | src/lib/evaluateCoinTrade.ts:35 | trimming does not change `normName` |
| CoinTrade.DedupSpec | src/lib/evaluateCoinTrade.ts:37-45 | `Array.from(new Set(...))` keeps exactly the unseen elements, each once |
| CoinTrade.VariantsSpec | src/lib/evaluateCoinTrade.ts:34-46 | the variants are exactly the nine name forms, without repeats |
| CoinTrade.VariantsContain | src/lib/evaluateCoinTrade.ts:35-45 | the trimmed name, its lower-case form and its `normName`, trimmed or not, are all variants |
| CoinTrade.KindByNameSpec | src/lib/evaluateCoinTrade.ts:49-51 | a name has a kind exactly when some catalog entry has that name, and the kind is the last such entry's normalised kind, `crop` when it has none |
| CoinTrade.ProducesVariant | src/lib/evaluateCoinTrade.ts:57-61 | the extra `normName` key of the index is already a variant |
| CoinTrade.BuildPriceIndex | src/lib/evaluateCoinTrade.ts:54-64 | the nested loops compute the index: every pair spread over its variant keys and its `normName` key |
| CoinTrade.PriceIndexSpec | src/lib/evaluateCoinTrade.ts:54-64 | a key is indexed exactly when some price-book name produces it, and it maps to the last such pair |
| CoinTrade.FirstHitSpec | src/lib/evaluateCoinTrade.ts:73-77 | probing in order finds nothing exactly when no variant is indexed, else the entry of the first indexed variant |
| CoinTrade.FirstHitAt | src/lib/evaluateCoinTrade.ts:73-77 | a hit with no earlier hit is the probe's result |
| CoinTrade.FirstHitDedup | src/lib/evaluateCoinTrade.ts:37-45 | removing repeats from the name forms does not change the first hit |
| CoinTrade.MatchIsFirstHit | src/lib/evaluateCoinTrade.ts:78 | the final `normName` probe never finds anything the variants missed; the match is the first indexed candidate |
| CoinTrade.FindMatch | src/lib/evaluateCoinTrade.ts:72-78 | the probe loop with its early break and the fallback computes the match |
| CoinTrade.KindOf | src/lib/evaluateCoinTrade.ts:90-93 | a kind is one of the table's kinds, or `crop` |
| CoinTrade.KindOfCatalog | src/lib/evaluateCoinTrade.ts:90-93 | the kind is that of the last durations entry with the coin-catalog name; failing that, of the last entry with the matched name; failing both, `crop` |
| CoinTrade.TradeRowFor | src/lib/evaluateCoinTrade.ts:80-101 | an entry gives a row exactly when its match has a positive price; the row has the catalog's name and coin price, the matched price, the kind from the catalog name or the matched name, and a ratio that times the price gives the coin price |
| CoinTrade.CoinTradeRows | src/lib/evaluateCoinTrade.ts:67-106 | the result is non-increasing by ratio, a permutation of the catalog-order rows, and no longer than the coin catalog |
| CoinTrade.EvaluateCoinTrade | src/lib/evaluateCoinTrade.ts:67-106 | the loop with its `continue`, `push` and final sort computes the ranked rows |
| CoinTrade.TradeRowsLength | src/lib/evaluateCoinTrade.ts:70-102 | at most one row per coin-catalog entry |
| CoinTrade.TradeRowsExactly | src/lib/evaluateCoinTrade.ts:70-102 | a row is produced exactly when some coin-catalog entry gives it |
| CoinTrade.CoinTradeRowsExactly | src/lib/evaluateCoinTrade.ts:67-106 | every output row comes from a positively matched entry, and every such entry's row is output |
| CoinTrade.CoinTradeRowsStable | src/lib/evaluateCoinTrade.ts:104 | rows with equal ratios keep coin-catalog order |
| CoinTrade.CoinTradeRowsDistinctNames | src/lib/evaluateCoinTrade.ts:70-101 | with distinct catalog names no name appears in two output rows |
| CoinTrade.TradeRowsDistinctNames | src/lib/evaluateCoinTrade.ts:70-101 | with distinct catalog names the unsorted rows have distinct names |
| CoinTrade.SameKeyMatches | src/lib/evaluateCoinTrade.ts:54-87 | in a one-entry book with a positive price, a coin name whose `normName` equals the book name's `normName` is matched to that entry and priced from it |

## Left out

- The network, environment variables, the fetch cache and its time-to-live (`fetchInit`), the
  bearer token, the cache-busting query and the console logging. The private feed's
  configuration and answer, and the public answer, are inputs: a missing base URL is
  `None`, and a fetch that throws is `Unreachable`.
- `JSON.parse` of the text: a body is given as its parsed value, or as `None` when it is not
  JSON.
- `Number` to `String` (JavaScript's shortest round-trip number text): it is used when a number
  is the name of a private item. It is the parameter `numText`.
- Json.ParseNumeric: reads decimal literals with an optional sign. Exponents, `0x`/`0o`/`0b`
  forms and `Infinity` are read as NaN here.
- NaN, infinities and floating-point rounding: prices are mathematical reals, so division is
  exact.
- Text.Lower: lower-cases ASCII and the Latin-1 Supplement only. Other characters are left
  unchanged.
- CoinTrade.CharKey: NFKD decomposition and the removal of combining marks are modelled for
  `char`s up to U+00FF only. Every other non-`[a-z0-9]` character leaves nothing.
- A JSON string is a sequence of Unicode scalar values, not UTF-16 code units.
- Properties inherited from `Object.prototype`, and the special key `__proto__`. Two examples:
  - a read: `out['constructor']` is truthy on an empty object;
  - a write: `out['__proto__'] = val` with a number `val` stores nothing, at src/lib/market.ts:24,
    28, 52 and 93.
  The model treats `constructor` and `__proto__` as ordinary keys.
- The integer-key ordering of `Object.entries`, and duplicate keys in JSON objects. In the
  model, an object is its own fields in entry order, with distinct keys.
- Market.PrivateFeed, Market.PublicPrices: objects with an own `toString` property, such as
  `{"toString":1}`, do come out of `JSON.parse`. Converting such an object to text or to a
  number throws a `TypeError`, and so does converting an array that holds one. The model
  instead reads the object as the text `"[object Object]"` and the number NaN. So the model
  differs from the code in two places:
  - a private item whose name or price is such a value throws at src/lib/market.ts:50-51. The
    catch makes the private feed give `null`, but `PrivateFeed` keeps the item, or skips it for
    a NaN price;
  - a per-item price that is such a value throws at line 92, so `getPriceBook` rejects, but the
    model skips the entry.
- The decoded price book is a map, but `evaluateCoinTrade` takes it as a sequence of pairs: the
  order `Object.entries` gives it decides which pair a shared index key ends with.
- The two static catalogs (`durations.json`, `coinPrices.json`) are parameters.
- The sorts are modelled as a function on values (a stable insertion sort), not as an in-place
  sort of an array.
- The UI components, pages and API route are not part of this model.

## Findings

| source | as written | input that shows it | evidently intended | confidence | as-written member | corrected member |
|---|---|---|---|---|---|---|
| src/lib/market.ts:76-99 | when nothing is decoded, the diagnostic `Object.keys(raw)` runs on `raw`, and for the body `null` this throws a `TypeError` | a public ok answer whose body is the JSON text `null` | an unrecognised shape, `null` included, gives the empty price book | high, not executed | Market.PublicPricesAsWritten (shown by Market.PublicPricesAsWrittenThrowsOnNull; the request flow as written is Market.PriceBookOutcomeAsWritten) | Market.PublicPrices |
