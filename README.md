# Polarify marker rewriter, modelled in Dafny

Polarify keeps generated sections of Markdown files up to date. A file holds
marker comments such as `<!-- POLAR type=issues org=o repo=r -->`. For each
marker, the script renders fresh content and writes it between the start tag
and a matching end tag `<!-- POLAR-END id=<id> -->`. An end tag left from an
earlier run is replaced, not duplicated.

There are two scripts:
- `polarify_file` in polarify/polarify.py expands `issues`, `backers-avatars` and `ads` markers.
- `sync_file` in ads/script.py renders content only for `ads` markers. It still
  rewrites every other typed marker, `issues` and `backers-avatars` included,
  with empty content between start and end tag.

The two scripts run the same scan-and-splice loop. They differ only in what a
parsed marker turns into.

The model has six modules:

- `Text`: the Python string operations the scripts use, namely `str.find`,
  `str.split` and `str.join` with a one-character separator, and clamped
  slicing.
- `Comment`: the marker syntax, shared by both scripts. It contains:
  - an ordered dictionary (`Dict`) for Python's insertion-ordered `dict`;
  - `parse_comment` (`ParseComment`);
  - `render_start_tag` (`RenderStartTag`);
  - the end tag.
  It also proves that, when no key or value contains a space or `=`,
  re-parsing a rendered start tag gives back the same dictionary in
  canonical key order, and that re-rendering that gives the same text.
- `Engine`: the loop itself.
  - `Step` is one iteration of the `while True` loop.
  - `Run` iterates `Step` to the end of the text.
  - `Rewrite` adds the early return for a text without markers.
  - `RewriteText`, `ExpandNext`, `ExpandMarker` and `PlaceMarker` are the loop written as
    methods, proved equal to those functions.
  - How a parsed marker becomes content, a skip or an exception is a
    parameter: `dispatch`.
  - `ExpansionIsStable`: running the loop again over a marker it has just
    expanded changes nothing, under the conditions listed under "Left out".
- `Polarify`: the dispatch of `polarify_file`, and `PolarifyFile`.
- `Ads`: the dispatch of `sync_file`, with its benefit-id fallback and skip
  rule, and `SyncFile`.
- `Backers`: the de-duplication loop of `polar_backers_avatars`. It folds
  pledges into one entry per avatar URL and sums the amounts.

Outside inputs:
- The renderers (`polar_issues`, `polar_backers_avatars`, `polar_ads`) are a
  parameter `render` that returns the content, or `None` when the call
  raises.
- The random ids are a parameter `ids`. The `n`-th id drawn is `ids(n)`.
- A run ends in one of three ways:
  - `Untouched`: the function returns before writing;
  - `Written(text)`: the text that would be written;
  - `Raised(error)`: an exception escapes, and nothing is written.

Behaviour of the code that the model keeps as written:

- An exception from a renderer, a missing required key (`KeyError`) or a
  failing `int(...)` ends the whole run, and nothing is written.
- A marker of an unknown type is still rewritten, with empty content.
- `parse_comment` splits on single spaces, not on any whitespace. Each word
  must contain exactly one `=`. A word with two `=` raises, just like a word
  with none. A malformed word ends the whole run, not just that marker.
- When no `-->` follows a marker, the code slices `contents[idx:2]`, which
  never parses. This raises `ValueError`; it does not raise a dedicated
  "malformed marker" error.

## Model

| member | source | states |
|---|---|---|
| Text.Find | polarify/polarify.py:33 | `str.find`: -1, or an index at or after the start where the needle occurs |
| Text.FindIsFirst | polarify/polarify.py:33 | no occurrence lies between the start and the index found, and none at all when -1 is returned |
| Text.PySlice | polarify/polarify.py:40 | a slice with non-negative bounds is the exact sub-sequence when in range, empty when the bounds cross, and clamped to the end otherwise |
| Text.Split | polarify/polarify.py:357 | `split(" ")` yields at least one piece and no piece contains the separator |
| Text.JoinSplit | polarify/polarify.py:119 | joining the pieces of a split restores the string |
| Text.SplitJoin | polarify/polarify.py:119 | splitting a join of separator-free words gives back exactly the words |
| Comment.Put | polarify/polarify.py:51-53 | `d[k] = v` on an ordered dictionary: the value is set, a new key goes to the end of the order, an existing key keeps its place, and the keys stay distinct |
| Comment.PairNotLiteral | polarify/polarify.py:358 | a word containing `=` is never one of the three skipped literal words |
| Comment.ParseWords | polarify/polarify.py:357-361 | the accumulated dictionary is well formed: distinct keys, the order listing exactly the keys |
| Comment.ParseWordsSucceedsIff | polarify/polarify.py:357-361 | the word loop succeeds exactly when every word is a literal or contains exactly one `=`; otherwise it reports a word from the input that is neither |
| Comment.ParseComment | polarify/polarify.py:350-362 | a successful parse yields a well-formed ordered dictionary |
| Comment.ParseCommentSucceedsIff | ads/script.py:134-146 | `parse_comment` raises exactly when some space-separated word is neither `<!--`, `POLAR`, `-->` nor a word with exactly one `=`, and then it reports such a word |
| Comment.ParseLastWins | polarify/polarify.py:360-361 | a key gets the value of its last occurrence: the `i`-th word's value stands when no later word has the same key |
| Comment.ParseKeepsLater | polarify/polarify.py:360-361 | a key that no remaining word mentions keeps the value it already has |
| Comment.ParseSnoc | polarify/polarify.py:357-361 | parsing a word list is parsing all but its last word and then that word on the result, as the loop reads one word at a time |
| Comment.ParseKeys | polarify/polarify.py:357-361 | a key is in the parsed dictionary exactly when some `key=value` word carries it |
| Comment.ParseOrder | polarify/polarify.py:357-361 | the parsed keys are listed in the order of their first `key=value` words; a later word with the same key does not move its key |
| Comment.Rest | polarify/polarify.py:117 | the non-reserved keys are exactly the keys other than `type`, `id`, `org` and `repo`, without repeats |
| Comment.EndTag | polarify/polarify.py:55 | the end tag has length 22 plus the id's length and starts with `<!-- POLAR-END ` |
| Comment.HeadIsReserved | polarify/polarify.py:113-116 | the leading keys are distinct and are exactly the reserved keys present in the dictionary |
| Comment.HeadPairs | polarify/polarify.py:113-116 | the leading words are `type=<t>`, `id=<i>`, then `org=` and `repo=` only when those keys are present, each carrying the dictionary's value verbatim |
| Comment.CanonicalOrderIsPermutation | polarify/polarify.py:113-117 | the start tag lists every key of the dictionary exactly once |
| Comment.StartTagWordsCanonical | polarify/polarify.py:110-118 | the words of `render_start_tag` are `<!-- POLAR`, one `k=v` per key in canonical order (type, id, org, repo, then the rest in insertion order), and `-->` |
| Comment.StartTagWords | polarify/polarify.py:110-118 | the list `p` has at least four words: `<!-- POLAR`, then `type=<type>` and `id=<id>` with the dictionary's values, and `-->` last |
| Comment.RenderStartTag | polarify/polarify.py:109-119 | the start tag begins with `<!-- POLAR ` and ends with ` -->` |
| Comment.PairsHaveNoSpace | polarify/polarify.py:117 | when no key or value holds a space, no `k=v` word does |
| Comment.RenderedWords | polarify/polarify.py:109-119 | splitting the rendered start tag on spaces gives `<!--`, `POLAR`, the `k=v` words in canonical order, and `-->` |
| Comment.ParsePairs | polarify/polarify.py:356-361 | parsing `k=v` words for distinct keys appends those keys to the order and gives each key its value, keeping earlier entries |
| Comment.StartTagRoundTrip | polarify/polarify.py:109-119 | when no key or value contains a space or `=`, parsing a rendered start tag gives back the same key-to-value map, with keys in canonical order |
| Comment.StartTagStable | ads/script.py:92-102 | rendering the canonical form of a dictionary gives the same start tag as rendering the dictionary itself |
| Engine.TagEnd | polarify/polarify.py:38 | `end_of_start` is -1, or a `-->` position after the marker's first character, with the whole `-->` inside the text |
| Engine.Tag | polarify/polarify.py:40 | `comment` is the text from the marker up to and including the `-->` found, or at most two characters when none was found |
| Engine.WithId | polarify/polarify.py:50-53 | an `id` already present is kept and no id is drawn; otherwise the next id is drawn and appended as the last key; no other key changes |
| Engine.AppendFrom | polarify/polarify.py:57-58 | `append_from` is the end of the start tag, or the end of an end tag found (at an index > 0) at or after the marker |
| Engine.Expansion | polarify/polarify.py:89-99 | the text spliced over a marker starts with the start tag, ends with the end tag, and is as long as both plus the content and two newlines |
| Engine.Step | polarify/polarify.py:32-102 | each iteration that continues leaves the cursor inside the new text and strictly shrinks the distance from the cursor to the end, so the loop terminates |
| Engine.Expand | polarify/polarify.py:50-102 | expanding a typed marker shrinks the distance from the cursor to the end compared with the marker's start |
| Engine.Place | polarify/polarify.py:89-102 | whether the marker is skipped or spliced, the new cursor stays inside the new text and the distance to the end becomes smaller than it was from the marker's start |
| Engine.Run | polarify/polarify.py:32-104 | once the loop starts, the run ends in a write or an exception, never in an early return |
| Engine.Rewrite | polarify/polarify.py:28-29 | the file is left untouched exactly when the text contains no `<!-- POLAR` |
| Engine.UnterminatedTagRaises | ads/script.py:32-38 | when no `-->` follows a marker, the slice taken as the comment never parses |
| Engine.UnterminatedAborts | polarify/polarify.py:38-44 | a marker without a closing `-->` ends the run with the malformed-argument error |
| Engine.EndTagNotInsideStartTag | polarify/polarify.py:57 | the end tag found from the marker's index is never inside the parsed start tag: it is absent or begins at or after the tag's `-->` |
| Engine.AppendFromQuirkHarmless | polarify/polarify.py:57-58 | the test `existing_end > 0` acts like `existing_end >= 0`, and the replaced span always reaches the end of the start tag |
| Engine.UntypedMarkerSkipped | polarify/polarify.py:46-48 | a marker without `type` leaves the text and the id count unchanged and moves the cursor just past its `-->` |
| Engine.SkippedMarker | ads/script.py:59-62 | a marker the dispatch skips leaves the text unchanged and moves the cursor past its `-->`, while the id drawn for it stays used |
| Engine.RenderedMarkerSpliced | polarify/polarify.py:89-102 | the new text is the old text up to the marker, then start tag, newline, content, newline, end tag, then the old text from `append_from`; the prefix is kept and the new cursor is where the old suffix begins |
| Engine.StartTagClosing | polarify/polarify.py:109-119 | when no key or value holds `-->`, a rendered start tag begins with `<!-- POLAR` and its first `-->` is its last three characters |
| Engine.ReparsedMarker | polarify/polarify.py:33-44 | in a text holding a rendered start tag, the next scan from that tag finds it, reads its own `-->` as the end and parses back the arguments in canonical order |
| Engine.EndTagAfterBody | polarify/polarify.py:57 | between a start tag and the end tag written after it, the end tag does not begin, provided the content does not hold it and the id holds no newline |
| Engine.ReexpandedEndTag | polarify/polarify.py:57 | the search for the end tag then finds the one written after the content |
| Engine.ExpansionFound | polarify/polarify.py:33-58 | in text just written over a marker, the loop finds the marker again, its arguments in canonical order and its end tag right after the content |
| Engine.RenderedInPlace | polarify/polarify.py:50-102 | a marker that has its id and whose end tag ends where its expansion would end is replaced by that expansion: the text stays the same and no id is drawn |
| Engine.ExpansionIsStable | polarify/polarify.py:32-102 | running the loop again over a marker it has just expanded leaves the text as it is, draws no new id and moves the cursor past the expansion, given the same content and the conditions listed under Left out |
| Engine.StepKeepsPrefix | polarify/polarify.py:91-92 | an iteration leaves the text before the marker it handles unchanged |
| Engine.RunKeepsPrefix | polarify/polarify.py:32-102 | the written text keeps everything before the cursor the loop started from |
| Engine.RewriteKeepsTextBeforeFirstMarker | polarify/polarify.py:28-106 | the written file keeps the text before its first marker unchanged |
| Engine.MalformedMarkerAborts | polarify/polarify.py:44 | a marker containing a word that is neither a literal nor a single `key=value` ends the run with that word's error |
| Engine.FailedMarkerAborts | polarify/polarify.py:64-85 | a renderer failure ends the run with an error, and nothing is written |
| Engine.ExpandNext | polarify/polarify.py:33-48 | one pass of the loop body computes exactly `Step` |
| Engine.ExpandMarker | polarify/polarify.py:50-58 | the second half of the loop body (id, end tag, `append_from`, dispatch) computes exactly `Expand` |
| Engine.PlaceMarker | polarify/polarify.py:89-102 | acting on the renderer's outcome (raise, skip, or build the new text and cursor) computes exactly `Place` |
| Engine.RewriteText | polarify/polarify.py:28-102 | the `while True` loop computes exactly `Rewrite` |
| Polarify.Get | polarify/polarify.py:68 | the conditional lookup `args[k] if k in args else <default>` is present exactly when the key is, with its value |
| Polarify.Flag | polarify/polarify.py:72-75 | `bool(args[k])` when the key is present, true exactly for a non-empty string, and `None` otherwise |
| Polarify.Required | polarify/polarify.py:64-85 | the keys read with `args[k]`: `org` and `repo` for `issues`, `org` for `backers-avatars`, `subscription_benefit_id`, `height` and `width` for `ads`, none for other types; the optional keys are never required |
| Polarify.RequestFor | polarify/polarify.py:64-85 | the renderer is chosen by type, and each argument comes from its key, with `limit`, `have_pledge` and `have_badge` present exactly when their keys are, and the default sort when `sort` is missing |
| Polarify.Dispatch | polarify/polarify.py:62-87 | an unknown type renders empty content; a known type fails exactly when a required key is missing or its renderer fails, and otherwise yields the renderer's content; nothing is ever skipped |
| Polarify.UnknownTypeExpandedEmpty | polarify/polarify.py:86-99 | a marker of an unknown type is replaced by start tag, two newlines and end tag |
| Polarify.PolarifyFile | polarify/polarify.py:24-106 | `polarify_file` leaves a file without markers untouched, and otherwise computes `Rewrite` with the `polarify_file` dispatch |
| Ads.BenefitId | ads/script.py:59 | the benefit id is `subscription_benefit_id` when present and non-empty, otherwise `benefit_id` when present (even if empty), otherwise missing |
| Ads.Dispatch | ads/script.py:56-71 | a non-`ads` type renders empty content; an `ads` marker is skipped exactly when there is no benefit id, fails exactly when `height` or `width` is missing or the renderer fails, and otherwise yields the renderer's content |
| Ads.MissingBenefitSkipped | ads/script.py:59-62 | an `ads` marker without either benefit key leaves the text unchanged and moves the cursor past its `-->` |
| Ads.OtherTypeExpandedEmpty | ads/script.py:69-82 | a marker of any other type, `issues` included, is replaced by start tag, two newlines and end tag |
| Ads.SyncFile | ads/script.py:18-89 | `sync_file` leaves a file without markers untouched, and otherwise computes `Rewrite` with the `sync_file` dispatch |
| Backers.Dedup | polarify/polarify.py:285-301 | the dictionary built from any pledge list lists each key once, has no empty key, and files every entry under its own avatar URL |
| Backers.AddEffect | polarify/polarify.py:288-301 | one turn of the loop: an empty URL changes nothing; otherwise the pledge's amount is added under its URL, which becomes a key listed last if it was not one; every other entry stays as it was |
| Backers.AddKeepsWellFormed | polarify/polarify.py:288-301 | one turn of the loop keeps the dictionary well formed |
| Backers.DedupKeys | polarify/polarify.py:288-301 | an avatar URL is a key exactly when it is non-empty and some pledge has it |
| Backers.DedupAmount | polarify/polarify.py:291-294 | each entry's amount is the sum of the amounts of all pledges with that avatar URL |
| Backers.DedupFirstPledger | polarify/polarify.py:295-301 | each entry's name and GitHub user name come from the first pledge with that avatar URL |
| Backers.DedupOrder | polarify/polarify.py:303-304 | entries are listed in the order their first pledges appear; the discarded `sorted(...)` re-orders nothing |
| Backers.Deduplicate | polarify/polarify.py:285-301 | the loop over the pledges builds exactly `Dedup` |

## Left out

- The HTTP and SDK calls (`api_organization_lookup`, `api_pledges_search`, the fetches in `polar_issues`, both `polar_ads`, including the paginated listing loop in ads/script.py). The renderers are a parameter that returns content or fails.
- The rendering inside `polar_issues`, `polar_backers_avatars` and `polar_ads`: the floating-point percent and dollar formatting, `html.escape`, the HTML templates, and the loop that turns the backers into `<img>` tags.
- The reflective `init` decoders of `CurrencyAmount`, `Pledger`, `Pledge` and `ListPledges`. The pledges are given as values.
- File I/O: the `open`, `read`, `seek(0)` and `write`, including the missing truncate in ads/script.py. The text read is an input, and the text that would be written is the output.
- `argparse`, environment variables, tokens, `exit(1)` and every `print`.
- `random.choice`: the ids come from the parameter `ids`. That a generated id is eight lowercase letters is not stated, because nothing in the loop depends on it.
- `int(...)` on `limit`, `height` and `width`: its failure is folded into the renderer's failure.
- Backers.Deduplicate: `existing.amount` is updated on the stored object in place. The model replaces the entry by an updated value, which is the same because no other reference to that object exists.
- Backers.Dedup: a `None` avatar URL is not modelled, because the dataclass declares the field as `str`.
- Engine.ExpansionIsStable: idempotence is proved for one marker just expanded, not for a whole file. It needs the same content from the renderer, no space, `=` or `-->` in any key or value, no newline in the id, and no end tag inside the content. Without these the code is not idempotent. For example, `<!-- POLAR type=x\n-->` is first written as `<!-- POLAR type=x\n--> id=<a> -->`, then two newlines, then `<!-- POLAR-END id=<a> -->`. On a second run, `find("-->")` stops inside the value `x\n-->`, so a new id is drawn and the old end tag is left behind. The scan then reaches `<!-- POLAR-END …` and raises on the word `POLAR-END`.
- Ads.MissingBenefitSkipped: a skipped marker that already has an end tag from an earlier run leaves that end tag in place. The scan then reaches it and raises on the word `POLAR-END`. The model has this behaviour but states no lemma about it.
