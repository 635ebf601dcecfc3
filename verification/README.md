# Japanese news briefing: a Dafny model of the filter and text cleanup

The script `japanese_news.py` collects news entries from several RSS
searches. It drops entries from excluded outlets and entries with repeated
links, ranks major Japanese outlets first and keeps ten entries. It then
strips HTML tags from each summary, cuts the summary to 150 characters,
translates titles and summaries, and posts one digest message to a chat.

This project models the logic of that script:

- `Feed` (`feed.dfy`): a feed entry (title, summary, link, source title),
  the fixed exclusion list and major-outlet list, and the exclusion and
  ranking tests on the lowercased source name and link.
- `Fetch` (`fetch.dfy`): the part of `fetch_japanese_news` after the feeds
  are merged. `FetchNews` is the imperative scan, with the `seen_links` set,
  followed by the sort and the slice. It is proved equal to the functional
  specification `TopNews`. The lemmas prove the promised properties of
  `TopNews`: at most ten entries, exactly as many as the distinct accepted
  links up to ten, distinct lowercased links, no excluded entry, each entry
  the earliest eligible one for its link, major outlets first, and input
  order kept within each rank.
- `Ranking` (`ranking.dfy`): the in-place `list.sort` on a 0/1 key. It is
  modelled as "rank-0 entries in order, then rank-1 entries in order". It is
  proved to be a permutation that meets the specification of a stable sort
  (`IsStableSortOf`), and to be the only sequence that meets it.
- `Html` (`html.dfy`): `clean_html`, that is `re.sub('<.*?>', '', s)`. At a
  `<`, the text up to the nearest `>` is removed, provided no line break
  comes first (`.` does not match `\n`). Otherwise the `<` is kept. Proved:
  the result is never longer than the input, input without a tag is
  returned unchanged, the result holds no tag, and cleaning is idempotent.
- `Briefing` (`briefing.dfy`): the `translate_text` guards, with the
  translation service as a function parameter `Backend`. Also the
  `[:150]` summary cut, the per-entry loop of `main`, and `main`'s early
  return when no entry survives.
- `Text` (`text.dfy`) and `Wrappers` (`wrappers.dfy`): lowercasing, the
  substring test, and the Option/Result types.

The cleanup pattern `<.*?>` is lazy: it stops at the first `>`. It is not
greedy, and the model follows the pattern as written.

## Model

| member | source | states |
|---|---|---|
| `Text.Lower` | japanese_news.py:65-66 | `.lower()` keeps the length, lowercases each character and leaves no capital letter |
| `Text.ContainsIff` | japanese_news.py:67 | the substring test `ex in s` holds exactly when `ex` occurs at some position of `s` |
| `Feed.ExcludedIff` | japanese_news.py:67-70 | an entry is excluded exactly when some exclusion-list member occurs in its lowercased source name or link, and major exactly when some major-outlet marker occurs in its source name |
| `Feed.PriorityOf` | japanese_news.py:70-71 | the rank is 0 exactly when the source name contains one of nhk, yahoo, nikkei, asahi, yomiuri |
| `Feed.YonhapExcluded` | japanese_news.py:67-68 | an entry whose lowercased source name contains "yonhap" is excluded, whatever its link |
| `Feed.YonhapNewsExcluded` | japanese_news.py:23 | an entry whose source is "Yonhap News" is excluded, whatever its title, summary and link |
| `Html.TagClose` | japanese_news.py:26 | finds the nearest `>` reachable without crossing a line break, or reports that every `>` lies behind one |
| `Html.CleanHtml` | japanese_news.py:25-27 | `clean_html` never lengthens its input |
| `Html.CleanHtmlNoOpen` | japanese_news.py:25-27 | a string containing no `<` is returned unchanged |
| `Html.CleanHtmlTagFree` | japanese_news.py:25-27 | a string in which the pattern matches nowhere is returned unchanged |
| `Html.UnclosedStaysUnclosed` | japanese_news.py:26-27 | a `<` with no `>` before the next line break still has none after cleaning what follows it |
| `Html.CleanHtmlPlainPrefix` | japanese_news.py:25-27 | text with no `<` is kept as it is, and cleaning goes on after it |
| `Html.CleanHtmlDropsTag` | japanese_news.py:25-27 | a `<`, the text up to the nearest `>` (with no line break in it) and that `>` are deleted; the text before is kept and the text after is cleaned |
| `Html.CleanHtmlLine` | japanese_news.py:25-27 | text with no `>` up to a line break is kept, each `<` in it included, together with the line break |
| `Html.CleanHtmlKeepsUnclosed` | japanese_news.py:25-27 | a `<` with no `>` before the next line break is kept with the text up to that break |
| `Html.CleanHtmlKeepsUnclosedAtEnd` | japanese_news.py:25-27 | a `<` with no `>` after it is kept with everything after it |
| `Html.CleanHtmlLeavesNoTag` | japanese_news.py:25-27 | the pattern `<.*?>` matches nowhere in the result |
| `Html.CleanHtmlIdempotent` | japanese_news.py:25-27 | cleaning twice gives the same text as cleaning once |
| `Ranking.Tier` | japanese_news.py:74 | a tier holds only entries of its rank, all taken from the input, and is never longer than the input |
| `Ranking.SortByPriorityIsStableSort` | japanese_news.py:74 | the sort orders by rank, keeps each rank's entries in input order, and is a permutation of its input |
| `Ranking.StableSortIsUnique` | japanese_news.py:74 | any sequence ordered by rank that keeps each rank's input order equals the sort's result |
| `Ranking.TierKeepsOrder` | japanese_news.py:74 | any key that increases strictly along the input increases strictly along each tier |
| `Fetch.Position` | japanese_news.py:64 | the index of the first occurrence of an entry in the merged input, or the length when absent |
| `Fetch.FetchNews` | japanese_news.py:62-75 | the scan with `seen_links`, the sort and the slice return exactly `TopNews` of the merged entries |
| `Fetch.SurvivorsSound` | japanese_news.py:64-71 | every accepted entry comes from the input, is not excluded, and carries its own rank |
| `Fetch.SurvivorsLinks` | japanese_news.py:63-72 | the links taken are exactly the lowercased links of the entries that are not excluded, one accepted entry per link |
| `Fetch.SurvivorsStep` | japanese_news.py:67-72 | an entry is appended exactly when it is not excluded and no earlier non-excluded entry has its lowercased link |
| `Fetch.SurvivorsUniqueLinks` | japanese_news.py:69-72 | no two accepted entries share a lowercased link |
| `Fetch.SurvivorsEarliest` | japanese_news.py:64-72 | each accepted entry is the first non-excluded input entry with its lowercased link |
| `Fetch.SurvivorsInOrder` | japanese_news.py:64-71 | accepted entries keep the order of their first occurrence in the input |
| `Fetch.SortedInOrder` | japanese_news.py:74 | after the sort, entries of one rank are in input order |
| `Fetch.SortedSurvivors` | japanese_news.py:74 | the sorted list is a permutation of the accepted entries, ordered by rank, with distinct links |
| `Fetch.TopNewsLength` | japanese_news.py:75 | the result has at most 10 entries: exactly min(10, number of distinct links among non-excluded entries) |
| `Fetch.TopNewsIsPrefix` | japanese_news.py:74-75 | the result is the entries of the first min(10, n) sorted accepted entries |
| `Fetch.TopNewsUniqueLinks` | japanese_news.py:63-72 | no two result entries have equal lowercased links |
| `Fetch.TopNewsNotExcluded` | japanese_news.py:67-68 | no member of the exclusion list occurs in a result entry's lowercased source name or lowercased link |
| `Fetch.TopNewsEarliest` | japanese_news.py:64-72 | each result entry occurs in the input and is the earliest non-excluded input entry with its lowercased link |
| `Fetch.TopNewsMajorFirst` | japanese_news.py:70-74 | every major-outlet entry precedes every other entry |
| `Fetch.TopNewsStable` | japanese_news.py:74 | two result entries of the same rank appear in input order |
| `Fetch.TopNewsComplete` | japanese_news.py:67-75 | with fewer than 10 entries, the result holds the link of every non-excluded input entry |
| `Fetch.TopNewsMajorPreferred` | japanese_news.py:70-75 | if the result holds a non-major entry, it holds every accepted major entry |
| `Fetch.ExcludedTakesNoLink` | japanese_news.py:67-72 | an entry dropped for exclusion does not take its link; a later entry with that link is kept |
| `Fetch.DuplicateLinkFirstWins` | japanese_news.py:66-72 | of two entries whose links differ only in letter case, only the first is kept |
| `Briefing.TranslateText` | japanese_news.py:29-37 | empty text or no credential returns the text unchanged; a service failure returns it unchanged; otherwise the result is the service's translation |
| `Briefing.Summary` | japanese_news.py:86 | the summary is a prefix of the cleaned summary, of length min(150, its length) |
| `Briefing.PrepareItemFallback` | japanese_news.py:85-86 | a title the service fails on is sent untranslated; with no credential, title and cleaned summary of at most 150 characters go out as they are |
| `Briefing.PrepareItems` | japanese_news.py:84-86 | one block per selected entry, in order, each with the translated title and translated shortened summary |
| `Briefing.BuildDigest` | japanese_news.py:78-86 | no digest exactly when every entry is excluded; otherwise one prepared block per entry of `TopNews` |

## Left out

- Fetching the RSS feeds (`feedparser.parse`) and building the query URLs with `quote`: network I/O and library calls. The model starts from the merged entry sequence.
- Entries without a `link` or `source` attribute (in `fetch_japanese_news`), or without a `title` or `summary` attribute (in `main`): the script raises an `AttributeError` there. The model assumes every entry has all four, and treats a missing source title as the empty string.
- The translation service client and its call: it is a foreign service, modelled only as the `Backend` function parameter. Printing the error message on failure is not modelled.
- `send_telegram` and its HTTP POST: network I/O.
- Reading the credentials from environment variables: the credential is a parameter (`Option<string>`). `datetime.now()` is left out because it reads the clock.
- Building the message text (header, `html.escape`, links, the web-translation URL): formatting glue over library calls.
- Briefing.PrepareItems: the translation service is a pure function of credential, text and target language, so the same text gets the same outcome on every call. The script calls the service afresh each time. A quota that runs out partway through the digest, or a failure that happens once for a text and not again, is not modelled. The per-entry equation in this contract relies on that determinism.
- Text.Lower: models ASCII case folding only. Python's `str.lower` also lowercases non-ASCII letters. The fixed lists are ASCII, but a non-ASCII capital in a source name or link is left as it is.
- Ranking.SortByPriority: models the result of the library `list.sort` (Timsort), not its algorithm or its in-place update.
