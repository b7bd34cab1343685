# AIGC Link news bot, modelled in Dafny

The bot is one Python script, `news_crawler.py`. It fetches the AIGC Link
news page and pulls up to five title/link pairs out of it. It then posts
each pair to a Feishu (Lark) webhook as an interactive card. This project
models two parts of the script and proves what they promise:

- **Extraction** (`parse_news`, module `Extractor`). Six CSS selectors are
  tried in a fixed order. The first selector that matches anything is the
  only one used. At most its first five nodes are read. Each node gives a
  title and a link, through the same `or`-chains as the script. Items whose
  stripped title has five characters or fewer, or whose link is empty, are
  dropped. Root-relative links get `https://d.aigclink.ai` put in front.
  When no item survives, two fixed placeholder items are returned.
- **Delivery accounting** (`send_to_feishu`, module `Notifier`). A missing
  or empty webhook URL returns `False` and nothing is posted. Otherwise
  every item is posted once, in order, and only status 200 is counted.
- `main` (module `Crawler`) only chains the two together.

`Text` models Python's `str.strip()`, using Python's set of whitespace
characters, and `str.startswith`. `Wrappers` holds `Option`.

The HTML parser is not modelled. A parsed page is a `Document`: the list of
nodes each selector matches, in selector order. A node records:

- whether it is an `a` element;
- its own text and `href` (with `""` when absent);
- the first nested `a`, `h2` and `h3`, if any;
- whether reading it raises.

The network is not modelled either. The k-th POST gets the k-th element
of `responses`, either a status code or an exception.

`ParseNews`, `ReadNodes` and `SendToFeishu` keep the script's loops,
including the unconditional `break` after the first matching selector.
Each is proved equal to a declarative definition (`Parse`, `Harvest`,
`CountDelivered`), and the lemmas state the script's guarantees about those
definitions.

Behaviour of the script that is easy to miss, and that the model keeps:

- `get_website_content` calls `raise_for_status`, which fails only on 4xx
  and 5xx replies. The fetch is not part of this model; `Run` takes its
  result as given.
- `main` stops on an empty page as well as on a failed fetch, because it
  tests `if not html_content`. `Run` models both cases.
- Without a webhook, `send_to_feishu` returns the boolean `False`. This is
  modelled as the value `MissingWebhook`. An empty URL also counts as
  missing, because the script tests `if not webhook_url`.
- A selector that matches nodes, none of them valid, still stops the
  search, and the placeholders come out. This is shown by
  `ShortArticleSuppressesLaterSelector`.

## Model

| member | source | states |
|---|---|---|
| `Text.Strip` | news_crawler.py:55 | the stripped title has no whitespace (Python's `isspace` set) at either end and is no longer than the input |
| `Text.StripIsSlice` | news_crawler.py:55 | what `strip()` keeps is one contiguous slice of the text; everything before and after it is whitespace |
| `Text.StripIdempotent` | news_crawler.py:55 | stripping an already stripped title changes nothing |
| `Text.StartsWith` | news_crawler.py:62 | `link.startswith('/')`: holds exactly when the link is at least as long as the prefix and agrees with it character by character |
| `Extractor.FirstPresent` | news_crawler.py:54 | Python's `x or y or ... or last` over optional elements: gives the first present candidate, wherever it stands, or `last` when none is present; the result is always `last` or one of the candidates |
| `Extractor.TitleSource` | news_crawler.py:50-55 | for an `a` node the title comes from the node itself; otherwise from the nested `a`, else `h2`, else `h3`, else the node itself |
| `Extractor.LinkSource` | news_crawler.py:50-57 | for an `a` node the link comes from the node's own `href`; otherwise from the nested `a`, else the node itself |
| `Extractor.Resolve` | news_crawler.py:62-63 | a link starting with `/` becomes `https://d.aigclink.ai` followed by the link, and any other link is kept; the original link is always the tail; no result starts with `/`; the result is empty exactly when the link is |
| `Extractor.ItemOf` | news_crawler.py:48-71 | a node yields an item exactly when it does not raise, its stripped title is longer than 5 characters and its link is non-empty; the item is that title and the resolved link, and it is valid |
| `Extractor.Cap` | news_crawler.py:47 | `elements[:5]`: the first min(5, n) nodes, in order |
| `Extractor.FirstMatching` | news_crawler.py:43-45 | finds the first selector with a non-empty match list; every earlier one matched nothing; none is found exactly when no selector matched |
| `Extractor.Harvest` | news_crawler.py:47-71 | reference definition of the inner loop: the items of the surviving nodes, one each, in node order (its properties are the `Harvest*` lemmas) |
| `Extractor.Parse` | news_crawler.py:43-82 | reference definition of `parse_news`: the harvest of the first five nodes of the first matching selector, or the two placeholders when that harvest is empty (its properties are the `Parse*` lemmas and `FirstMatchDecides`) |
| `Extractor.ParseNews` | news_crawler.py:20-82 | the selector loop, inner loop, unconditional `break` and fallback compute `Parse`: the harvest of the first matching selector's first five nodes, or the placeholders when that harvest is empty |
| `Extractor.ReadNodes` | news_crawler.py:47-71 | the inner loop appends exactly the items of the surviving nodes, in node order |
| `Extractor.HarvestAppend` | news_crawler.py:47-71 | harvesting two runs of nodes one after the other gives the two harvests concatenated, so relative order is kept |
| `Extractor.HarvestOne` | news_crawler.py:65-71 | one node yields one item if it survives and none if it raises or is filtered out |
| `Extractor.HarvestLength` | news_crawler.py:47-68 | a harvest has at most one item per node |
| `Extractor.HarvestSound` | news_crawler.py:59-68 | every harvested item is valid and is the item of one of the nodes |
| `Extractor.ParseLength` | news_crawler.py:43-80 | `parse_news` never returns an empty list and never more than 5 items |
| `Extractor.ParseValid` | news_crawler.py:59-80 | every returned item, placeholders included, has a stripped title longer than 5 characters and a non-empty link that does not start with `/` |
| `Extractor.NoMatchGivesPlaceholders` | news_crawler.py:74-80 | when no selector matches, the result is exactly the two placeholder items |
| `Extractor.FirstMatchDecides` | news_crawler.py:43-72 | two pages that agree up to and including the first matching selector give the same result, whatever the later selectors match |
| `Extractor.ParseComesFromChosen` | news_crawler.py:43-72 | a non-placeholder result is the harvest of the first five nodes of the first matching selector, and each item is the item of one of those nodes |
| `Extractor.ArticleScenario` | news_crawler.py:43-68 | `<article><h3><a href="/n/1">Breaking AI News Today</a></h3></article>` gives the one item with link `https://d.aigclink.ai/n/1` |
| `Extractor.ShortArticleSuppressesLaterSelector` | news_crawler.py:43-80 | an `article` with a too-short title blocks a later `h3 a` match that would have given a valid item, and the placeholders are returned |
| `Notifier.CardBody` | news_crawler.py:105 | the card body is `**`, the title, `**\n\n[阅读全文](`, the link and `)`, with the title and link at fixed offsets |
| `Notifier.CardBodyInjective` | news_crawler.py:105 | two items whose titles have the same length get the same card body only if they are the same item |
| `Notifier.WebhookConfigured` | news_crawler.py:86-89 | `if not webhook_url`: a webhook counts as configured only when the URL is present and non-empty |
| `Notifier.CountDelivered` | news_crawler.py:140-141 | reference definition of `success_count`: the number of post outcomes that are status 200 (its properties are the `CountDelivered*` lemmas) |
| `Notifier.CountDeliveredBounds` | news_crawler.py:140-147 | the success count is at most the number of posts; it equals it exactly when every post got 200, and is 0 exactly when none did |
| `Notifier.CountDeliveredAppend` | news_crawler.py:91-149 | the count over two runs of posts is the sum of their counts |
| `Notifier.SendToFeishu` | news_crawler.py:84-149 | with no webhook URL (absent or empty) it returns `False` and posts nothing; otherwise it posts every item's card body in order and returns the number of posts answered with 200, at most the number of items |
| `Crawler.PageFetched` | news_crawler.py:156-159 | `if not html_content`: the run goes on only when the page is present and non-empty |
| `Crawler.Run` | news_crawler.py:151-170 | an absent or empty page ends the run with nothing posted; otherwise 1 to 5 items are parsed and passed to delivery, and the "nothing to push" branch is never taken; without a webhook nothing is posted; with one, the posted bodies are the card bodies of the parsed items, in order, and the count is the number of 200 replies to them |

## Left out

- The HTTP GET in `get_website_content` (news_crawler.py:6-18): network I/O. `Run` takes its result, the page text or `None`, as input.
- The POST itself (news_crawler.py:133-138): network I/O. Each post's outcome is taken from `responses`.
- `SendToFeishu` requires at least as many responses as items. The script has no such limit; this only makes sure the stand-in for the network has an answer for every post.
- `Run` requires at least five responses, the most posts one run can make, for the same reason.
- BeautifulSoup parsing and CSS-selector matching (news_crawler.py:25-27, 44): foreign library. The match lists and the first nested `a`/`h2`/`h3` of each node are inputs.
- `TitleSource`: the anchor branch uses `get_text(strip=True)` and the other branch `.text.strip()`. Both are modelled as `Strip` of the node's text, and any difference between the two library calls is treated as part of the given text.
- Exceptions while reading a node (news_crawler.py:70-71) are an input flag on the node; what could raise inside the parser library is not modelled.
- The footer timestamp from `datetime.now()` (news_crawler.py:117): wall-clock time.
- The fixed structure of the card message and its JSON encoding (news_crawler.py:95-130, 136): constant data and a library call. Only the markdown body text is modelled.
- Reading `FEISHU_WEBHOOK_URL` from the environment (news_crawler.py:86): it is the `webhook` input.
- All console output, including the report line of `main` (news_crawler.py:46, 69, 71, 76, 88, 142-147, 153-170).
