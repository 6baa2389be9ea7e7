# tg-word-pusher: word selection and digest message

tg-word-pusher collects the headlines of the CNN front page. From them it
picks up to ten long English words (nine or more letters), translates each
into Traditional Chinese and posts a numbered vocabulary digest to a Telegram
chat. This project models the two parts of `main.py` that compute something,
and proves properties of each:

- **Word selection** (`get_cnn_data`, the loop after the page has been
  parsed). The program goes through the headlines in order. It lower-cases
  each headline and finds its words with `re.findall(r'\b[a-z]{9,}\b', ...)`.
  Each word not used before is translated and appended as a
  capitalized word, its translation and the headline. The scan stops once
  `limit` results exist. `Selection.SelectWords` keeps the source's nested
  loops, its `used_words` set and its `len(results) < limit` guard and
  `break`. Its result is proved equal to the independent definition
  `Selected`: the first `limit` distinct words, in order of their first occurrence.
- **Digest message** (`send_to_telegram` up to the text it posts). Empty
  input means nothing is sent. Otherwise the message is a fixed header
  followed by one numbered block per item. `Digest.ComposeMessage` keeps the
  source's `+=` loop, proved against the function `Blocks`.
- **Program entry** (`__main__`). `Digest.Run` selects with limit 10 and then
  builds the message.

Modules:
- `Text` (text.dfy): ASCII `lower()`, `capitalize()`, the `\w` class and `str(n)`.
- `Tokens` (tokens.dfy): the regular expression.
- `Selection` (selection.dfy): the selection loop and its reference definition.
- `Digest` (digest.dfy): the message and the entry point.

The translator is a parameter `translate: string -> string`. The list of
words handed to it is returned as `requested`. What is proved is a fact
about that list. It stands for the real calls because `SelectWords` appends
each word to `requested` right after the one call `translate(word)`, and
nowhere else.

The regular expression is modelled as follows. Letters are word characters,
so a match of the greedy `[a-z]{9,}` between two `\b` is exactly a maximal
run of word characters (`[A-Za-z0-9_]`) that consists of `a`-`z` only and is
at least nine long. `Tokens.FindAll` reports these runs left to right.
`Tokens.IsToken` states the pattern directly: a boundary on both sides,
nine or more lower-case letters. The two are proved to agree.

## Model

| member | source | states |
|---|---|---|
| Text.Lower | main.py:23 | `sentence.lower()`: same length, each character lower-cased on its own. Only upper-case ASCII letters change. |
| Text.Capitalize | main.py:27 | `word.capitalize()`. Its contract is in CapitalizeLowerWord: on a lower-case word it keeps the length, upper-cases the first letter only, and `Lower` undoes it. |
| Text.Decimal | main.py:35-36 | `str(i)` of the item number: non-empty decimal digits with no leading zero. DecimalRoundTrip shows it reads back as the number. |
| Tokens.FindAll | main.py:23 | `re.findall(r'\b[a-z]{9,}\b', ...)`. Its contract is in FindAllIsTokens, which says it returns exactly the matches of the pattern; SpansSound, SpansInOrder and SpansComplete cover the left-to-right order. |
| Selection.Enrich | main.py:26-27 | The dict appended for one word. Its contract is in EnrichedWord: the capitalized word, `translate` of the lower-case word, and the headline. |
| Selection.EnrichAll | main.py:27 | One result per selected word, in the same order. EnrichedWord states what each one holds. |
| Digest.Block | main.py:36 | The f-string block for one item. Its contract is in BlockNumber (it starts with the number, which reads back) and BlockFields (it contains the word, translation and headline). |
| Digest.Blocks | main.py:35-36 | The blocks of all items, numbered from `first`. Its contract is in BlocksSnoc and BlocksLayout: item `i` is the block numbered `i + 1`, in order. |
| Selection.SelectWords | main.py:18-30 | The results are the enriched `Selected(headlines, limit)`: the first `limit` distinct words in first-occurrence order, each capitalized, translated and paired with its headline. The translator is called once per appended result, for exactly the selected words, in order. |
| Selection.ScanHeadline | main.py:24-28 | One pass of the inner loop over a headline's matches. It takes the matches into account in order, and keeps results, translator calls and `used_words` equal to the first `limit` first occurrences seen so far. |
| Selection.Selected | main.py:25-29 | Never more than `limit` words; none when `limit <= 0`. |
| Selection.SelectedDistinct | main.py:25-28 | No word is selected twice, so no word is translated twice. |
| Selection.SelectedIsPrefix | main.py:25-29 | The selection is a prefix of the list of first occurrences: the limit only cuts it short. |
| Selection.FirstOccurrencesSpec | main.py:22-28 | `FirstOccurrences` lists the first occurrence of every word that occurs, each once, in the order of those first occurrences. |
| Selection.OccurrencesAreMatches | main.py:22-23 | A (word, headline) pair is scanned iff the headline is one of the inputs and the word is a match of the pattern in the lower-cased headline. |
| Selection.SelectedAreMatches | main.py:22-27 | Every selected word comes from one of the headlines. It is a match in its own lower-cased headline: nine or more letters `a`-`z` that occur there. |
| Selection.SelectedInFirstOccurrenceOrder | main.py:22-29 | The selection is in first-occurrence order, headline order first and then position. Each element is its word's first occurrence, and every word occurring earlier was selected before it. |
| Selection.SelectedComplete | main.py:22-29 | When fewer than `limit` words are selected, every word matched in any headline is among them. |
| Selection.SelectedEmpty | main.py:22-29 | Nothing is selected iff `limit <= 0` or no headline holds a match. |
| Selection.EnrichedWord | main.py:26-27 | The stored word is `capitalize()` of a lower-case match of at least nine letters. Its first letter is upper-cased, the remaining letters are unchanged, and `lower()` gives the match back. The translation is the translator's result for the lower-case word, and the context is the headline. |
| Tokens.FindAllIsTokens | main.py:23 | `findall` returns a word iff it is a match of `\b[a-z]{9,}\b`. |
| Tokens.TokenShape | main.py:23 | A match is nine or more letters `a`-`z` occurring in the text. |
| Tokens.SpansSound | main.py:23 | Every span found from a position on is a match that starts at or after it. |
| Tokens.SpansInOrder | main.py:23 | Matches are reported left to right and do not overlap. |
| Tokens.SpansComplete | main.py:23 | Every match at or after a position is reported. |
| Text.CapitalizeLowerWord | main.py:27 | On a lower-case word, `capitalize()` keeps the length and upper-cases exactly the first letter, and `lower()` undoes it. |
| Text.DecimalRoundTrip | main.py:35-36 | The item number `str(i)` reads back as `i`. |
| Digest.ComposeMessage | main.py:33-36 | No text for no items. Otherwise the header followed by the blocks of the items, numbered from 1 in order. |
| Digest.BlocksSnoc | main.py:35-36 | One more item adds its block, numbered after the others, at the end. |
| Digest.BlocksLayout | main.py:35-36 | The item at position `i` is the block numbered `i + 1`, between the blocks before and after it. |
| Digest.BlockNumber | main.py:36 | A block starts with its number, and the leading digits give the number back. |
| Digest.BlockFields | main.py:36 | A block contains the item's word, its translation and its headline. |
| Digest.Run | main.py:41-43 | Nothing is sent iff no headline holds a match. Otherwise the message is the digest of the first ten selected words. |

## Left out

- Fetching the CNN page and extracting headline text with BeautifulSoup,
  including `.strip()` (main.py:12-16); the headlines are an input.
- `GoogleTranslator` (main.py:4, 20, 26): a network service, modelled as an
  arbitrary function whose calls are recorded. A failing call, which ends
  the run, is not modelled.
- The Telegram POST and the environment variables `BOT_TOKEN` and `CHAT_ID`
  (main.py:8-9, 38-39); the model stops at the message text.
- Tokens.FindAll: `lower()` and `\w` are modelled on ASCII only. A
  non-ASCII character is treated as a non-word character that `lower()`
  leaves alone. Python treats letters such as `é` as word characters, so a
  run like `xxxxxxxxxé` yields no match in Python but a match in the model.
  Python's `lower()` also changes non-ASCII letters, some of them into
  several characters.
- The inner loop of `get_cnn_data` is the separate method
  `Selection.ScanHeadline`, so its loop invariant stays small. The `break`
  after it is kept.
- `enumerate(items, 1)` is written as an index loop from 0 with the number
  `k + 1`.
