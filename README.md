# PlantNet identification bot — Dafny model

The bot watches a Lemmy community over a websocket. For each newly created
post whose url points at an image hosted by the instance (`pictrs`), it asks
PlantNet to identify the plant and renders a Markdown summary comment. It
keeps the ids of the posts it has already dealt with in `processed.bin`, so
that no post is handled twice.

This project models the two parts of `plantidbot.py` that hold logic:

- **The dedup step of `main_loop`** (module `EventLoop`). Class `Bot` holds
  the `processed` list and the dedup file. `Bot.Step` is one iteration of the
  receive loop:
  - an update whose `op` is not `CreatePost` is ignored;
  - a post id already in `processed` is ignored;
  - otherwise the post handler runs, then the id is appended and the whole
    list is written back to the file, whatever the handler did.

  `Bot.Listen` is the `while True` loop over the updates of one connection.
  The pure functions `Next`, `Replay`, `Handled` and `Emissions` specify both
  methods. The lemmas about them show that `processed` only grows, that it
  grows by pairwise distinct new ids, and that at most one comment is printed
  per post id. The `Bot` is built once from the file, before any connection,
  so a reconnect (a new `Listen` on the same `Bot`) never resets it, and the
  file always loads back to the in-memory list. `EmissionsConcat` joins two
  successive runs into one, so the one-comment-per-id property holds across
  reconnects too.
- **The post handler `handle_post`** (module `PostHandler`). `Comment` is the
  specification and `HandlePost` the method, with `RenderTable` as its
  `for` loop. It returns no comment when the url is missing, when the url
  does not contain `pictrs`, or when PlantNet's reply carries `statusCode`.
  Otherwise it renders the fixed template with `bestMatch` and a table of the
  first five results, in the order received. Each row is
  `|common|scientific|score %|`, with `/` when there is no common name.
- **The dedup file** (module `DedupStore`). An empty file loads as the empty
  list, and a dumped list loads back unchanged.

`Text` gives Python's `sub in s` (`IsSubstring`) and `s.split(d)` (`Split`).
`Split` is used to read a rendered table back as lines and a row back as
Markdown cells.

The decoded PlantNet reply is an input. `HandlePost` takes it as a
parameter, `Step` takes the reply for this update's url, and `Listen` takes
one reply per update. When the handler returns before asking PlantNet, the
reply is ignored.

Details that follow the code exactly:

- The image filter is a substring test for `pictrs` anywhere in the url. It
  is not a check against a list of file extensions.
- The score is printed as the raw text of the number followed by ` %`. It is
  not scaled to a percentage with two decimals.
- The handler prints its comment. The call that would post it is commented
  out, so the model returns the text.

## Model

| member | source | states |
|---|---|---|
| `Text.IsSubstring` | plantidbot.py:61 | true exactly when `sub` occurs contiguously somewhere in `s` (Python's `in` on strings) |
| `PostHandler.CommonName` | plantidbot.py:75 | the name shown is `commonNames[0]` when the list is non-empty, and `/` when it is empty |
| `PostHandler.Top` | plantidbot.py:74 | `results[:5]` has `min(5, |results|)` entries and entry `i` is `results[i]` (no re-sorting) |
| `PostHandler.Comment` | plantidbot.py:56-92 | no comment exactly when the url is None, does not contain `pictrs`, or the reply carries `statusCode`; a comment implies the url passed the filter |
| `PostHandler.RenderTable` | plantidbot.py:73-79 | the loop's table is the concatenation of the rows for `results[:5]`, each row followed by a line break |
| `PostHandler.HandlePost` | plantidbot.py:56-95 | the text the handler passes to `print` (or `None` on an early return) is exactly `Comment(url, response)` |
| `PostHandler.RowsLines` | plantidbot.py:79 | split at line breaks, the row text gives row `i` for candidate `i`, then one empty trailing part |
| `PostHandler.TableLines` | plantidbot.py:73-79 | the table has exactly `min(5, |results|)` lines, line `i` rendered from `results[i]`, in the given order |
| `PostHandler.RowCells` | plantidbot.py:75-79 | read as Markdown cells, a row is `common name or /`, `scientificNameWithoutAuthor`, `score %` with the score text unchanged |
| `PostHandler.CommentShowsMatchAndTable` | plantidbot.py:81-92 | a produced comment contains `Most likely match: **<bestMatch>**`, then the fixed table header rows, then the table |
| `DedupStore.LoadProcessed` | plantidbot.py:142-149 | an empty file loads as `[]`, a pickled list as that list, and unpicklable bytes fail |
| `DedupStore.DumpProcessed` | plantidbot.py:152-154 | the written file loads back to the same list and is never empty |
| `EventLoop.Emitted` | plantidbot.py:37-43 | a comment is only printed for a `CreatePost` update whose id is not yet processed |
| `EventLoop.ReplayAppendsHandled` | plantidbot.py:40-46 | after any run, `processed` is the old list followed by the handled ids, which are pairwise distinct and new |
| `EventLoop.HandledExactlyNewPosts` | plantidbot.py:37-45 | an id is handled exactly when it was not processed before and some `CreatePost` update carries it |
| `EventLoop.ReplayKeepsNoDuplicates` | plantidbot.py:40-46 | a duplicate-free `processed` stays duplicate-free |
| `EventLoop.AtMostOneCommentPerId` | plantidbot.py:34-46 | over any run, no two printed comments are for the same post id, and none is for an id processed before the run |
| `EventLoop.EmissionsConcat` | plantidbot.py:34-46 | dealing with one run of updates and then another prints what the two runs print, one after the other, the second starting from the first's `processed` |
| `EventLoop.AtMostOneCommentAcrossConnections` | plantidbot.py:24-46 | across two connections served by the same bot, no post id gets a comment in both |
| `EventLoop.Bot.constructor` | plantidbot.py:22-24 | the bot starts with the list loaded from the file, before any connection |
| `EventLoop.Bot.Step` | plantidbot.py:35-46 | non-`CreatePost` and already-processed updates change nothing and print nothing; a new id is handled, appended and dumped whatever the handler printed |
| `EventLoop.Bot.Listen` | plantidbot.py:34-46 | after a run of updates, `processed` and the printed comments are those of `Replay` and `Emissions`, and the file loads back to `processed` |

## Left out

- The websocket connection, `login`, `join` and the reconnect loop with its 10-second sleep (plantidbot.py:27-32, 48-50, 101-121) are network plumbing. The bot is built once before them, so a reconnect does not touch `processed`.
- `comment` (plantidbot.py:124-136) sends JSON over the socket. The handler never calls it.
- The PlantNet HTTP request and its `.json()` decoding (plantidbot.py:64-67) are a foreign call. Its decoded reply is an input datatype.
- `EventLoop.Bot.Step` appends the id for every new `CreatePost`, but the source does not always reach the append. A failing PlantNet request, a body that is not JSON, or a reply without `results` or `bestMatch` raises inside `handle_post` (plantidbot.py:64-67, 74, 84). `main_loop` catches only `websockets.ConnectionClosedError` (plantidbot.py:48), so the process ends and the id is not appended.
- JSON decoding of updates (plantidbot.py:35, 40, 57) is left out. An update is a datatype holding `op`, the post id and the url. A message with a missing key is not modelled.
- Python's float formatting of `score` is left out. The score is kept as the text the f-string prints.
- `pickle` serialisation and file I/O (plantidbot.py:142-154) are library and I/O calls. The file is an abstract value: empty, a pickled list, or bytes that do not unpickle. For the last case the process stops before the loop, so the bot is only built for a loadable file. A missing `processed.bin` also makes `open` raise and stop the process (plantidbot.py:23, 143). A pickle that holds something other than a list of ints is not among the cases.
- `print` (plantidbot.py:95), `asyncio.run` and the configuration constants (plantidbot.py:11-15) are left out.
