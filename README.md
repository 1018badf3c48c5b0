# titlesCreator poster bot — Dafny model of its decision logic

The bot turns a game title typed into a Telegram chat into a 1080×1920 portrait
poster. It asks the IGDB catalog for up to ten records, picks one
(`pick_main_game`), downloads that record's cover, and composes a blurred,
stretched copy of the cover with a sharp, height-constrained copy centred on
top (`make_tiktok_cover`). It then saves the poster under a sanitised file
name and replies with a caption (`game_handler`).

This project models the three parts of `bot.py` that make decisions:

- `resolver.dfy` (module `Resolver`): catalog records as `Candidate(name, cover)`.
  The `for` loop of `pick_main_game` is `ScanFrom`; its `min(..., key=len)` is
  `ShortestFrom`, a left fold that replaces the running minimum only on a
  strictly shorter name, as CPython's `min` does. `search_game` after its HTTP
  call is `SearchGame` over an abstract `Response(status, results)`.
- `composer.dfy` (module `Composer`): images are their dimensions. Resize gives
  the requested size. Blur and paste keep the background's size. The pixels a
  paste overwrites are a clipped rectangle (`PasteRegion`). `CoverLayout` is the
  integer layout arithmetic and `MakeTiktokCover` the whole composition.
- `handler.dfy` (module `Handler`): the give-up test, the file name
  (`SanitizeFilename`, `PosterPath`), the caption, and `GameHandler`. The
  handler is a function from the stripped query, the catalog response and the
  downloaded image to the ordered list of its outward effects: answers,
  download, save, photo reply.
- `wrappers.dfy` (module `Wrappers`): `Option`, which stands for `None` and a missing `"cover"` key.

Two behaviours of the code are modelled as written:

- A failed lookup and a record without artwork get the same "cover not found"
  reply (`bot.py:125-127`). The bot does not report them as two distinct failures.
- The caption starts with "✅ " and has the canvas size written as the literal
  `1080x1920` (`bot.py:141`).

## Model

| member | source | states |
|---|---|---|
| `Resolver.LowerChar` | bot.py:42-44 | an ASCII upper-case letter becomes its lower-case letter; every other character is unchanged |
| `Resolver.Matches` | bot.py:44 | the loop's test: the record's lower-cased name equals the lower-cased query |
| `Resolver.Lower` | bot.py:42-44 | lower-casing keeps the length, maps each character on its own, and leaves no upper-case ASCII letter |
| `Resolver.ScanFrom` | bot.py:43-45 | the loop returns the first position from `i` whose lower-cased name equals the lower-cased query, and falls through only when no later position matches |
| `Resolver.ShortestFrom` | bot.py:46 | `min` by name length gives a position with a shortest name, and every earlier record's name is strictly longer (first seen wins a tie) |
| `Resolver.PickIndex` | bot.py:41-46 | for a non-empty list, the chosen position is the first exact match when one exists, and otherwise the first shortest name |
| `Resolver.PickMainGame` | bot.py:41-46 | the returned record is an element of the list, and sits at a position satisfying that choice rule |
| `Resolver.PickIsUnique` | bot.py:41-46 | the choice rule singles out one position, so the contract of `PickIndex` fixes its result |
| `Resolver.PickPrefersExactMatch` | bot.py:42-45 | if any record matches, the returned record matches and no earlier record does |
| `Resolver.PickFallsBackToShortest` | bot.py:46 | if nothing matches, the returned name is no longer than any other, and no earlier record has a name that short |
| `Resolver.SearchGame` | bot.py:64-71 | the result is `None` exactly when the status is not 200 or the list is empty; otherwise it is `pick_main_game` of the list, which is then non-empty, and the record comes from the list |
| `Resolver.ExampleExactMatch` | bot.py:41-45 | with "Doom" and "DOOM Eternal", the query "doom" picks "Doom" |
| `Resolver.ExampleShortestName` | bot.py:46 | with "Grand Theft Auto V" and "GTA V" and no exact match, "GTA V" is picked |
| `Resolver.ExampleTieKeepsFirst` | bot.py:46 | of the equally long "Abc" and "Xyz", the first listed is picked |
| `Resolver.ExampleEmptyAnswer` | bot.py:67-69 | an empty catalog answer yields `None`, not an error |
| `Composer.Resize` | bot.py:93 | a resize to a width and height of at least 1 yields exactly that size; a smaller size is refused, as PIL raises for it |
| `Composer.Blur` | bot.py:87 | blurring keeps the image's size |
| `Composer.Paste` | bot.py:98 | pasting keeps the background's size |
| `Composer.PasteRegion` | bot.py:98 | the overwritten pixels lie inside the background, and a pixel is overwritten iff it lies in both the background and the shifted foreground |
| `Composer.CoverLayout` | bot.py:89-96 | foreground height 1440 and y offset 240; width is the floor of 1440·w/h; x is the floor of (1080 − width)/2 |
| `Composer.Composable` | bot.py:91-93 | the sources the function completes on: positive size and a foreground width of at least 1, i.e. 1440·w ≥ h |
| `Composer.MakeTiktokCover` | bot.py:85-99 | the poster is exactly 1080×1920 for every source it completes on; for the others the program raises |
| `Composer.ForegroundRegion` | bot.py:90-98 | the sharp foreground shows on rows 240 to 1680, from column max(0, x) to min(1080, x + width) |
| `Composer.WidthMonotoneInAspect` | bot.py:89-91 | a source with a larger or equal aspect ratio w/h gets a foreground at least as wide |
| `Composer.MarginsBalanced` | bot.py:95 | the right margin equals the left margin or exceeds it by one, and they are equal iff the foreground width is even |
| `Composer.NegativeOffsetIffWide` | bot.py:91-95 | x is negative iff the foreground is wider than 1080, which holds iff 1440·w ≥ 1081·h |
| `Composer.SquareSource` | bot.py:89-96 | a square source gives a 1440×1440 foreground at (−180, 240) |
| `Composer.NarrowForegroundShownWhole` | bot.py:93-98 | a foreground no wider than the canvas is shown whole at its offset |
| `Composer.WideForegroundSpansWidth` | bot.py:93-98 | a wider foreground covers the full canvas width, and the columns it loses left and right differ by at most one |
| `Composer.EmptyForegroundIffVeryTall` | bot.py:91-93 | the foreground width is 0 iff the source is more than 1440 times as tall as it is wide, iff the source is not composable |
| `Handler.RemoveChar` | bot.py:134 | `replace(c, "")` leaves no `c` and does not lengthen the string |
| `Handler.RemoveCharCounts` | bot.py:134 | removing `c` keeps the count of every other character |
| `Handler.SanitizeFilename` | bot.py:134 | the file name has no `:` and no `/`, and keeps the count of every other character of the name |
| `Handler.SanitizeKeepsOrder` | bot.py:134 | the two `replace` passes equal a single left-to-right filter of the allowed characters, so those characters keep their order |
| `Handler.RemoveCharAbsent` | bot.py:134 | a string without `c` is unchanged by removing `c` |
| `Handler.SanitizeIdempotent` | bot.py:134 | sanitising twice is the same as sanitising once |
| `Handler.PosterPath` | bot.py:134-135 | the path is `covers/` + the sanitised name + `.jpg`, and its only `/` is the one after `covers` |
| `Handler.Caption` | bot.py:141 | the caption is "✅ ", then the unsanitised name, then "\n1080x1920" |
| `Handler.CaptionRoundTrip` | bot.py:141 | the name can be read back from its caption |
| `Handler.CaptionNamesCanvas` | bot.py:141 | the literal `1080x1920` in the caption is the decimal form of the canvas width and height |
| `Handler.GivesUp` | bot.py:125 | true exactly when no record was found or the record has no cover |
| `Handler.GivesUpExactly` | bot.py:64-71 | the handler gives up iff the status is not 200, the answer is empty, or the chosen record has no cover |
| `Handler.GameHandler` | bot.py:121-142 | the handler first answers "searching". With no record or no cover it answers "cover not found" and does nothing else. Otherwise it downloads the cover. If the image cannot be composed it stops there, as the program raises; else it saves a 1080×1920 poster at the sanitised path and replies with that file and the caption |
| `Handler.ExampleVeryTallCover` | bot.py:129-139 | a 1×2000 cover ends the handler right after the download: no file is saved and no photo is sent |
| `Handler.NoMatchAndNoArtworkAlike` | bot.py:125-127 | a failed catalog request and a found record without a cover get the same effects |
| `Handler.ExampleSoma` | bot.py:119-142 | the query "Soma" with a single record "SOMA" that has cover `co1` saves `covers/SOMA.jpg` at 1080×1920, with caption "✅ SOMA\n1080x1920" |

## Left out

- The aiogram front-end (`start`, the dispatcher, `main`, the event loop): asynchronous chat I/O. `answer` and `answer_photo` appear only as `Effect` values.
- `message.text.strip()` (bot.py:119): the handler takes the already stripped text.
- The IGDB request (URL, headers, query body with `limit 10`) and `download_image`: network I/O. The response is an abstract status plus decoded list. The downloaded image is a parameter of `GameHandler`.
- A download that fails (`raise_for_status`) escapes the handler as an exception and is not modelled.
- A status-200 body that is falsy but not a list (`null`, `{}`, `0`, `""`, `false`) makes `search_game` return `None`, just as the empty list does. `Response(200, [])` covers it. A non-JSON body or a truthy non-list body raises and is not modelled.
- Loading `.env`, the `BOT_TOKEN` check and `os.makedirs`: process configuration and filesystem.
- JPEG encoding and writing in `poster.save`: it is a `Save` effect that carries the poster's dimensions.
- Pixel contents of PIL's resize, Gaussian blur and paste. Blur is floating-point work done in a foreign library. Only dimensions and the overwritten rectangle are modelled.
- Composer.MakeTiktokCover: it requires `Composable`, which excludes sources more than 1440 times as tall as they are wide. The program raises on those at the zero-width resize (bot.py:93), so the code does not keep an unconditional 1080×1920 promise for every source of positive size. `Handler.ExampleVeryTallCover` shows a 1×2000 cover.
- Composer.CoverLayout: `img.width / img.height` and `new_h * ratio` are floats in the source. The model computes `(1440 * w) / h` with exact integers, so a source whose exact quotient sits on an integer boundary may differ by one pixel from the float result.
- The `ValueError` of a zero-width resize is modelled only as the handler's effects stopping after `Download`. The error's propagation through aiogram is not modelled.
- Resolver.Lower: Python's `str.lower()` is Unicode-aware. The model lower-cases ASCII letters only.
- Resolver.PickMainGame: it requires a non-empty list, because `min` raises on an empty one. `SearchGame` is its only caller and meets the requirement.
- Handler.GameHandler: it requires the downloaded image to have positive dimensions, as any decoded JPEG has. It asks this even on the paths where nothing is downloaded.
