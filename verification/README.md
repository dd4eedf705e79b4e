# ColoredManga extraction rules in Dafny

This project models the ColoredManga source plugin for the Paperback manga
reader. The plugin takes the HTML of a site page and builds the host's
records from it: a manga (titles, cover, status, covers), its chapter list,
the page list of one chapter, and search-result tiles. Fetching the page and
evaluating CSS selectors are done by the host, so they stay outside the
model. The model starts from what the selectors return. That is the trimmed
text and attribute values of the matched elements, in document order, with
`None` for an attribute that is absent. From there it states, and proves, the
plugin's decisions:

- **Status.** A loop goes over the status rows. A row whose heading
  lower-cases to `status` sets the status from its upper-cased content:
  ONGOING, COMPLETED or otherwise UNKNOWN. The last such row wins.
- **Covers.** The first `background-image:url(` is removed from the profile
  style. What comes before the first `)` is the cover. The array always gets
  exactly one element.
- **Chapter list, flat mode.** Item `i` of `n` gets the fallback number
  `n - i`.
- **Chapter list, volume mode.** Every chapter gets fallback number 0.
  Chapter `j` of volume `i` of `m` gets volume `m - i`, because the
  volume title's `/d+/` match never parses (see below).
- **Chapter fields.** Every chapter has an unknown language, and it has a
  release time exactly when its date text is non-empty.
- **Chapter numbers and ids.** A chapter's number is the first maximal run of
  ASCII digits in its link text, parsed, or else the fallback. Its id is the
  link with one trailing `/` removed and the first five `/`-segments dropped.
- **Chapter pages.** There is one entry per child of the reading area. A
  child without an image gives `""`.
- **Search.** There is one tile per result card. Its id is the last
  `/`-segment of the link, after one trailing `/` is removed. Every tile gets
  the same image: the first thumbnail of the whole page.

Files:

- `wrappers.dfy`: the `Option` type.
- `strings.dfy` (module `Strings`): the JavaScript string operations the
  plugin uses. These are `endsWith`/`slice`, `split`/`join`, `replace` of the
  first occurrence, the first match of `/\d+/` or `/d+/`, and `parseInt`.
  Each comes with lemmas about what it means.
- `colored_manga.dfy` (module `ColoredManga`): the plugin's records and its
  four operations.

The operations that loop in the source are methods with the same loops.
In `GetMangaDetails` the loop overwrites the status row by row. In
`GetChapters`, `GetChapterDetails` and `GetSearchResults` the loops push
into a sequence. Each is proved equal to a specification function, or to
an element-by-element description. The per-item rules are functions, and
lemmas state their properties.

The volume number follows the code, not the intended behaviour. The intent is
that a volume titled "Volume 3" gets number 3. But
`src/ColoredManga/ColoredManga.ts:122` matches `/d+/`, which is a run of the
letter `d`, not of digits. `parseInt` of such a run, or of the empty string,
is NaN. So the volume number is always the positional fallback
`volumes.length - index`. `VolumeNumber` models the regular expression as
written, and `VolumeNumberIsPositional` proves that the title never matters.

Likewise, the `covers` guard at
`src/ColoredManga/ColoredManga.ts:73` never fires. `split` always returns at
least one piece, so `shift` never returns `undefined`. `GetMangaDetails`
proves that exactly one cover is pushed.

## Model

| member | source | states |
|---|---|---|
| ColoredManga.GetMangaDetails | src/ColoredManga/ColoredManga.ts:33-86 | The manga record has the requested id, the page title as its only title, the summary image or `""`, and the description. Its status is the one the row-by-row loop leaves (`StatusOf`). It has exactly one cover, `CoverOf` of the profile style, because the `undefined` guard never fails. |
| ColoredManga.StatusWithoutStatusRow | src/ColoredManga/ColoredManga.ts:45-64 | When no row's heading lower-cases to `status`, the status stays UNKNOWN. |
| ColoredManga.StatusLastRowWins | src/ColoredManga/ColoredManga.ts:48-64 | The last row whose heading is `status` alone decides the status. It is ONGOING exactly when that row's content upper-cases to `ONGOING`, COMPLETED exactly when it upper-cases to `COMPLETED`, and UNKNOWN otherwise. |
| ColoredManga.StatusIgnoresOtherRows | src/ColoredManga/ColoredManga.ts:48-50 | A row whose heading is not `status`, inserted anywhere, never changes the status. |
| ColoredManga.StatusExamples | src/ColoredManga/ColoredManga.ts:50-62 | The heading is matched case-insensitively and the content is upper-cased. "Completed" gives COMPLETED, "weird" gives UNKNOWN, and a later empty status row resets the status to UNKNOWN. |
| ColoredManga.CoverIsPrefixBeforeParen | src/ColoredManga/ColoredManga.ts:69-72 | The cover is the prefix of the style (with its first `background-image:url(` removed) up to the first `)`. It holds no `)` and is the whole string when there is no `)`. It is `""` when the style attribute is absent. |
| ColoredManga.ChapterNumberFromTitle | src/ColoredManga/ColoredManga.ts:134-140 | When the link text has a digit, the chapter number is the decimal value of its first maximal run of digits, whatever the fallback. |
| ColoredManga.ChapterNumberWithoutDigits | src/ColoredManga/ColoredManga.ts:135-140 | When the link text has no digit, the chapter number is exactly the fallback passed in. |
| ColoredManga.VolumeNumberIsPositional | src/ColoredManga/ColoredManga.ts:121-125 | Because `/d+/` only matches runs of the letter `d`, `parseInt` always gives NaN. Volume `index` of `count` is therefore `count - index`, which lies in `1..count`, whatever its title. |
| ColoredManga.ParseChapterFields | src/ColoredManga/ColoredManga.ts:133-166 | A parsed chapter has the link's `ChapterId`, the link text as name, the manga id, an unknown language and the volume passed in. It has a release time exactly when the date text is non-empty, and that time is the date text. Without a digit in the link text its number is the fallback. |
| ColoredManga.ChapterIdRoundTrip | src/ColoredManga/ColoredManga.ts:142-146 | The id is `""` when the link, with at most one trailing `/` removed, has at most five `/`-segments. Otherwise the id's segments are exactly the segments after the fifth. The five dropped segments, joined by `/`, plus `/` plus the id, give back the link with its trailing `/` removed. |
| ColoredManga.FlatModeNumbering | src/ColoredManga/ColoredManga.ts:112-117 | Flat mode gives one chapter per item, in document order, with the item's name and id and no volume. Item `i` of `n` has fallback `n - i`. Each has an unknown language and a release time exactly when its date text is non-empty. Items without digits are numbered in `1..n`, strictly decreasing down the list. |
| ColoredManga.VolumeChapters | src/ColoredManga/ColoredManga.ts:119-130 | The chapters of the first `n` volumes number exactly as many as the chapter items those volumes hold. |
| ColoredManga.VolumeModeLayout | src/ColoredManga/ColoredManga.ts:119-129 | In volume mode, chapter `j` of volume `i` (of `m`) sits after all chapters of the earlier volumes. It is that item parsed with fallback 0 and volume `m - i`. |
| ColoredManga.VolumeModeVolumes | src/ColoredManga/ColoredManga.ts:119-129 | In volume mode, every chapter carries a volume in `1..m`. A chapter without digits in its name is numbered 0. |
| ColoredManga.GetChapters | src/ColoredManga/ColoredManga.ts:108-168 | The list the loops build equals `ChaptersOf`: the flat chapters, or the volume chapters in volume order and then item order. |
| ColoredManga.GetChapterDetails | src/ColoredManga/ColoredManga.ts:179-191 | There are as many pages as reader children, in order. A child with an image source gives that source, and a child without one gives `""`. Ids are passed through and `longStrip` is false. |
| ColoredManga.SearchIdIsLastSegment | src/ColoredManga/ColoredManga.ts:211-215 | The search id holds no `/`. It ends the link (with one trailing `/` removed) and is either all of it or preceded there by `/`. |
| ColoredManga.GetSearchResults | src/ColoredManga/ColoredManga.ts:207-228 | There is one tile per result card, in order. Each tile has the card's title and `SearchId` of its link. Every tile shares the first thumbnail of the page, or `""`. |
| Strings.StripTrailing | src/ColoredManga/ColoredManga.ts:143-145 | At most one trailing separator is removed, and one is removed exactly when the string ends with it. |
| Strings.Split | src/ColoredManga/ColoredManga.ts:146 | `split` always returns at least one piece. |
| Strings.SplitPieces | src/ColoredManga/ColoredManga.ts:146 | No piece of a split holds the separator. |
| Strings.JoinSplit | src/ColoredManga/ColoredManga.ts:146 | Joining the pieces of a split gives the string back. |
| Strings.SplitJoin | src/ColoredManga/ColoredManga.ts:146 | Splitting a join of separator-free pieces gives the pieces back. |
| Strings.JoinConcat | src/ColoredManga/ColoredManga.ts:146 | Joining two non-empty runs of pieces puts one separator between their joins. |
| Strings.SplitFirstPiece | src/ColoredManga/ColoredManga.ts:72 | The first piece of a split is the prefix before the first separator, or the whole string when there is none. |
| Strings.IndexFromSpec | src/ColoredManga/ColoredManga.ts:71 | The index found is an occurrence with none before it. `None` means there is no occurrence at all. |
| Strings.ReplaceFirstSpec | src/ColoredManga/ColoredManga.ts:71 | `replace` with a string pattern replaces exactly the leftmost occurrence, or changes nothing when there is none. |
| Strings.RunStartSpec | src/ColoredManga/ColoredManga.ts:135 | This is the index of the first character in the class, or the length when there is none. |
| Strings.RunLengthSpec | src/ColoredManga/ColoredManga.ts:135 | This is the length of the longest prefix whose characters are all in the class. |
| Strings.FirstMatchSpec | src/ColoredManga/ColoredManga.ts:135 | A match exists exactly when some character is in the class. A match is non-empty and made only of class characters. |
| Strings.FirstMatchIsLeftmostMaximal | src/ColoredManga/ColoredManga.ts:135 | The match is the run that starts at the leftmost class character and extends as far as the class allows. |
| Strings.LastPieceIsSuffix | src/ColoredManga/ColoredManga.ts:215 | The last piece of a split ends the string. It is either the whole string or is preceded there by the separator. |
| Strings.ParseIntSpec | src/ColoredManga/ColoredManga.ts:137 | A non-empty string of digits parses to its decimal value. An empty string, or one that does not start with a digit, is NaN. |

## Left out

- Network requests, the request manager and its rate of 5 requests per second, and `async`/`await` (`src/ColoredManga/ColoredManga.ts:29-38`): these are I/O done by the host.
- Cheerio document loading and selector evaluation: the model takes the selected texts and attributes as inputs. The `no-volumn` class test becomes the choice between `NoVolumes` and `WithVolumes`.
- `trim`: every input string is taken as already trimmed. The search image is the one value the source does not trim, and the model passes it through unchanged.
- The rating (`parseFloat`, possibly NaN) is not part of the manga record here, because floating point is not modelled.
- `new Date(...)`: `Chapter.time` holds the release-date text, and is present exactly when that text is non-empty. Date parsing is not modelled.
- Building the search URL with `URL`/`searchParams`, the `SourceInfo` metadata, and the host's `create*` factories are not modelled. The factories become plain datatypes.
- `LowerChar`, `UpperChar`: case mapping covers ASCII letters only. Full Unicode `toLowerCase`/`toUpperCase` is not modelled.
- `ParseInt`: it reads only leading ASCII digits. Leading whitespace, signs and `0x` prefixes are not handled, because the strings it receives are regex matches that never contain them. Numbers are unbounded `nat`s, so the precision loss of `parseInt` on very long digit runs is not modelled.
