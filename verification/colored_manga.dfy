/** The extraction rules of the ColoredManga source plugin: how the status,
    covers, chapter list, page list and search tiles are derived from the
    text and attribute values already picked out of a fetched page.

    Every input string is the already-trimmed text or attribute value the
    plugin reads from the document; an attribute that is absent is `None`. */
module ColoredManga {
  import opened Wrappers
  import opened Strings

  // ---------------------------------------------------------------------
  // Records handed to the host application

  datatype MangaStatus = Ongoing | Completed | Unknown

  /** The site gives no language, so every chapter carries the unknown code. */
  datatype LanguageCode = UnknownLanguage

  datatype Manga = Manga(
    id: string,
    titles: seq<string>,
    image: string,
    desc: string,
    status: MangaStatus,
    covers: seq<string>)

  /** `time` holds the release-date text the plugin would hand to `new Date`. */
  datatype Chapter = Chapter(
    id: string,
    mangaId: string,
    name: string,
    langCode: LanguageCode,
    chapNum: nat,
    volume: Option<nat>,
    time: Option<string>)

  datatype ChapterDetails = ChapterDetails(
    id: string,
    mangaId: string,
    pages: seq<string>,
    longStrip: bool)

  datatype MangaTile = MangaTile(id: string, image: string, title: string)

  datatype PagedResults = PagedResults(results: seq<MangaTile>)

  // ---------------------------------------------------------------------
  // What the plugin reads out of a page

  /** One `.post-content_item` of the status block: its heading and content text. */
  datatype StatusRow = StatusRow(heading: string, content: string)

  /** The parts of a manga page the detail extraction reads. */
  datatype DetailPage = DetailPage(
    title: string,
    summaryImage: Option<string>,
    description: string,
    statusRows: seq<StatusRow>,
    profileStyle: Option<string>)

  /** One `li.wp-manga-chapter`: the text and `href` of its first link and the
      text of its release-date element. */
  datatype ChapterItem = ChapterItem(linkText: string, href: Option<string>, releaseDate: string)

  /** One `li.parent.has-child`: the text of its first link and its chapter items. */
  datatype VolumeItem = VolumeItem(title: string, chapters: seq<ChapterItem>)

  /** The chapter list is flat when it carries the `no-volumn` class and is
      grouped into volumes otherwise. */
  datatype ChapterListing =
    | NoVolumes(items: seq<ChapterItem>)
    | WithVolumes(volumes: seq<VolumeItem>)

  /** One `.c-tabs-item__content`: the text and `href` of its title link. */
  datatype SearchCard = SearchCard(linkText: string, href: Option<string>)

  // ---------------------------------------------------------------------
  // Publication status

  predicate IsStatusHeading(heading: string) {
    Lower(heading) == "status"
  }

  /** The `switch` on the upper-cased content of a status row. */
  function StatusFromText(content: string): MangaStatus {
    var upper := Upper(content);
    if upper == "ONGOING" then Ongoing
    else if upper == "COMPLETED" then Completed
    else Unknown
  }

  /** The status after the rows have been read in order, starting from
      `Unknown`: every status row overwrites it, every other row leaves it. */
  function StatusOf(rows: seq<StatusRow>): MangaStatus {
    if rows == [] then Unknown
    else
      var last := rows[|rows| - 1];
      if IsStatusHeading(last.heading) then StatusFromText(last.content)
      else StatusOf(rows[..|rows| - 1])
  }

  /** Without a status row the status is unknown. */
  lemma {:induction false} StatusWithoutStatusRow(rows: seq<StatusRow>)
    requires forall k :: 0 <= k < |rows| ==> !IsStatusHeading(rows[k].heading)
    ensures StatusOf(rows) == Unknown
  {
    if rows != [] {
      StatusWithoutStatusRow(rows[..|rows| - 1]);
    }
  }

  /** The last status row alone decides the status. */
  lemma {:induction false} StatusLastRowWins(rows: seq<StatusRow>, i: nat)
    requires i < |rows| && IsStatusHeading(rows[i].heading)
    requires forall k :: i < k < |rows| ==> !IsStatusHeading(rows[k].heading)
    ensures StatusOf(rows) == StatusFromText(rows[i].content)
    ensures StatusOf(rows) == Ongoing <==> Upper(rows[i].content) == "ONGOING"
    ensures StatusOf(rows) == Completed <==> Upper(rows[i].content) == "COMPLETED"
  {
    if i < |rows| - 1 {
      StatusLastRowWins(rows[..|rows| - 1], i);
    }
  }

  /** A row whose heading is not "status", wherever it stands, changes nothing. */
  lemma {:induction false} StatusIgnoresOtherRows(before: seq<StatusRow>, row: StatusRow, after: seq<StatusRow>)
    requires !IsStatusHeading(row.heading)
    ensures StatusOf(before + [row] + after) == StatusOf(before + after)
  {
    if after == [] {
      assert (before + [row] + after)[..|before| + 1 - 1] == before;
      assert before + after == before;
    } else {
      var n := |after|;
      assert (before + [row] + after)[..|before| + 1 + n - 1] == before + [row] + after[..n - 1];
      assert (before + after)[..|before| + n - 1] == before + after[..n - 1];
      StatusIgnoresOtherRows(before, row, after[..n - 1]);
    }
  }

  /** The heading is matched without regard to case; the value is upper-cased. */
  lemma StatusExamples()
    ensures StatusOf([StatusRow("Status", "Completed")]) == Completed
    ensures StatusOf([StatusRow("STATUS", "weird")]) == Unknown
    ensures StatusOf([StatusRow("status", "OnGoing"), StatusRow("Genre", "Action")]) == Ongoing
    ensures StatusOf([StatusRow("Status", "Ongoing"), StatusRow("sTaTuS", "")]) == Unknown
  {
  }

  // ---------------------------------------------------------------------
  // Covers

  const CoverPrefix: string := "background-image:url("

  /** The cover URL: what precedes the first `)` once the first
      `background-image:url(` has been removed from the style text. */
  function CoverOf(style: Option<string>): string {
    Split(ReplaceFirst(style.GetOr(""), CoverPrefix, ""), ')')[0]
  }

  /** The cover is the prefix of the cleaned style text up to its first `)`
      (all of it when there is none), and empty when there is no style. */
  lemma CoverIsPrefixBeforeParen(style: Option<string>)
    ensures var cleaned := ReplaceFirst(style.GetOr(""), CoverPrefix, "");
      var cover := CoverOf(style);
      |cover| <= |cleaned| && cover == cleaned[..|cover|] && ')' !in cover &&
      (|cover| == |cleaned| || cleaned[|cover|] == ')')
    ensures style.None? ==> CoverOf(style) == ""
  {
    SplitFirstPiece(ReplaceFirst(style.GetOr(""), CoverPrefix, ""), ')');
  }

  /** `Array.prototype.shift` read as a value: the first element, if any. */
  function Shift(parts: seq<string>): Option<string> {
    if |parts| == 0 then None else Some(parts[0])
  }

  // ---------------------------------------------------------------------
  // Manga details

  /** Builds the manga record of a detail page. The status loop and the cover
      steps follow the page in order; the rating is not modelled. */
  method GetMangaDetails(mangaId: string, page: DetailPage) returns (manga: Manga)
    ensures manga.id == mangaId && manga.titles == [page.title]
    ensures manga.image == page.summaryImage.GetOr("") && manga.desc == page.description
    ensures manga.status == StatusOf(page.statusRows)
    ensures |manga.covers| == 1 && manga.covers[0] == CoverOf(page.profileStyle)
  {
    var status := Unknown;
    var rows := page.statusRows;
    for i := 0 to |rows|
      invariant status == StatusOf(rows[..i])
    {
      if IsStatusHeading(rows[i].heading) {
        status := StatusFromText(rows[i].content);
      }
      assert rows[..i + 1][..i] == rows[..i];
    }
    assert rows[..|rows|] == rows;

    var covers: seq<string> := [];
    var rawCover: Option<string> := Some(page.profileStyle.GetOr(""));
    rawCover := Some(ReplaceFirst(rawCover.value, CoverPrefix, ""));
    rawCover := Shift(Split(rawCover.value, ')'));
    if rawCover.Some? {
      covers := covers + [rawCover.value];
    }

    manga := Manga(mangaId, [page.title], page.summaryImage.GetOr(""), page.description, status, covers);
  }

  // ---------------------------------------------------------------------
  // Chapter and volume numbers

  predicate HasDigit(s: string) {
    exists k :: 0 <= k < |s| && IsDigit(s[k])
  }

  /** `parseInt` of the first `/\d+/` match of the link text, or `fallback`
      when that is NaN. */
  function ChapterNumber(title: string, fallback: nat): nat {
    var found := FirstMatch(title, Digit);
    var numberString := if found.None? then "" else found.value;
    ParseInt(numberString).GetOr(fallback)
  }

  /** With a digit in the title, the number is the value of the first maximal
      run of digits, whatever the fallback. */
  lemma ChapterNumberFromTitle(title: string, fallback: nat, i: nat, j: nat)
    requires i < j <= |title|
    requires forall k :: 0 <= k < i ==> !IsDigit(title[k])
    requires AllDigits(title[i..j])
    requires j == |title| || !IsDigit(title[j])
    ensures ChapterNumber(title, fallback) == DigitsValue(title[i..j])
  {
    forall k | i <= k < j ensures IsDigit(title[k]) {
      assert title[k] == title[i..j][k - i];
    }
    FirstMatchIsLeftmostMaximal(title, Digit, i, j);
    ParseIntSpec(title[i..j]);
  }

  /** Without a digit in the title, the number is exactly the fallback. */
  lemma ChapterNumberWithoutDigits(title: string, fallback: nat)
    requires !HasDigit(title)
    ensures ChapterNumber(title, fallback) == fallback
  {
    FirstMatchSpec(title, Digit);
    ParseIntSpec("");
  }

  /** `parseInt` of the first `/d+/` match of the volume title (a run of the
      letter `d`, not of digits), or the position from the end when NaN. */
  function VolumeNumber(title: string, index: nat, count: nat): nat
    requires index < count
  {
    var found := FirstMatch(title, Literal('d'));
    var numberString := if found.None? then "" else found.value;
    ParseInt(numberString).GetOr(count - index)
  }

  /** A run of `d`s never parses, so the volume number is always positional:
      volume `index` of `count` is `count - index`, whatever its title says. */
  lemma VolumeNumberIsPositional(title: string, index: nat, count: nat)
    requires index < count
    ensures VolumeNumber(title, index, count) == count - index
    ensures 1 <= VolumeNumber(title, index, count) <= count
  {
    var found := FirstMatch(title, Literal('d'));
    var numberString := if found.None? then "" else found.value;
    FirstMatchSpec(title, Literal('d'));
    if found.Some? {
      assert numberString[0] == 'd';
    }
    ParseIntSpec(numberString);
  }

  // ---------------------------------------------------------------------
  // Chapter identifiers

  /** How many leading `/`-segments of a chapter link are the site prefix. */
  const PrefixSegments: nat := 5

  /** The `/`-segments of a chapter link once one trailing `/` is removed. */
  function HrefSegments(href: Option<string>): seq<string> {
    Split(StripTrailing(href.GetOr(""), '/'), '/')
  }

  /** `split("/").slice(5).join("/")` of the link with one trailing `/` removed. */
  function ChapterId(href: Option<string>): string {
    var parts := HrefSegments(href);
    Join(if |parts| <= PrefixSegments then [] else parts[PrefixSegments..], '/')
  }

  /** The id is empty when the link has at most five segments. Otherwise its
      segments are exactly those after the fifth, and putting the five
      dropped segments and a `/` in front of it gives the link back. */
  lemma ChapterIdRoundTrip(href: Option<string>)
    ensures |HrefSegments(href)| <= PrefixSegments ==> ChapterId(href) == ""
    ensures var path := StripTrailing(href.GetOr(""), '/');
      var parts := HrefSegments(href);
      |parts| > PrefixSegments ==>
        Split(ChapterId(href), '/') == parts[PrefixSegments..] &&
        Join(parts[..PrefixSegments], '/') + "/" + ChapterId(href) == path
  {
    var path := StripTrailing(href.GetOr(""), '/');
    var parts := HrefSegments(href);
    if |parts| > PrefixSegments {
      SplitPieces(path, '/');
      var tail := parts[PrefixSegments..];
      SplitJoin(tail, '/');
      JoinSplit(path, '/');
      assert parts[..PrefixSegments] + tail == parts;
      JoinConcat(parts[..PrefixSegments], tail, '/');
    }
  }

  // ---------------------------------------------------------------------
  // Chapter list

  /** `parseChapter`: one chapter item with its fallback number and volume. */
  function ParseChapter(mangaId: string, item: ChapterItem, fallback: nat, volume: Option<nat>): Chapter {
    Chapter(
      ChapterId(item.href),
      mangaId,
      item.linkText,
      UnknownLanguage,
      ChapterNumber(item.linkText, fallback),
      volume,
      if item.releaseDate != "" then Some(item.releaseDate) else None)
  }

  /** A parsed chapter takes its id from the link and its name from the link
      text, has an unknown language and the volume it was given, carries a
      release time exactly when the date text is non-empty, and falls back to
      the given number when the link text has no digit. */
  lemma ParseChapterFields(mangaId: string, item: ChapterItem, fallback: nat, volume: Option<nat>)
    ensures var c := ParseChapter(mangaId, item, fallback, volume);
      c.id == ChapterId(item.href) && c.mangaId == mangaId && c.name == item.linkText &&
      c.langCode == UnknownLanguage && c.volume == volume &&
      (c.time.None? <==> item.releaseDate == "") &&
      (c.time.Some? ==> c.time.value == item.releaseDate) &&
      (!HasDigit(item.linkText) ==> c.chapNum == fallback)
  {
    if !HasDigit(item.linkText) {
      ChapterNumberWithoutDigits(item.linkText, fallback);
    }
  }

  /** Flat list: item `i` of `n` gets fallback number `n - i` and no volume. */
  function FlatChapters(mangaId: string, items: seq<ChapterItem>): seq<Chapter> {
    seq(|items|, i requires 0 <= i < |items| => ParseChapter(mangaId, items[i], |items| - i, None))
  }

  /** The chapters of one volume, each with fallback number 0. */
  function VolumeBlock(mangaId: string, volume: VolumeItem, number: nat): seq<Chapter> {
    seq(|volume.chapters|, j requires 0 <= j < |volume.chapters| =>
      ParseChapter(mangaId, volume.chapters[j], 0, Some(number)))
  }

  /** How many chapter items the first `n` volumes hold. */
  function Offset(volumes: seq<VolumeItem>, n: nat): nat
    requires n <= |volumes|
  {
    if n == 0 then 0 else Offset(volumes, n - 1) + |volumes[n - 1].chapters|
  }

  lemma {:induction false} OffsetMonotone(volumes: seq<VolumeItem>, i: nat, n: nat)
    requires i < n <= |volumes|
    ensures Offset(volumes, i) + |volumes[i].chapters| <= Offset(volumes, n)
  {
    if i < n - 1 {
      OffsetMonotone(volumes, i, n - 1);
    }
  }

  /** The chapters of the first `n` volumes, volume by volume; volume `i`
      of `m` is numbered `m - i` (see `VolumeNumberIsPositional`). */
  function VolumeChapters(mangaId: string, volumes: seq<VolumeItem>, n: nat): (r: seq<Chapter>)
    requires n <= |volumes|
    ensures |r| == Offset(volumes, n)
  {
    if n == 0 then []
    else
      VolumeChapters(mangaId, volumes, n - 1) +
      VolumeBlock(mangaId, volumes[n - 1], |volumes| - (n - 1))
  }

  /** The chapter records of a listing, in document order. */
  function ChaptersOf(mangaId: string, listing: ChapterListing): seq<Chapter> {
    match listing
    case NoVolumes(items) => FlatChapters(mangaId, items)
    case WithVolumes(volumes) => VolumeChapters(mangaId, volumes, |volumes|)
  }

  /** Flat mode: one chapter per item, in order, none with a volume; an item
      without digits in its title is numbered by position, from `n` for the
      first down to 1 for the last. */
  lemma FlatModeNumbering(mangaId: string, items: seq<ChapterItem>)
    ensures var cs := FlatChapters(mangaId, items);
      |cs| == |items| &&
      (forall i :: 0 <= i < |items| ==>
        cs[i].name == items[i].linkText && cs[i].id == ChapterId(items[i].href) &&
        cs[i].mangaId == mangaId && cs[i].volume == None &&
        cs[i].langCode == UnknownLanguage &&
        cs[i].time == (if items[i].releaseDate != "" then Some(items[i].releaseDate) else None) &&
        cs[i].chapNum == ChapterNumber(items[i].linkText, |items| - i)) &&
      (forall i :: 0 <= i < |items| && !HasDigit(items[i].linkText) ==>
        cs[i].chapNum == |items| - i && 1 <= cs[i].chapNum <= |items|) &&
      (forall i, j :: 0 <= i < j < |items| && !HasDigit(items[i].linkText) && !HasDigit(items[j].linkText) ==>
        cs[i].chapNum > cs[j].chapNum)
  {
    var cs := FlatChapters(mangaId, items);
    forall i | 0 <= i < |items| && !HasDigit(items[i].linkText)
      ensures cs[i].chapNum == |items| - i
    {
      ChapterNumberWithoutDigits(items[i].linkText, |items| - i);
    }
  }

  /** Chapter `j` of volume `i` sits right after the chapters of the volumes
      before `i`, as the `j`-th chapter of that volume's block. */
  lemma {:induction false} VolumeChapterAt(mangaId: string, volumes: seq<VolumeItem>, n: nat, i: nat, j: nat)
    requires i < n <= |volumes| && j < |volumes[i].chapters|
    ensures Offset(volumes, i) + j < |VolumeChapters(mangaId, volumes, n)|
    ensures VolumeChapters(mangaId, volumes, n)[Offset(volumes, i) + j] ==
      VolumeBlock(mangaId, volumes[i], |volumes| - i)[j]
  {
    OffsetMonotone(volumes, i, n);
    if i < n - 1 {
      VolumeChapterAt(mangaId, volumes, n - 1, i, j);
    }
  }

  /** Volume mode: chapter `j` of volume `i` (of `m`) comes after all chapters
      of the earlier volumes, and is that item parsed with fallback number 0
      and volume `m - i`. */
  lemma VolumeModeLayout(mangaId: string, volumes: seq<VolumeItem>, i: nat, j: nat)
    requires i < |volumes| && j < |volumes[i].chapters|
    ensures Offset(volumes, i) + j < |ChaptersOf(mangaId, WithVolumes(volumes))|
    ensures ChaptersOf(mangaId, WithVolumes(volumes))[Offset(volumes, i) + j] ==
      ParseChapter(mangaId, volumes[i].chapters[j], 0, Some(|volumes| - i))
  {
    VolumeChapterAt(mangaId, volumes, |volumes|, i, j);
  }

  /** A chapter of volume mode: it carries a volume between 1 and `count`,
      and without digits in its title it is numbered 0. */
  predicate InVolumeRange(c: Chapter, count: nat) {
    c.volume.Some? && 1 <= c.volume.value <= count &&
    (!HasDigit(c.name) ==> c.chapNum == 0)
  }

  /** Volume mode: every chapter carries a volume between 1 and the number of
      volumes, and without digits in its title it is numbered 0. */
  lemma {:induction false} VolumeModeVolumes(mangaId: string, volumes: seq<VolumeItem>, n: nat)
    requires n <= |volumes|
    ensures forall k :: 0 <= k < |VolumeChapters(mangaId, volumes, n)| ==>
      InVolumeRange(VolumeChapters(mangaId, volumes, n)[k], |volumes|)
  {
    if n > 0 {
      VolumeModeVolumes(mangaId, volumes, n - 1);
      var prev := VolumeChapters(mangaId, volumes, n - 1);
      var block := VolumeBlock(mangaId, volumes[n - 1], |volumes| - (n - 1));
      var cs := prev + block;
      assert VolumeChapters(mangaId, volumes, n) == cs;
      forall k | 0 <= k < |cs|
        ensures InVolumeRange(cs[k], |volumes|)
      {
        if k < |prev| {
          assert cs[k] == prev[k];
        } else {
          var item := volumes[n - 1].chapters[k - |prev|];
          assert cs[k] == block[k - |prev|];
          if !HasDigit(item.linkText) {
            ChapterNumberWithoutDigits(item.linkText, 0);
          }
        }
      }
    }
  }

  /** `getChapters`: walks the flat list, or the volumes and their chapters,
      appending one record per chapter item. */
  method GetChapters(mangaId: string, listing: ChapterListing) returns (chapters: seq<Chapter>)
    ensures chapters == ChaptersOf(mangaId, listing)
  {
    chapters := [];
    match listing
    case NoVolumes(chaps) =>
      for index := 0 to |chaps|
        invariant chapters == FlatChapters(mangaId, chaps)[..index]
      {
        var chapNum := |chaps| - index;
        chapters := chapters + [ParseChapter(mangaId, chaps[index], chapNum, None)];
        FlatPrefixGrows(mangaId, chaps, index);
      }
      assert FlatChapters(mangaId, chaps)[..|chaps|] == FlatChapters(mangaId, chaps);
    case WithVolumes(volumes) =>
      for index := 0 to |volumes|
        invariant chapters == VolumeChapters(mangaId, volumes, index)
      {
        var volume := VolumeNumber(volumes[index].title, index, |volumes|);
        VolumeNumberIsPositional(volumes[index].title, index, |volumes|);
        var vol := volumes[index];
        ghost var done := chapters;
        for j := 0 to |vol.chapters|
          invariant chapters == done + VolumeBlock(mangaId, vol, volume)[..j]
        {
          chapters := chapters + [ParseChapter(mangaId, vol.chapters[j], 0, Some(volume))];
          BlockPrefixGrows(mangaId, vol, volume, j);
        }
        assert VolumeBlock(mangaId, vol, volume)[..|vol.chapters|] == VolumeBlock(mangaId, vol, volume);
      }
  }

  lemma FlatPrefixGrows(mangaId: string, items: seq<ChapterItem>, index: nat)
    requires index < |items|
    ensures FlatChapters(mangaId, items)[..index + 1] ==
      FlatChapters(mangaId, items)[..index] + [ParseChapter(mangaId, items[index], |items| - index, None)]
  {
    var all := FlatChapters(mangaId, items);
    assert all[..index + 1] == all[..index] + [all[index]];
  }

  lemma BlockPrefixGrows(mangaId: string, volume: VolumeItem, number: nat, j: nat)
    requires j < |volume.chapters|
    ensures VolumeBlock(mangaId, volume, number)[..j + 1] ==
      VolumeBlock(mangaId, volume, number)[..j] + [ParseChapter(mangaId, volume.chapters[j], 0, Some(number))]
  {
    var block := VolumeBlock(mangaId, volume, number);
    assert block[..j + 1] == block[..j] + [block[j]];
  }

  // ---------------------------------------------------------------------
  // Chapter pages

  /** `getChapterDetails`: one page per child of the reading area, in order;
      a child without an image source gives an empty page, not a gap. */
  method GetChapterDetails(mangaId: string, chapterId: string, children: seq<Option<string>>)
    returns (details: ChapterDetails)
    ensures details.id == chapterId && details.mangaId == mangaId && !details.longStrip
    ensures |details.pages| == |children|
    ensures forall i :: 0 <= i < |children| && children[i].Some? ==> details.pages[i] == children[i].value
    ensures forall i :: 0 <= i < |children| && children[i].None? ==> details.pages[i] == ""
  {
    var pages: seq<string> := [];
    for i := 0 to |children|
      invariant |pages| == i
      invariant forall k :: 0 <= k < i ==> pages[k] == children[k].GetOr("")
    {
      var img := children[i].GetOr("");
      pages := pages + [img];
    }
    details := ChapterDetails(chapterId, mangaId, pages, false);
  }

  // ---------------------------------------------------------------------
  // Search

  /** The last `/`-segment of a search-result link once one trailing `/` is removed. */
  function SearchId(href: Option<string>): string {
    var parts := HrefSegments(href);
    parts[|parts| - 1]
  }

  /** The id holds no `/`, ends the trimmed link, and is either the whole of it
      or preceded there by a `/`. */
  lemma SearchIdIsLastSegment(href: Option<string>)
    ensures '/' !in SearchId(href)
    ensures var path := StripTrailing(href.GetOr(""), '/');
      var id := SearchId(href);
      |id| <= |path| && path[|path| - |id|..] == id &&
      (|id| == |path| || path[|path| - |id| - 1] == '/')
  {
    var path := StripTrailing(href.GetOr(""), '/');
    SplitPieces(path, '/');
    LastPieceIsSuffix(path, '/');
  }

  /** `getSearchResults`: one tile per result card, in order. The image is
      the first thumbnail of the whole page, so every tile shares it. */
  method GetSearchResults(cards: seq<SearchCard>, firstThumbnail: Option<string>)
    returns (paged: PagedResults)
    ensures |paged.results| == |cards|
    ensures forall i :: 0 <= i < |cards| ==>
      paged.results[i].id == SearchId(cards[i].href) && paged.results[i].title == cards[i].linkText
    ensures forall i :: 0 <= i < |cards| ==> paged.results[i].image == firstThumbnail.GetOr("")
  {
    var mangaItems: seq<MangaTile> := [];
    for i := 0 to |cards|
      invariant |mangaItems| == i
      invariant forall k :: 0 <= k < i ==>
        mangaItems[k] == MangaTile(SearchId(cards[k].href), firstThumbnail.GetOr(""), cards[k].linkText)
    {
      var title := cards[i].linkText;
      var id := cards[i].href.GetOr("");
      if EndsWith(id, '/') {
        id := id[..|id| - 1];
      }
      var parts := Split(id, '/');
      id := if |parts| > 0 then parts[|parts| - 1] else "";
      var image := firstThumbnail.GetOr("");
      mangaItems := mangaItems + [MangaTile(id, image, title)];
    }
    paged := PagedResults(mangaItems);
  }
}
