// How content enters the view: the menu document is turned into image
// records and row titles, swimlane settings into per-category dimensions,
// and an image path into a loading route (local file, HTTP fetch or
// placeholder). The JSON text itself is taken as already parsed: the
// datatypes below hold what the conversion code reads from it, with absent
// or non-string fields read as empty strings.

module ContentTransform {
  import opened ImageTypes
  import opened ContentIndex

  // ---------------------------------------------------------------------
  // Strings

  predicate StartsWith(s: string, prefix: string)
  {
    |prefix| <= |s| && s[..|prefix|] == prefix
  }

  predicate IsAsciiLetter(c: char) { 'a' <= c <= 'z' || 'A' <= c <= 'Z' }

  predicate IsSchemeChar(c: char)
  {
    IsAsciiLetter(c) || '0' <= c <= '9' || c == '+' || c == '-' || c == '.'
  }

  function LowerChar(c: char): (r: char)
    ensures !('A' <= r <= 'Z')
  {
    if 'A' <= c <= 'Z' then (c as int + 32) as char else c
  }

  function UpperChar(c: char): (r: char)
    ensures !('a' <= r <= 'z')
  {
    if 'a' <= c <= 'z' then (c as int - 32) as char else c
  }

  /** ASCII lower-casing, as QUrl applies to a scheme. */
  function Lower(s: string): (r: string)
    ensures |r| == |s|
    ensures forall i :: 0 <= i < |r| ==> r[i] == LowerChar(s[i])
  {
    seq(|s|, i requires 0 <= i < |s| => LowerChar(s[i]))
  }

  /** Upper-casing of an event name (ASCII letters only). */
  function Upper(s: string): (r: string)
    ensures |r| == |s|
    ensures forall i :: 0 <= i < |r| ==> r[i] == UpperChar(s[i])
  {
    seq(|s|, i requires 0 <= i < |s| => UpperChar(s[i]))
  }

  lemma UpperIdempotent(s: string)
    ensures Upper(Upper(s)) == Upper(s)
  {
  }

  /** Decimal digit character of 0..9. */
  function Digit(d: int): (c: char)
    requires 0 <= d < 10
    ensures '0' <= c <= '9'
  {
    ('0' as int + d) as char
  }

  // ---------------------------------------------------------------------
  // URLs

  /** Index of the first ':' in `s`, or -1. */
  function ColonIndex(s: string): (r: int)
    ensures -1 <= r < |s|
    ensures r >= 0 ==> s[r] == ':' && forall i :: 0 <= i < r ==> s[i] != ':'
    ensures r == -1 ==> forall i :: 0 <= i < |s| ==> s[i] != ':'
  {
    if |s| == 0 then -1
    else if s[0] == ':' then 0
    else
      var k := ColonIndex(s[1..]);
      if k == -1 then -1 else k + 1
  }

  predicate IsSchemeText(t: string)
  {
    |t| > 0 && IsAsciiLetter(t[0]) && forall i :: 0 <= i < |t| ==> IsSchemeChar(t[i])
  }

  /**
   * The scheme a URL parser reads from `s`: the text before the first ':'
   * when it is a well-formed scheme (a letter, then letters, digits, '+',
   * '-' or '.'), lower-cased; otherwise no scheme.
   */
  function SchemeOf(s: string): string
  {
    var k := ColonIndex(s);
    if k > 0 && IsSchemeText(s[..k]) then Lower(s[..k]) else ""
  }

  /** A parsed URL: whether it is valid, its scheme and its text. */
  datatype Url = Url(valid: bool, scheme: string, text: string)

  function ParseUrl(s: string): (u: Url)
    ensures u.valid && u.text == s && u.scheme == SchemeOf(s)
  {
    Url(true, SchemeOf(s), s)
  }

  lemma SchemeAfterPrefix(prefix: string, rest: string)
    requires |prefix| > 0 && IsSchemeText(prefix)
    ensures SchemeOf(prefix + ":" + rest) == Lower(prefix)
  {
    var s := prefix + ":" + rest;
    assert forall i :: 0 <= i < |prefix| ==> s[i] == prefix[i];
    assert forall i :: 0 <= i < |prefix| ==> prefix[i] != ':';
    assert s[|prefix|] == ':';
    assert s[..|prefix|] == prefix;
  }

  /** "http:" in front of any text gives the http scheme. */
  lemma HttpPrefixScheme(rest: string)
    ensures SchemeOf("http:" + rest) == "http"
  {
    assert "http:" + rest == "http" + ":" + rest;
    SchemeAfterPrefix("http", rest);
  }

  /** "https:" in front of any text gives the https scheme. */
  lemma HttpsPrefixScheme(rest: string)
    ensures SchemeOf("https:" + rest) == "https"
  {
    assert "https:" + rest == "https" + ":" + rest;
    SchemeAfterPrefix("https", rest);
  }

  /** A scheme-relative reference ("//host/...") has no scheme of its own. */
  lemma SchemeRelativeHasNoScheme(s: string)
    requires StartsWith(s, "//")
    ensures SchemeOf(s) == ""
  {
    assert s[0] == '/';
  }

  /** The URL a fetch is issued for: a scheme-relative text gets "http:" in front. */
  function FinalUrl(url: Url): Url
  {
    if StartsWith(url.text, "//") then ParseUrl("http:" + url.text) else url
  }

  /** Only a valid URL whose final scheme is exactly "http" is fetched; all else gets a placeholder. */
  predicate FetchedOverNetwork(url: Url)
  {
    url.valid && FinalUrl(url).scheme == "http"
  }

  /** What loading an image path does once the cache and window checks have passed. */
  datatype LoadRoute = LocalFile | Fetch(url: Url) | Placeholder

  /**
   * A path that decodes as a local file is used as is; otherwise a path whose
   * scheme starts with "http", or a scheme-relative one, is handed to the
   * fetcher (scheme-relative paths as http); anything else gets a placeholder.
   */
  function RouteFor(path: string, localImages: set<string>): (r: LoadRoute)
    ensures r.Fetch? ==> StartsWith(SchemeOf(path), "http") || StartsWith(path, "//")
    ensures r.Fetch? && StartsWith(path, "//") ==> r.url.scheme == "http"
  {
    if path in localImages then LocalFile
    else
      var url := ParseUrl(path);
      if StartsWith(url.scheme, "http") || StartsWith(path, "//") then
        if StartsWith(path, "//") then
          HttpPrefixScheme(path);
          Fetch(ParseUrl("http:" + path))
        else Fetch(url)
      else Placeholder
  }

  /** Final outcome of the route: a local decode, a network request, or a placeholder texture. */
  datatype LoadOutcome = DecodeLocal | Request(url: Url) | PlaceholderTexture

  function OutcomeFor(path: string, localImages: set<string>): LoadOutcome
  {
    match RouteFor(path, localImages)
    case LocalFile => DecodeLocal
    case Fetch(url) => if FetchedOverNetwork(url) then Request(FinalUrl(url)) else PlaceholderTexture
    case Placeholder => PlaceholderTexture
  }

  /** Scheme-relative and http URLs that are not local files are requested over http. */
  lemma HttpPathsAreRequested(path: string, localImages: set<string>)
    requires path !in localImages
    requires StartsWith(path, "//") || SchemeOf(path) == "http"
    ensures OutcomeFor(path, localImages).Request?
    ensures OutcomeFor(path, localImages).url.scheme == "http"
  {
    if StartsWith(path, "//") {
      HttpPrefixScheme(path);
      var u := ParseUrl("http:" + path);
      assert !StartsWith(u.text, "//");
    } else {
      assert StartsWith("http", "http");
    }
  }

  /** An https path that is not a local file ends as a placeholder: only plain http is fetched. */
  lemma HttpsPathsFallBack(rest: string, localImages: set<string>)
    requires "https:" + rest !in localImages
    ensures OutcomeFor("https:" + rest, localImages) == PlaceholderTexture
  {
    var path := "https:" + rest;
    HttpsPrefixScheme(rest);
    assert path[0] == 'h';
    assert !StartsWith(path, "//");
    assert StartsWith(SchemeOf(path), "http");
  }

  // ---------------------------------------------------------------------
  // Menu document

  /** One entry of an item's "links" array. */
  datatype Link = NonObjectLink | LinkObject(href: string, events: seq<string>, event: Option<string>)

  /** One entry of a row's "items" array. */
  datatype MenuItem =
    | NonObjectItem
    | ItemObject(assetType: string, title: string, moodImageUri: string, thumbnailUri: string,
                 shortSynopsis: string, links: seq<Link>)

  /** One row of "menuItems.items"; a row that is not an object reads as an untitled empty row. */
  datatype Row = Row(title: string, items: seq<MenuItem>)

  /** The "menuItems" member: missing, not an object, or empty, or an object with its rows. */
  datatype MenuItems = EmptyMenuItems | MenuItemsObject(rows: seq<Row>)

  datatype MenuDocument = NotAnObject | MenuObject(menuItems: MenuItems)

  /** Every event of a link points at the link's href, keyed by its upper-cased name. */
  function ApplyEvents(m: map<string, string>, events: seq<string>, href: string): (r: map<string, string>)
    decreases |events|
  {
    if events == [] then m
    else ApplyEvents(m, events[..|events| - 1], href)[Upper(events[|events| - 1]) := href]
  }

  /** The events array wins over a single "event" field; a link with neither adds nothing. */
  function ApplyLink(m: map<string, string>, link: Link): map<string, string>
  {
    match link
    case NonObjectLink => m
    case LinkObject(href, events, event) =>
      if events != [] then ApplyEvents(m, events, href)
      else if event.Some? then m[Upper(event.value) := href]
      else m
  }

  function LinksOf(links: seq<Link>): map<string, string>
    decreases |links|
  {
    if links == [] then map[] else ApplyLink(LinksOf(links[..|links| - 1]), links[|links| - 1])
  }

  /** The upper-cased names of `events`. */
  function UpperNames(events: seq<string>): set<string>
  {
    set e | e in events :: Upper(e)
  }

  /** Adding one event to the list adds its upper-cased name. */
  lemma UpperNamesSnoc(events: seq<string>, last: string)
    ensures UpperNames(events + [last]) == UpperNames(events) + {Upper(last)}
  {
    assert forall e :: e in events + [last] <==> e in events || e == last;
  }

  /**
   * After the events of a link: each event's upper-cased name maps to the
   * href, and every other key keeps its value.
   */
  lemma {:induction false} ApplyEventsMeaning(m: map<string, string>, events: seq<string>, href: string)
    ensures ApplyEvents(m, events, href).Keys == m.Keys + UpperNames(events)
    ensures forall e :: e in events ==> ApplyEvents(m, events, href)[Upper(e)] == href
    ensures forall k :: k in m && k !in UpperNames(events) ==> ApplyEvents(m, events, href)[k] == m[k]
    decreases |events|
  {
    if events != [] {
      var pre := events[..|events| - 1];
      var last := events[|events| - 1];
      ApplyEventsMeaning(m, pre, href);
      assert events == pre + [last];
      UpperNamesSnoc(pre, last);
    }
  }

  /** Every link key is an upper-cased name. */
  lemma {:induction false} LinkKeysAreUpperCase(links: seq<Link>)
    ensures forall k :: k in LinksOf(links) ==> Upper(k) == k
    decreases |links|
  {
    if links != [] {
      var pre := links[..|links| - 1];
      LinkKeysAreUpperCase(pre);
      match links[|links| - 1]
      case NonObjectLink =>
      case LinkObject(href, events, event) =>
        ApplyEventsMeaning(LinksOf(pre), events, href);
        forall e | e in events
          ensures Upper(Upper(e)) == Upper(e)
        {
          UpperIdempotent(e);
        }
        if event.Some? {
          UpperIdempotent(event.value);
        }
    }
  }

  /** The resource path of placeholder image `k`. */
  function PlaceholderUrl(k: int): string
    requires 1 <= k <= 5
  {
    ":/data/images/img" + [Digit(k)] + ".jpg"
  }

  /**
   * An item's image URL: the mood image, else the thumbnail; scheme-relative
   * URLs get "https:"; none at all gives placeholder `n % 5 + 1`, where `n`
   * is the number of records already converted.
   */
  function ImageUrl(moodImageUri: string, thumbnailUri: string, n: nat): (r: string)
    ensures r != ""
    ensures !StartsWith(r, "//")
  {
    var chosen := if moodImageUri != "" then moodImageUri else thumbnailUri;
    var cleaned := if StartsWith(chosen, "//") then "https:" + chosen else chosen;
    if cleaned == "" then
      var p := PlaceholderUrl(n % 5 + 1);
      assert p[0] == ':';
      p
    else
      assert cleaned != chosen ==> cleaned[0] == 'h';
      cleaned
  }

  predicate Skipped(item: MenuItem)
  {
    item.NonObjectItem? || item.assetType == "viewAll"
  }

  function ImageOfItem(rowTitle: string, item: MenuItem, n: nat): (r: ImageData)
    requires !Skipped(item)
    ensures r.category == rowTitle && r.title == item.title && r.id == item.assetType
    ensures r.description == item.shortSynopsis && r.thumbnailUrl == ""
  {
    ImageData(ImageUrl(item.moodImageUri, item.thumbnailUri, n), item.title, rowTitle, item.shortSynopsis,
              item.assetType, "", LinksOf(item.links))
  }

  /** Records of one row's items, `base` records having been converted before the row. */
  function ConvertItems(rowTitle: string, items: seq<MenuItem>, base: nat): (r: seq<ImageData>)
    ensures |r| <= |items|
    ensures forall i :: 0 <= i < |r| ==> r[i].category == rowTitle
    decreases |items|
  {
    if items == [] then []
    else
      var pre := ConvertItems(rowTitle, items[..|items| - 1], base);
      var last := items[|items| - 1];
      if Skipped(last) then pre else pre + [ImageOfItem(rowTitle, last, base + |pre|)]
  }

  /** `done` holds the records of the first `j` of `items`. */
  ghost predicate ConvertedPrefix(done: seq<ImageData>, rowTitle: string, items: seq<MenuItem>, j: int, base: nat)
    requires 0 <= j <= |items|
  {
    done == ConvertItems(rowTitle, items[..j], base)
  }

  /** Converting one more item appends its record unless it is skipped. */
  lemma ConvertItemsStep(rowTitle: string, items: seq<MenuItem>, j: int, base: nat, pre: seq<ImageData>, next: seq<ImageData>)
    requires 0 <= j < |items| && ConvertedPrefix(pre, rowTitle, items, j, base)
    requires next == if Skipped(items[j]) then pre else pre + [ImageOfItem(rowTitle, items[j], base + |pre|)]
    ensures ConvertedPrefix(next, rowTitle, items, j + 1, base)
  {
    var s := items[..j + 1];
    assert s[..|s| - 1] == items[..j];
    assert s[|s| - 1] == items[j];
    if Skipped(items[j]) {
      assert ConvertItems(rowTitle, s, base) == pre;
    } else {
      assert ConvertItems(rowTitle, s, base) == pre + [ImageOfItem(rowTitle, items[j], base + |pre|)];
    }
  }

  /** Records of all rows, in row order then item order. */
  function ConvertRows(rows: seq<Row>): (r: seq<ImageData>)
    decreases |rows|
  {
    if rows == [] then []
    else
      var pre := ConvertRows(rows[..|rows| - 1]);
      pre + ConvertItems(rows[|rows| - 1].title, rows[|rows| - 1].items, |pre|)
  }

  function RowTitles(rows: seq<Row>): (r: seq<string>)
    ensures |r| == |rows| && forall i :: 0 <= i < |rows| ==> r[i] == rows[i].title
  {
    seq(|rows|, i requires 0 <= i < |rows| => rows[i].title)
  }

  /** Number of items a row contributes: objects whose asset type is not "viewAll". */
  function KeptCount(items: seq<MenuItem>): nat
    decreases |items|
  {
    if items == [] then 0 else KeptCount(items[..|items| - 1]) + (if Skipped(items[|items| - 1]) then 0 else 1)
  }

  lemma {:induction false} ConvertItemsMeaning(rowTitle: string, items: seq<MenuItem>, base: nat)
    ensures |ConvertItems(rowTitle, items, base)| == KeptCount(items)
    ensures forall i :: 0 <= i < |ConvertItems(rowTitle, items, base)| ==>
              ConvertItems(rowTitle, items, base)[i].id != "viewAll" &&
              ConvertItems(rowTitle, items, base)[i].url != "" &&
              !StartsWith(ConvertItems(rowTitle, items, base)[i].url, "//")
    decreases |items|
  {
    if items != [] {
      ConvertItemsMeaning(rowTitle, items[..|items| - 1], base);
    }
  }

  /**
   * The converted records: every category is a row title, no "viewAll" item
   * survives, every record has a usable URL, and the count is the number of
   * kept items over all rows.
   */
  lemma {:induction false} ConvertRowsMeaning(rows: seq<Row>)
    ensures forall i :: 0 <= i < |ConvertRows(rows)| ==> ConvertRows(rows)[i].category in RowTitles(rows)
    ensures forall i :: 0 <= i < |ConvertRows(rows)| ==>
              ConvertRows(rows)[i].id != "viewAll" && ConvertRows(rows)[i].url != "" &&
              !StartsWith(ConvertRows(rows)[i].url, "//")
    ensures |ConvertRows(rows)| == TotalKept(rows)
    decreases |rows|
  {
    if rows != [] {
      var pre := rows[..|rows| - 1];
      var last := rows[|rows| - 1];
      ConvertRowsMeaning(pre);
      var a := ConvertRows(pre);
      var b := ConvertItems(last.title, last.items, |a|);
      ConvertItemsMeaning(last.title, last.items, |a|);
      var ab: seq<ImageData> := a + b;
      assert ConvertRows(rows) == ab;
      forall i | 0 <= i < |ab|
        ensures ab[i].category in RowTitles(rows)
      {
        if i < |a| {
          var j :| 0 <= j < |pre| && RowTitles(pre)[j] == a[i].category;
          assert RowTitles(rows)[j] == pre[j].title;
        } else {
          assert RowTitles(rows)[|rows| - 1] == last.title;
        }
      }
    }
  }

  function TotalKept(rows: seq<Row>): nat
    decreases |rows|
  {
    if rows == [] then 0 else TotalKept(rows[..|rows| - 1]) + KeptCount(rows[|rows| - 1].items)
  }

  /** The five records shown when the document yields no items. */
  function DefaultItem(i: int): (r: ImageData)
    requires 0 <= i < 5
    ensures r.category == "Test Items" && r.url == PlaceholderUrl(i % 5 + 1)
  {
    ImageData(PlaceholderUrl(i % 5 + 1), "Test Item " + [Digit(i + 1)], "Test Items", "", [Digit(i)], "", map[])
  }

  function DefaultItems(): (r: seq<ImageData>)
    ensures |r| == 5
    ensures forall i :: 0 <= i < 5 ==> r[i] == DefaultItem(i)
  {
    seq(5, i requires 0 <= i < 5 => DefaultItem(i))
  }

  /** The default records are pairwise different images and all of the one test row. */
  lemma DefaultItemsDistinct()
    ensures forall i, j :: 0 <= i < j < 5 ==> !SameImage(DefaultItems()[i], DefaultItems()[j])
    ensures CategoryCount(DefaultItems(), "Test Items") == 5
  {
    forall i, j | 0 <= i < j < 5
      ensures !SameImage(DefaultItems()[i], DefaultItems()[j])
    {
      assert DefaultItems()[i].id[0] != DefaultItems()[j].id[0];
    }
    var d := DefaultItems();
    assert CountBefore(d, "Test Items", 1) == 1;
    assert CountBefore(d, "Test Items", 2) == 2;
    assert CountBefore(d, "Test Items", 3) == 3;
    assert CountBefore(d, "Test Items", 4) == 4;
  }

  // ---------------------------------------------------------------------
  // Swimlane dimensions

  /** One member of the swimlane object: a type name and its dimensions, None for an empty object. */
  datatype SwimlaneEntry = SwimlaneEntry(typeName: string, config: Option<CategoryDimensions>)

  /** The view fields the swimlane settings write. */
  datatype DimensionSettings = DimensionSettings(
    dimensions: map<Category, CategoryDimensions>,
    itemWidth: real,
    itemHeight: real,
    spacing: real)

  /** Category a swimlane type configures; unknown types configure the category of the same name. */
  function CategoryForType(typeName: string): Category
  {
    match typeName
    case "default" => "Default"
    case "landscapeType1" => "TV Channels"
    case "landscapeType2" => "Live Channels"
    case "portraitType1" => "Movies"
    case "heroBanner" => "Featured"
    case "settings" => "Settings"
    case "landScapeTypeChannelInfo" => "On Demand"
    case _ => typeName
  }

  /** Categories one non-empty entry writes. */
  function CategoriesWritten(typeName: string): set<Category>
  {
    {CategoryForType(typeName)}
    + (if typeName == "portraitType1" then {"Bein Series", "TV Shows"} else {})
    + (if typeName == "landscapeType2" then {"TV Channels", "Live TV"} else {})
  }

  function ApplySwimlaneEntry(s: DimensionSettings, e: SwimlaneEntry): (r: DimensionSettings)
    ensures e.config.None? ==> r == s
    ensures e.config.Some? ==> r.dimensions.Keys == s.dimensions.Keys + CategoriesWritten(e.typeName)
    ensures e.config.Some? ==> forall c :: c in CategoriesWritten(e.typeName) ==> r.dimensions[c] == e.config.value
    ensures forall c :: c in s.dimensions && c !in CategoriesWritten(e.typeName) ==> r.dimensions[c] == s.dimensions[c]
  {
    match e.config
    case None => s
    case Some(d) =>
      var named := s.dimensions[CategoryForType(e.typeName) := d];
      var sized := if e.typeName == "default"
                   then s.(dimensions := named, itemWidth := d.posterWidth as real, itemHeight := d.posterHeight as real, spacing := d.itemSpacing)
                   else s.(dimensions := named);
      if e.typeName == "portraitType1" then sized.(dimensions := sized.dimensions["Bein Series" := d]["TV Shows" := d])
      else if e.typeName == "landscapeType2" then sized.(dimensions := sized.dimensions["TV Channels" := d]["Live TV" := d])
      else sized
  }

  /** Entries applied in the swimlane object's iteration order; an empty object changes nothing. */
  function ApplySwimlane(s: DimensionSettings, entries: seq<SwimlaneEntry>): DimensionSettings
    decreases |entries|
  {
    if entries == [] then s else ApplySwimlaneEntry(ApplySwimlane(s, entries[..|entries| - 1]), entries[|entries| - 1])
  }

  /**
   * The item size and spacing change only through a non-empty "default"
   * entry, and then take the last such entry's poster size and spacing.
   */
  lemma {:induction false} SwimlaneItemSize(s: DimensionSettings, entries: seq<SwimlaneEntry>)
    ensures (forall i :: 0 <= i < |entries| ==> entries[i].typeName != "default" || entries[i].config.None?) ==>
            ApplySwimlane(s, entries).itemWidth == s.itemWidth &&
            ApplySwimlane(s, entries).itemHeight == s.itemHeight &&
            ApplySwimlane(s, entries).spacing == s.spacing
    ensures entries != [] && entries[|entries| - 1].typeName == "default" && entries[|entries| - 1].config.Some? ==>
            var d := entries[|entries| - 1].config.value;
            ApplySwimlane(s, entries).itemWidth == d.posterWidth as real &&
            ApplySwimlane(s, entries).itemHeight == d.posterHeight as real &&
            ApplySwimlane(s, entries).spacing == d.itemSpacing
    decreases |entries|
  {
    if entries != [] {
      SwimlaneItemSize(s, entries[..|entries| - 1]);
    }
  }

  /** Categories the non-empty entries write. */
  function WrittenBy(entries: seq<SwimlaneEntry>): set<Category>
    decreases |entries|
  {
    if entries == [] then {}
    else
      var e := entries[|entries| - 1];
      WrittenBy(entries[..|entries| - 1]) + (if e.config.Some? then CategoriesWritten(e.typeName) else {})
  }

  /**
   * Categories with dimensions afterwards are those before plus the ones
   * non-empty entries write; a category nobody writes keeps its dimensions.
   */
  lemma {:induction false} SwimlaneKeys(s: DimensionSettings, entries: seq<SwimlaneEntry>)
    ensures ApplySwimlane(s, entries).dimensions.Keys == s.dimensions.Keys + WrittenBy(entries)
    ensures forall c :: c in s.dimensions && c !in WrittenBy(entries) ==> ApplySwimlane(s, entries).dimensions[c] == s.dimensions[c]
    decreases |entries|
  {
    if entries != [] {
      SwimlaneKeys(s, entries[..|entries| - 1]);
    }
  }

  /** In key order landscapeType2 follows landscapeType1, so its dimensions win for "TV Channels". */
  lemma TvChannelsTakeLandscapeType2(s: DimensionSettings, d1: CategoryDimensions, d2: CategoryDimensions)
    ensures ApplySwimlane(s, [SwimlaneEntry("landscapeType1", Some(d1)), SwimlaneEntry("landscapeType2", Some(d2))]).dimensions["TV Channels"] == d2
    ensures ApplySwimlane(s, [SwimlaneEntry("landscapeType1", Some(d1)), SwimlaneEntry("landscapeType2", Some(d2))]).dimensions["Live Channels"] == d2
  {
    var es := [SwimlaneEntry("landscapeType1", Some(d1)), SwimlaneEntry("landscapeType2", Some(d2))];
    assert es[..1] == [SwimlaneEntry("landscapeType1", Some(d1))];
    assert "TV Channels" in CategoriesWritten("landscapeType2");
  }
}
