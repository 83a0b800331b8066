/**
 * The string logic of the rutor scraper (sources/rutor/rutor.go). HTTP and
 * the HTML document are not modelled: a fetched page arrives as the text of
 * its <title>, the already converted description, the download link's href
 * (already through `url.Parse`) and the heading/value rows of its details table.
 */
module Rutor {
  import opened Wrappers
  import opened GoStrings
  import opened Decimal
  import Hex
  import Magnets
  import Torrents

  /** The site name the page title starts with. */
  const TitlePrefix := "new-rutor.org :: "
  /** Labels of the details-table rows holding the publication time and the size. */
  const TimeLabel := "Добавлен"
  const SizeLabel := "Размер"

  /**
   * `getTorrentIDFromURL`: after an optional "/torrent/", the text up to the
   * next '/' read by `Atoi`; 0 when there is no such '/' or `Atoi` fails.
   */
  function TorrentIdFromUrl(s: string): (id: int)
    ensures -(Int64Bound as int) <= id < Int64Bound
    ensures '/' !in TrimPrefix(s, "/torrent/") ==> id == 0
  {
    var t := TrimPrefix(s, "/torrent/");
    var p := Index(t, "/");
    if p < 0 then
      0
    else
      match Atoi(t[..p])
      case Ok(n) => n
      case Err(_) => 0
  }

  /** A segment that `Atoi` rejects gives 0. */
  lemma NonNumericSegment(seg: string, slug: string)
    requires '/' !in seg && Atoi(seg).Err?
    ensures TorrentIdFromUrl("/torrent/" + seg + "/" + slug) == 0
  {
    var s := "/torrent/" + seg + "/" + slug;
    assert s[..9] == "/torrent/";
    assert TrimPrefix(s, "/torrent/") == seg + "/" + slug;
    assert (seg + "/" + slug)[..|seg|] == seg;
    IndexOfFirstChar(seg + "/" + slug, '/', |seg|);
  }

  /** `/torrent/<n>/<slug>` yields `n` for every id `%d` can print within int64. */
  lemma TorrentIdOfPath(n: nat, slug: string)
    requires n < Int64Bound
    ensures TorrentIdFromUrl("/torrent/" + Show(n) + "/" + slug) == n
  {
    var seg := Show(n);
    var s := "/torrent/" + seg + "/" + slug;
    assert s[..9] == "/torrent/";
    assert TrimPrefix(s, "/torrent/") == seg + "/" + slug;
    assert (seg + "/" + slug)[..|seg|] == seg;
    assert '/' !in seg by {
      forall i | 0 <= i < |seg| ensures seg[i] != '/' { assert IsDigit(seg[i]); }
    }
    IndexOfFirstChar(seg + "/" + slug, '/', |seg|);
    AtoiShow(n);
  }

  lemma ShowFirstTestId()
    ensures Show(758938) == "758938"
  {
    assert Show(7) == "7" && Show(75) == "75" && Show(758) == "758";
    assert Show(7589) == "7589" && Show(75893) == "75893";
  }

  lemma ShowSecondTestId()
    ensures Show(758917) == "758917"
  {
    assert Show(7) == "7" && Show(75) == "75" && Show(758) == "758";
    assert Show(7589) == "7589" && Show(75891) == "75891";
  }

  /** The first URL of the repository's test table, with its slug or any other. */
  lemma FirstTestUrl(slug: string)
    ensures TorrentIdFromUrl("/torrent/758938/" + slug) == 758938
  {
    ShowFirstTestId();
    assert "/torrent/" + "758938" + "/" == "/torrent/758938/";
    TorrentIdOfPath(758938, slug);
  }

  /** The second URL of the repository's test table, with its slug or any other. */
  lemma SecondTestUrl(slug: string)
    ensures TorrentIdFromUrl("/torrent/758917/" + slug) == 758917
  {
    ShowSecondTestId();
    assert "/torrent/" + "758917" + "/" == "/torrent/758917/";
    TorrentIdOfPath(758917, slug);
  }

  /**
   * The loop of `MaxTorrentID`: the running maximum, from 0, of `idOf` over
   * the links' hrefs (an absent href is "").
   */
  method MaxLinkId(hrefs: seq<string>, idOf: string -> int) returns (maxId: int)
    ensures maxId >= 0
    ensures forall i :: 0 <= i < |hrefs| ==> idOf(hrefs[i]) <= maxId
    ensures maxId != 0 ==> exists i :: 0 <= i < |hrefs| && idOf(hrefs[i]) == maxId
  {
    maxId := 0;
    for k := 0 to |hrefs|
      invariant maxId >= 0
      invariant forall i :: 0 <= i < k ==> idOf(hrefs[i]) <= maxId
      invariant maxId != 0 ==> exists i :: 0 <= i < k && idOf(hrefs[i]) == maxId
    {
      var id := idOf(hrefs[k]);
      if id > maxId {
        maxId := id;
      }
    }
  }

  /**
   * `MaxTorrentID` once the index page is in hand: the largest id of its
   * links by `getTorrentIDFromURL`, or 0. A failed fetch or parse of the page
   * is returned as it is.
   */
  method MaxTorrentId(index: Result<seq<string>, string>) returns (r: Result<int, string>)
    ensures index.Err? ==> r == Err(index.error)
    ensures index.Ok? ==> r.Ok? && r.value >= 0
    ensures index.Ok? ==> forall i :: 0 <= i < |index.value| ==> TorrentIdFromUrl(index.value[i]) <= r.value
    ensures index.Ok? && r.value != 0 ==> exists i :: 0 <= i < |index.value| && TorrentIdFromUrl(index.value[i]) == r.value
  {
    if index.Err? {
      return Err(index.error);
    }
    var maxId := MaxLinkId(index.value, TorrentIdFromUrl);
    return Ok(maxId);
  }

  /** One row of the details table: the text of its first and second cells. */
  datatype DetailRow = DetailRow(heading: string, value: string)

  /** A fetched torrent page, as far as the parse steps look at it. */
  datatype Page = Page(title: string, body: string, downloadHref: Option<Magnets.Url>, details: seq<DetailRow>)

  /** The errors of the five parse steps. */
  datatype StepError =
    | HrefMissing
    | MagnetFailure(cause: Magnets.MagnetError)
    | TimeNotFound
    | UnexpectedTimeFormat(text: string)
    | TimeParse(reason: string)
    | SizeTagNotFound
    | SizeFieldCount(count: nat)
    | SizeNumber(numError: NumError)

  /** `GetTorrentByID`'s errors: transport ones as they are, parse ones prefixed with "<id>: ". */
  datatype FetchError = Transport(reason: string) | Step(id: int, cause: StepError)

  /** The value of the first row headed `heading`, or "" when there is none. */
  function RowText(rows: seq<DetailRow>, heading: string): (v: string)
    ensures (forall i :: 0 <= i < |rows| ==> rows[i].heading != heading) ==> v == ""
    ensures forall k ::
      (0 <= k < |rows| && rows[k].heading == heading && (forall i :: 0 <= i < k ==> rows[i].heading != heading))
      ==> v == rows[k].value
  {
    if rows == [] then ""
    else if rows[0].heading == heading then rows[0].value
    else
      assert forall i :: 1 <= i < |rows| ==> rows[i] == rows[1..][i - 1];
      RowText(rows[1..], heading)
  }

  /** The find-first loop of `parsePublicationTime` and `parseSize`: stops at the first row with the heading. */
  method FindRowText(rows: seq<DetailRow>, heading: string) returns (text: string)
    ensures text == RowText(rows, heading)
  {
    text := "";
    var k := 0;
    while k < |rows|
      invariant 0 <= k <= |rows|
      invariant forall i :: 0 <= i < k ==> rows[i].heading != heading
    {
      if rows[k].heading == heading {
        text := rows[k].value;
        return;
      }
      k := k + 1;
    }
  }

  /** `parseTitle`: the title with one leading "new-rutor.org :: " removed; other titles unchanged. */
  function ParseTitle(title: string): (r: string)
    ensures HasPrefix(title, TitlePrefix) ==> TitlePrefix + r == title
    ensures !HasPrefix(title, TitlePrefix) ==> r == title
  {
    TrimPrefix(title, TitlePrefix)
  }

  /** `parseMagnet`: the hash of the download link's magnet, whatever its URN type. */
  function MagnetHash(href: Option<Magnets.Url>): (r: Result<seq<Hex.byte>, StepError>)
    ensures href.None? ==> r == Err(HrefMissing)
    ensures href.Some? ==> (r.Ok? <==> Magnets.ParseMagnet(href.value).Ok?)
    ensures href.Some? && r.Ok? ==> r.value == Magnets.ParseMagnet(href.value).value.urnHash
    ensures href.Some? && r.Err? ==> r.error == MagnetFailure(Magnets.ParseMagnet(href.value).error)
  {
    match href
    case None => Err(HrefMissing)
    case Some(u) =>
      match Magnets.ParseMagnet(u)
      case Err(e) => Err(MagnetFailure(e))
      case Ok(m) => Ok(m.urnHash)
  }

  /**
   * The checks of `parsePublicationTime` once the row text is found: an empty
   * text is "time not found", a text without a double space is rejected, and
   * only the part before the first double space goes to `parseTime` (which
   * stands for `time.ParseInLocation` with the layout "02-01-2006 15:04:05").
   */
  function TimeFromText(text: string, parseTime: string -> Result<int, string>): (r: Result<int, StepError>)
    ensures text == "" ==> r == Err(TimeNotFound)
    ensures text != "" && !Contains(text, "  ") ==> r == Err(UnexpectedTimeFormat(text))
    ensures r.Ok? ==> exists p :: (0 <= p <= |text| && OccursAt(text, "  ", p)
      && (forall i :: 0 <= i < p ==> !OccursAt(text, "  ", i)) && parseTime(text[..p]) == Ok(r.value))
  {
    if text == "" then Err(TimeNotFound)
    else
      var p := Index(text, "  ");
      if p < 0 then Err(UnexpectedTimeFormat(text))
      else
        match parseTime(text[..p])
        case Err(reason) => Err(TimeParse(reason))
        case Ok(t) => Ok(t)
  }

  /** Only the part before the first double space is read; what follows it is never inspected. */
  lemma TimeIgnoresTail(prefix: string, tail: string, parseTime: string -> Result<int, string>)
    requires !Contains(prefix + " ", "  ")
    ensures TimeFromText(prefix + "  " + tail, parseTime) ==
      match parseTime(prefix) case Ok(t) => Ok(t) case Err(reason) => Err(TimeParse(reason))
  {
    var text := prefix + "  " + tail;
    var p := |prefix|;
    assert OccursAt(text, "  ", p) by { assert text[p..p + 2] == "  "; }
    forall i | 0 <= i < p ensures !OccursAt(text, "  ", i) {
      assert !OccursAt(prefix + " ", "  ", i);
      assert text[i..i + 2] == (prefix + " ")[i..i + 2];
    }
    assert Index(text, "  ") == p;
    assert text[..p] == prefix;
  }

  /**
   * The checks of `parseSize` once the row text is found: it must split
   * into exactly four fields, and the third one without its first byte is
   * read by `ParseUint`. A non-ASCII first character leaves a UTF-8
   * continuation byte in front, which `ParseUint` rejects as a syntax error.
   */
  function SizeFromText(text: string): (r: Result<Torrents.uint64, StepError>)
    ensures text == "" ==> r == Err(SizeTagNotFound)
    ensures text != "" && |Fields(text)| != 4 ==> r == Err(SizeFieldCount(|Fields(text)|))
    ensures r.Ok? <==> (text != "" && |Fields(text)| == 4 && (Fields(text)[2][0] as int) < 0x80
      && ParseUint(Fields(text)[2][1..]).Ok?)
    ensures r.Ok? ==> r.value == Value(Fields(text)[2][1..])
  {
    if text == "" then Err(SizeTagNotFound)
    else
      var fields := Fields(text);
      if |fields| != 4 then Err(SizeFieldCount(|fields|))
      else
        var f := fields[2];
        if (f[0] as int) >= 0x80 then Err(SizeNumber(ErrSyntax))
        else
          match ParseUint(f[1..])
          case Err(e) => Err(SizeNumber(e))
          case Ok(n) => Ok(n)
  }

  /** `w` is a possible field: non-empty and free of white space. */
  predicate IsWord(w: string) {
    w != [] && forall i :: 0 <= i < |w| ==> !IsSpace(w[i])
  }

  lemma {:induction false} WordLengthOfWord(w: string, x: string)
    requires forall i :: 0 <= i < |w| ==> !IsSpace(w[i])
    requires x == [] || IsSpace(x[0])
    ensures WordLength(w + x) == |w|
    decreases |w|
  {
    if w == [] {
      assert w + x == x;
    } else {
      assert (w + x)[1..] == w[1..] + x;
      WordLengthOfWord(w[1..], x);
    }
  }

  /** A word followed by a space is the first field. */
  lemma FieldsOfWord(w: string, rest: string)
    requires IsWord(w)
    ensures Fields(w + " " + rest) == [w] + Fields(rest)
  {
    var s := w + " " + rest;
    WordLengthOfWord(w, " " + rest);
    assert s == w + (" " + rest);
    assert s[..|w|] == w;
    assert s[|w|..] == " " + rest;
    assert (" " + rest)[1..] == rest;
  }

  lemma FieldsOfLastWord(w: string)
    requires IsWord(w)
    ensures Fields(w) == [w]
  {
    WordLengthOfWord(w, []);
    assert w + [] == w;
    assert w[|w|..] == [];
  }

  /** The four fields of a size cell as the site writes it. */
  lemma FieldsOfSizeText(shown: string, unit: string, third: string, tail: string)
    requires IsWord(shown) && IsWord(unit) && IsWord(third) && IsWord(tail)
    ensures Fields(shown + " " + (unit + " " + (third + " " + tail))) == [shown, unit, third, tail]
  {
    var r3 := third + " " + tail;
    var r2 := unit + " " + r3;
    FieldsOfLastWord(tail);
    FieldsOfWord(third, tail);
    assert Fields(r3) == [third, tail];
    FieldsOfWord(unit, r3);
    assert Fields(r2) == [unit, third, tail];
    FieldsOfWord(shown, r2);
  }

  /**
   * The size cell as the site writes it, "<number> <unit> (<bytes> <word>",
   * yields the byte count between the parenthesis and the next space.
   */
  lemma SizeOfSiteText(shown: string, unit: string, n: nat, tail: string)
    requires IsWord(shown) && IsWord(unit) && IsWord(tail)
    requires n < Uint64Limit
    ensures SizeFromText(shown + " " + unit + " " + "(" + Show(n) + " " + tail) == Ok(n)
  {
    var digits := Show(n);
    var third := "(" + digits;
    assert IsWord(third) by {
      forall i | 0 <= i < |third| ensures !IsSpace(third[i]) {
        if i > 0 { assert third[i] == digits[i - 1] && IsDigit(digits[i - 1]); }
      }
    }
    var text := shown + " " + unit + " " + "(" + Show(n) + " " + tail;
    assert text == shown + " " + (unit + " " + (third + " " + tail));
    FieldsOfSizeText(shown, unit, third, tail);
    assert third[1..] == digits;
    ValueOfShow(n);
    assert ParseUint(digits).Ok?;
  }

  /** `parsePublicationTime`: find the "Добавлен" row, then `TimeFromText`. */
  method ParsePublicationTime(rows: seq<DetailRow>, parseTime: string -> Result<int, string>) returns (r: Result<int, StepError>)
    ensures r == TimeFromText(RowText(rows, TimeLabel), parseTime)
  {
    var text := FindRowText(rows, TimeLabel);
    r := TimeFromText(text, parseTime);
  }

  /** `parseSize`: find the "Размер" row, then `SizeFromText`. */
  method ParseSize(rows: seq<DetailRow>) returns (r: Result<Torrents.uint64, StepError>)
    ensures r == SizeFromText(RowText(rows, SizeLabel))
  {
    var text := FindRowText(rows, SizeLabel);
    r := SizeFromText(text);
  }

  /**
   * `GetTorrentByID`: title, body, magnet, time, size in that order. A
   * transport failure is returned as it is; the first failing parse step
   * is returned as `Step(id, ...)`; otherwise the torrent is made of the
   * five steps' results.
   */
  method GetTorrentById(id: int, fetched: Result<Page, string>, parseTime: string -> Result<int, string>)
    returns (r: Result<Torrents.Torrent, FetchError>)
    ensures fetched.Err? ==> r == Err(Transport(fetched.error))
    ensures fetched.Ok? ==>
      var page := fetched.value;
      var magnet := MagnetHash(page.downloadHref);
      var time := TimeFromText(RowText(page.details, TimeLabel), parseTime);
      var size := SizeFromText(RowText(page.details, SizeLabel));
      && (magnet.Err? ==> r == Err(Step(id, magnet.error)))
      && (magnet.Ok? && time.Err? ==> r == Err(Step(id, time.error)))
      && (magnet.Ok? && time.Ok? && size.Err? ==> r == Err(Step(id, size.error)))
      && (r.Ok? <==> magnet.Ok? && time.Ok? && size.Ok?)
      && (r.Ok? ==> r.value == Torrents.Torrent(ParseTitle(page.title), page.body, magnet.value, time.value, size.value))
  {
    if fetched.Err? {
      return Err(Transport(fetched.error));
    }
    var page := fetched.value;
    var title := ParseTitle(page.title);
    var body := page.body;
    var magnet := MagnetHash(page.downloadHref);
    if magnet.Err? {
      return Err(Step(id, magnet.error));
    }
    var time := ParsePublicationTime(page.details, parseTime);
    if time.Err? {
      return Err(Step(id, time.error));
    }
    var size := ParseSize(page.details);
    if size.Err? {
      return Err(Step(id, size.error));
    }
    r := Ok(Torrents.Torrent(title, body, magnet.value, time.value, size.value));
  }
}
