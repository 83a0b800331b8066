/**
 * The string logic of the web front end (server.go): the newline rewrite
 * applied to a description before markdown rendering, the routing of the
 * root handler, and the early exits of the torrent and search handlers.
 * HTTP, templates and the markdown renderer are not modelled; a handler's
 * answer is a datatype saying which status and which page data it writes.
 */
module Server {
  import opened Wrappers
  import opened GoStrings
  import Hex
  import Torrents
  import Storage

  /** The placeholder the rewrite parks paragraph breaks in. */
  const Placeholder := "<newline>"

  /**
   * The three `strings.ReplaceAll` passes of `torrentHandler`: paragraph
   * breaks to the placeholder, the remaining newlines to "<br>", the
   * placeholder back to a paragraph break. No placeholder is left in the
   * result, whatever the body contained.
   */
  function Rewrite(body: string): (r: string)
    ensures !Contains(r, Placeholder)
  {
    var parked := ReplaceAll(body, "\n\n", Placeholder);
    var broken := ReplaceAll(parked, "\n", "<br>");
    ReplaceAllRemoves(broken, Placeholder, "\n\n");
    ReplaceAll(broken, Placeholder, "\n\n")
  }

  /**
   * What the rewrite does, in one left-to-right pass: a pair of newlines
   * stays a pair, a literal placeholder becomes a pair, a lone newline
   * becomes "<br>", and every other character is copied.
   */
  function Reference(s: string): string
    decreases |s|
  {
    if s == [] then []
    else if HasPrefix(s, "\n\n") then "\n\n" + Reference(s[2..])
    else if HasPrefix(s, Placeholder) then "\n\n" + Reference(s[|Placeholder|..])
    else if s[0] == '\n' then "<br>" + Reference(s[1..])
    else [s[0]] + Reference(s[1..])
  }

  /** A word none of whose characters starts `pat` is copied through by `ReplaceAll`. */
  lemma ReplaceAllSkipWord(a: string, x: string, pat: string, rep: string)
    requires pat != [] && forall i :: 0 <= i < |a| ==> a[i] != pat[0]
    ensures ReplaceAll(a + x, pat, rep) == a + ReplaceAll(x, pat, rep)
  {
    forall i | 0 <= i < |a| ensures !HasPrefix((a + x)[i..], pat) {
      assert (a + x)[i..][0] == a[i];
    }
    ReplaceAllSkip(a, x, pat, rep);
  }

  /** `<newline>` starts at a character `c` exactly when `c` is '<' and the rest of it follows. */
  lemma PlaceholderAfter(c: char, x: string)
    ensures HasPrefix([c] + x, Placeholder) <==> c == '<' && HasPrefix(x, Placeholder[1..])
  {
    assert ([c] + x)[0] == c;
    if |Placeholder| <= |[c] + x| {
      assert ([c] + x)[..|Placeholder|] == [c] + x[..|Placeholder| - 1];
    }
  }

  /** A paragraph break stays a paragraph break. */
  lemma RewritePair(t: string)
    ensures Rewrite("\n\n" + t) == "\n\n" + Rewrite(t)
  {
    ReplaceAllHead("\n\n", t, Placeholder);
    var p1 := ReplaceAll(t, "\n\n", Placeholder);
    ReplaceAllSkipWord(Placeholder, p1, "\n", "<br>");
    ReplaceAllHead(Placeholder, ReplaceAll(p1, "\n", "<br>"), "\n\n");
  }

  /** A placeholder already in the text becomes a paragraph break. */
  lemma RewritePlaceholder(t: string)
    ensures Rewrite(Placeholder + t) == "\n\n" + Rewrite(t)
  {
    ReplaceAllSkipWord(Placeholder, t, "\n\n", Placeholder);
    var p1 := ReplaceAll(t, "\n\n", Placeholder);
    ReplaceAllSkipWord(Placeholder, p1, "\n", "<br>");
    ReplaceAllHead(Placeholder, ReplaceAll(p1, "\n", "<br>"), "\n\n");
  }

  /** A newline not followed by another becomes "<br>". */
  lemma RewriteLoneNewline(t: string)
    requires !HasPrefix(t, "\n")
    ensures Rewrite("\n" + t) == "<br>" + Rewrite(t)
  {
    assert !HasPrefix("\n" + t, "\n\n");
    ReplaceAllCons('\n', t, "\n\n", Placeholder);
    var p1 := ReplaceAll(t, "\n\n", Placeholder);
    ReplaceAllHead("\n", p1, "<br>");
    var p2 := ReplaceAll(p1, "\n", "<br>");
    forall i | 0 <= i < 4 ensures !HasPrefix(("<br>" + p2)[i..], Placeholder) {
      assert ("<br>" + p2)[i..][0] == "<br>"[i];
      if i == 0 {
        assert ("<br>" + p2)[1] == 'b';
      }
    }
    ReplaceAllSkip("<br>", p2, Placeholder, "\n\n");
  }

  /** Any other character is copied, unless it starts a placeholder. */
  lemma RewriteOther(c: char, t: string)
    requires c != '\n' && !HasPrefix([c] + t, Placeholder)
    ensures Rewrite([c] + t) == [c] + Rewrite(t)
  {
    var nl := "\n";
    assert ([c] + t)[0] == c;
    ReplaceAllCons(c, t, "\n\n", Placeholder);
    var p1 := ReplaceAll(t, "\n\n", Placeholder);
    ReplaceAllCons(c, p1, nl, "<br>");
    var p2 := ReplaceAll(p1, nl, "<br>");
    ReplaceAllPrefixBack(p1, nl, "<br>", Placeholder[1..]);
    ReplaceAllPrefixBack(t, "\n\n", Placeholder, Placeholder[1..]);
    PlaceholderAfter(c, t);
    PlaceholderAfter(c, p2);
    ReplaceAllCons(c, p2, Placeholder, "\n\n");
  }

  /** The three passes compute the one-pass reference, for every body. */
  lemma {:induction false} RewriteIsReference(s: string)
    ensures Rewrite(s) == Reference(s)
    decreases |s|
  {
    if s != [] {
      if HasPrefix(s, "\n\n") {
        assert s == "\n\n" + s[2..];
        RewritePair(s[2..]);
        RewriteIsReference(s[2..]);
      } else if HasPrefix(s, Placeholder) {
        assert s == Placeholder + s[|Placeholder|..];
        RewritePlaceholder(s[|Placeholder|..]);
        RewriteIsReference(s[|Placeholder|..]);
      } else if s[0] == '\n' {
        assert s == "\n" + s[1..];
        assert !HasPrefix(s[1..], "\n");
        RewriteLoneNewline(s[1..]);
        RewriteIsReference(s[1..]);
      } else {
        assert s == [s[0]] + s[1..];
        RewriteOther(s[0], s[1..]);
        RewriteIsReference(s[1..]);
      }
    }
  }

  /** Where `rootHandler` sends a request. */
  datatype Route = IndexPage | ServeFile(siteDir: string, name: string)

  /**
   * `rootHandler`: the request URI without its leading character; the
   * empty name, "index.html" and "index.htm" are the index page, any other
   * name is a file under the site directory.
   */
  function RootRoute(requestUri: string, siteDir: string): (r: Route)
    requires requestUri != []
    ensures r == IndexPage <==> requestUri[1..] in {"", "index.html", "index.htm"}
    ensures r != IndexPage ==> r == ServeFile(siteDir, requestUri[1..])
  {
    var name := requestUri[1..];
    if name == "" || name == "index.html" || name == "index.htm" then IndexPage
    else ServeFile(siteDir, name)
  }

  /** What `torrentHandler` answers. */
  datatype TorrentResponse =
    | BadRequest(decodeError: Hex.DecodeError)
    | LookupFailed(lookupError: Storage.LookupError)
    | TorrentPage(torrent: Torrents.Torrent)

  /** The HTTP status of each answer. */
  function TorrentStatus(r: TorrentResponse): (code: int)
    ensures r.BadRequest? <==> code == 400
    ensures r.LookupFailed? <==> code == 500
    ensures r.TorrentPage? <==> code == 200
  {
    match r
    case BadRequest(_) => 400
    case LookupFailed(_) => 500
    case TorrentPage(_) => 200
  }

  /**
   * `torrentHandler`: a `btih` parameter that is not hex is a 400 decided
   * before the table is consulted; a hash with no row is a 500; otherwise
   * the torrent's page, its body rewritten (before markdown rendering).
   */
  function TorrentHandler(btihParam: string, rows: seq<Storage.Row>): (r: TorrentResponse)
    ensures Hex.Decode(btihParam).Err? ==> r == BadRequest(Hex.Decode(btihParam).error)
    ensures Hex.Decode(btihParam).Ok? ==>
      var found := Storage.SearchTorrentByBtih(rows, Hex.Decode(btihParam).value);
      && (found.Err? ==> r == LookupFailed(found.error))
      && (found.Ok? ==> r == TorrentPage(found.value.(body := Rewrite(found.value.body))))
    ensures r.TorrentPage? ==> r.torrent.btih == Hex.Decode(btihParam).value && !Contains(r.torrent.body, Placeholder)
  {
    match Hex.Decode(btihParam)
    case Err(e) => BadRequest(e)
    case Ok(btih) =>
      match Storage.SearchTorrentByBtih(rows, btih)
      case Err(e) => LookupFailed(e)
      case Ok(t) =>
        TorrentPage(t.(body := Rewrite(t.body)))
  }

  /** The data of the search page. */
  datatype SearchData = SearchData(query: string, orderBy: string, orderDirection: string, list: seq<Torrents.Torrent>)

  /** What `searchHandler` answers. */
  datatype SearchResponse = SearchFailed(reason: string) | SearchPage(data: SearchData)

  /**
   * `searchHandler`: an empty query shows the page with no results and
   * runs no search; otherwise the search's results, or a 500 on its error.
   */
  method SearchHandler(
    query: string, orderBy: string, orderDirection: string,
    execute: (string, string) -> Result<seq<Result<Torrents.Torrent, string>>, string>)
    returns (r: SearchResponse, searched: bool)
    ensures searched <==> query != ""
    ensures query == "" ==> r == SearchPage(SearchData(query, orderBy, orderDirection, []))
    ensures query != "" ==>
      var answer := execute(Storage.SearchSql(orderBy, orderDirection), query);
      var found := if answer.Err? then Err(answer.error) else Storage.Collect(answer.value);
      && (found.Err? ==> r == SearchFailed(found.error))
      && (found.Ok? ==> r == SearchPage(SearchData(query, orderBy, orderDirection, found.value)))
  {
    var data := SearchData(query, orderBy, orderDirection, []);
    if query == "" {
      return SearchPage(data), false;
    }
    searched := true;
    var found := Storage.SearchTorrentsByTitle(query, orderBy, orderDirection, execute);
    if found.Err? {
      return SearchFailed(found.error), searched;
    }
    r := SearchPage(data.(list := found.value));
  }
}
