/** The torrent search: the query is normalised, sent to the apibay search
    endpoint, and the listed torrents become search results carrying a magnet
    link. The HTTP request is a function parameter from URL to response, and
    `encodeURIComponent` a function parameter that may fail (it throws on a
    lone surrogate). */
module Scraper {
  import opened Js
  import opened JsString

  const BaseUrl := "https://apibay.org"
  const NoResultsName := "No results returned"
  const MagnetPrefix := "magnet:?xt=urn:btih:"

  /** `s.replace(/'/g, ' ')`. */
  function ReplaceQuotes(s: string): (r: string)
    ensures |r| == |s|
    ensures '\'' !in r
    ensures forall i :: 0 <= i < |s| && s[i] != '\'' ==> r[i] == s[i]
    ensures forall i :: 0 <= i < |s| && s[i] == '\'' ==> r[i] == ' '
  {
    seq(|s|, i requires 0 <= i < |s| => if s[i] == '\'' then ' ' else s[i])
  }

  /** No two white-space characters are next to each other. */
  predicate NoSpaceRuns(s: string)
  {
    forall i :: 0 <= i < |s| - 1 ==> !(IsSpace(s[i]) && IsSpace(s[i + 1]))
  }

  /** The only white space is the plain space. */
  predicate PlainSpaces(s: string)
  {
    forall i :: 0 <= i < |s| && IsSpace(s[i]) ==> s[i] == ' '
  }

  /** The characters of `s` that are not white space, in order. */
  function Text(s: string): string
  {
    if s == [] then []
    else if IsSpace(s[0]) then Text(s[1..])
    else [s[0]] + Text(s[1..])
  }

  lemma {:induction false} TextMembers(s: string, x: char)
    ensures x in Text(s) <==> x in s && !IsSpace(x)
  {
    if s != [] {
      TextMembers(s[1..], x);
      assert s == [s[0]] + s[1..];
    }
  }

  /** A string has no text exactly when it is all white space. */
  lemma {:induction false} TextEmpty(s: string)
    ensures Text(s) == [] <==> forall k :: 0 <= k < |s| ==> IsSpace(s[k])
  {
    if s != [] {
      TextEmpty(s[1..]);
      assert forall k :: 1 <= k < |s| ==> s[k] == s[1..][k - 1];
    }
  }

  lemma {:induction false} TextAppend(a: string, b: string)
    ensures Text(a + b) == Text(a) + Text(b)
  {
    if a == [] {
      assert a + b == b;
    } else {
      assert (a + b)[0] == a[0] && (a + b)[1..] == a[1..] + b;
      TextAppend(a[1..], b);
    }
  }

  lemma {:induction false} TextOfTrimStart(s: string)
    ensures Text(TrimStart(s)) == Text(s)
  {
    if s != [] && IsSpace(s[0]) {
      TextOfTrimStart(s[1..]);
    }
  }

  /** White space around a string adds no text. */
  lemma TextBetweenSpaces(pre: string, r: string, post: string)
    requires forall k :: 0 <= k < |pre| ==> IsSpace(pre[k])
    requires forall k :: 0 <= k < |post| ==> IsSpace(post[k])
    ensures Text(pre + r + post) == Text(r)
  {
    TextEmpty(pre);
    TextEmpty(post);
    TextAppend(pre + r, post);
    TextAppend(pre, r);
  }

  /** Trimming removes white space only. */
  lemma TrimKeepsText(c: string)
    ensures Text(Trim(c)) == Text(c)
  {
    TrimShape(c);
    var r, i := Trim(c), |c| - |TrimStart(c)|;
    CutFromSplits(c, i, r, c[..i], c[i + |r|..]);
    TextBetweenSpaces(c[..i], r, c[i + |r|..]);
  }

  /** `s.replace(/\s+/g, ' ')`: every maximal run of white space becomes one
      space. */
  function CollapseSpaces(s: string): (r: string)
    ensures |r| <= |s|
    decreases |s|
  {
    if s == [] then []
    else if IsSpace(s[0]) then [' '] + CollapseSpaces(TrimStart(s[1..]))
    else [s[0]] + CollapseSpaces(s[1..])
  }

  /** What collapsing leaves: no two white-space characters side by side,
      no white space but the plain space, and a first character that is the
      input's, or a space where the input starts with white space. */
  lemma {:induction false} CollapseShape(s: string)
    ensures var r := CollapseSpaces(s);
            && NoSpaceRuns(r) && PlainSpaces(r)
            && (s != [] ==> r != [] && r[0] == (if IsSpace(s[0]) then ' ' else s[0]))
    decreases |s|
  {
    if s != [] {
      if IsSpace(s[0]) {
        var t := TrimStart(s[1..]);
        TrimStartShape(s[1..]);
        CollapseShape(t);
        CollapseSpaceHead(s);
      } else {
        CollapseShape(s[1..]);
        CollapseCharHead(s);
      }
    }
  }

  /** Collapsing touches nothing but white space: the text is unchanged. */
  lemma {:induction false} CollapseKeepsText(s: string)
    ensures Text(CollapseSpaces(s)) == Text(s)
    decreases |s|
  {
    if s != [] {
      if IsSpace(s[0]) {
        var t := TrimStart(s[1..]);
        var rest := CollapseSpaces(t);
        CollapseKeepsText(t);
        TextOfTrimStart(s[1..]);
        assert ([' '] + rest)[1..] == rest;
      } else {
        var rest := CollapseSpaces(s[1..]);
        CollapseKeepsText(s[1..]);
        assert ([s[0]] + rest)[1..] == rest;
      }
    }
  }

  /** Collapsing works piecewise across a boundary that follows a non-space
      character. */
  lemma {:induction false} CollapseAppend(x: string, z: string)
    requires x == [] || !IsSpace(x[|x| - 1])
    ensures CollapseSpaces(x + z) == CollapseSpaces(x) + CollapseSpaces(z)
    decreases |x|
  {
    if x == [] {
      assert x + z == z;
    } else if IsSpace(x[0]) {
      var t := x[1..];
      assert |x| >= 2 && t[|t| - 1] == x[|x| - 1];
      TrimStartKeepsLast(t);
      CollapseAppend(TrimStart(t), z);
      CollapseAppendSpaceStep(x, z);
    } else {
      CollapseAppend(x[1..], z);
      CollapseAppendCharStep(x, z);
    }
  }

  /** The step of `CollapseAppend` for a leading white-space run. */
  lemma CollapseAppendSpaceStep(x: string, z: string)
    requires |x| >= 2 && IsSpace(x[0]) && !IsSpace(x[|x| - 1])
    requires CollapseSpaces(TrimStart(x[1..]) + z) == CollapseSpaces(TrimStart(x[1..])) + CollapseSpaces(z)
    ensures CollapseSpaces(x + z) == CollapseSpaces(x) + CollapseSpaces(z)
  {
    var t, u := x[1..], x + z;
    var a, b := CollapseSpaces(TrimStart(t)), CollapseSpaces(z);
    assert u[0] == x[0] && u[1..] == t + z;
    TrimStartAppend(t, z);
    CollapseSpaceHead(u);
    assert CollapseSpaces(u) == [' '] + CollapseSpaces(TrimStart(t) + z);
    assert CollapseSpaces(u) == [' '] + (a + b);
    CollapseSpaceHead(x);
    assert CollapseSpaces(x) == [' '] + a;
    ConsAssoc(' ', a, b);
  }

  /** The step of `CollapseAppend` for a leading non-space character. */
  lemma CollapseAppendCharStep(x: string, z: string)
    requires x != [] && !IsSpace(x[0])
    requires CollapseSpaces(x[1..] + z) == CollapseSpaces(x[1..]) + CollapseSpaces(z)
    ensures CollapseSpaces(x + z) == CollapseSpaces(x) + CollapseSpaces(z)
  {
    assert (x + z)[0] == x[0] && (x + z)[1..] == x[1..] + z;
    CollapseCharHead(x + z);
    CollapseCharHead(x);
    ConsAssoc(x[0], CollapseSpaces(x[1..]), CollapseSpaces(z));
  }

  lemma ConsAssoc(c: char, a: string, b: string)
    ensures [c] + (a + b) == ([c] + a) + b
  {
  }

  lemma CollapseSpaceHead(s: string)
    requires s != [] && IsSpace(s[0])
    ensures CollapseSpaces(s) == [' '] + CollapseSpaces(TrimStart(s[1..]))
  {
  }

  lemma CollapseCharHead(s: string)
    requires s != [] && !IsSpace(s[0])
    ensures CollapseSpaces(s) == [s[0]] + CollapseSpaces(s[1..])
  {
  }

  /** A run of white space in front of text becomes a single space. */
  lemma CollapseGap(w: string, y: string)
    requires w != [] && forall k :: 0 <= k < |w| ==> IsSpace(w[k])
    requires y == [] || !IsSpace(y[0])
    ensures CollapseSpaces(w + y) == [' '] + CollapseSpaces(y)
  {
    assert (w + y)[0] == w[0];
    assert (w + y)[1..] == w[1..] + y;
    TrimStartOfSpaces(w[1..], y);
  }

  /** `\s+` between two words becomes exactly one space: the run is neither
      dropped nor kept as it was. */
  lemma CollapseWordGap(x: string, w: string, y: string)
    requires x != [] && !IsSpace(x[|x| - 1])
    requires w != [] && forall k :: 0 <= k < |w| ==> IsSpace(w[k])
    requires y == [] || !IsSpace(y[0])
    ensures CollapseSpaces(x + w + y) == CollapseSpaces(x) + " " + CollapseSpaces(y)
  {
    var g := w + y;
    assert x + w + y == x + g;
    CollapseAppend(x, g);
    CollapseGap(w, y);
    var a, b := CollapseSpaces(x), CollapseSpaces(y);
    assert a + ([' '] + b) == a + " " + b;
  }

  /** What a sanitised query looks like. */
  predicate Sanitized(s: string)
  {
    '\'' !in s && Trimmed(s) && NoSpaceRuns(s) && PlainSpaces(s)
  }

  /** The query sanitisation: quotes become spaces, white-space runs become
      one space, and the ends are trimmed. */
  function Sanitize(query: string): (r: string)
    ensures Sanitized(r)
  {
    var q := ReplaceQuotes(query);
    var c := CollapseSpaces(q);
    CollapseShape(q);
    CollapsedHasNoQuote(q);
    TrimOfCollapsed(c);
    Trim(c)
  }

  /** Trimming a collapsed string without quotes gives a sanitised one. */
  lemma TrimOfCollapsed(c: string)
    requires '\'' !in c && NoSpaceRuns(c) && PlainSpaces(c)
    ensures Sanitized(Trim(c))
  {
    TrimShape(c);
    InfixKeepsShape(c, |c| - |TrimStart(c)|, Trim(c));
  }

  lemma CollapsedHasNoQuote(s: string)
    requires '\'' !in s
    ensures '\'' !in CollapseSpaces(s)
  {
    CollapseKeepsText(s);
    TextMembers(s, '\'');
    TextMembers(CollapseSpaces(s), '\'');
  }

  /** What trimming leaves of a collapsed string is still collapsed. */
  lemma InfixKeepsShape(c: string, i: int, r: string)
    requires CutFrom(c, i, r)
    requires '\'' !in c && NoSpaceRuns(c) && PlainSpaces(c)
    ensures '\'' !in r && NoSpaceRuns(r) && PlainSpaces(r)
  {
    assert forall k :: 0 <= k < |r| ==> r[k] == c[i + k];
  }

  /** A collapsed string with no runs and only plain spaces is its own
      collapsing. */
  lemma {:induction false} CollapseOfCollapsed(s: string)
    requires NoSpaceRuns(s) && PlainSpaces(s)
    ensures CollapseSpaces(s) == s
    decreases |s|
  {
    if s != [] {
      assert NoSpaceRuns(s[1..]) && PlainSpaces(s[1..]);
      CollapseOfCollapsed(s[1..]);
      if IsSpace(s[0]) {
        assert TrimStart(s[1..]) == s[1..];
        assert s == [' '] + s[1..];
      } else {
        assert s == [s[0]] + s[1..];
      }
    }
  }

  /** A sanitised query is left as it is. */
  lemma SanitizeOfSanitized(s: string)
    requires Sanitized(s)
    ensures Sanitize(s) == s
  {
    assert ReplaceQuotes(s) == s;
    CollapseOfCollapsed(s);
    TrimOfTrimmed(s);
  }

  /** Two sanitised words separated by any white space (no quotes) come out
      joined by one space: "the  matrix" becomes "the matrix". */
  lemma SanitizeJoinsWords(x: string, w: string, y: string)
    requires x != [] && Sanitized(x) && y != [] && Sanitized(y)
    requires w != [] && forall k :: 0 <= k < |w| ==> IsSpace(w[k]) && w[k] != '\''
    ensures Sanitize(x + w + y) == x + " " + y
  {
    var s := x + w + y;
    assert forall i :: 0 <= i < |s| ==> s[i] != '\'';
    assert ReplaceQuotes(s) == s;
    CollapseWordGap(x, w, y);
    CollapseOfCollapsed(x);
    CollapseOfCollapsed(y);
    TrimOfTrimmed(x + " " + y);
  }

  /** Sanitising twice is sanitising once. */
  lemma SanitizeIdempotent(query: string)
    ensures Sanitize(Sanitize(query)) == Sanitize(query)
  {
    SanitizeOfSanitized(Sanitize(query));
  }

  /** A non-space character survives trimming. */
  lemma TrimKeepsNonSpace(c: string, k: int)
    requires 0 <= k < |c| && !IsSpace(c[k])
    ensures Trim(c) != []
  {
    var r := Trim(c);
    var j := |c| - |TrimStart(c)|;
    TrimShape(c);
    assert j <= k < j + |r|;
  }

  lemma TrimAllSpace(c: string)
    requires forall k :: 0 <= k < |c| ==> IsSpace(c[k])
    ensures Trim(c) == []
  {
    TrimShape(c);
  }

  /** Sanitising changes white space and quotes only: the text of the
      result is the text of the query with its quotes taken out. */
  lemma SanitizeKeepsText(query: string)
    ensures Text(Sanitize(query)) == Text(ReplaceQuotes(query))
  {
    var c := CollapseSpaces(ReplaceQuotes(query));
    CollapseKeepsText(ReplaceQuotes(query));
    TrimKeepsText(c);
  }

  /** The query sanitises to the empty string exactly when it holds nothing
      but white space and quotes. */
  lemma SanitizeBlank(query: string)
    ensures Sanitize(query) == [] <==>
              forall i :: 0 <= i < |query| ==> IsSpace(query[i]) || query[i] == '\''
  {
    var q := ReplaceQuotes(query);
    var c := CollapseSpaces(q);
    assert Sanitize(query) == Trim(c);
    CollapseKeepsText(q);
    TextEmpty(q);
    TextEmpty(c);
    if forall k :: 0 <= k < |c| ==> IsSpace(c[k]) {
      TrimAllSpace(c);
    } else {
      var k :| 0 <= k < |c| && !IsSpace(c[k]);
      TrimKeepsNonSpace(c, k);
    }
  }

  /** The search URL for an encoded query. */
  function SearchUrl(encodedQuery: string): string
  {
    BaseUrl + "/q.php?q=" + encodedQuery + "&cat=0"
  }

  /** One entry of the search response. Seeders, leechers and size are not
      part of this model. */
  datatype ApibayItem = ApibayItem(name: string, infoHash: string)

  /** The parsed response body: a list of entries, or anything else (an
      object, a string, null), on which indexing or `map` throws. */
  datatype ApibayData = ItemList(items: seq<ApibayItem>) | NotAList

  datatype SearchResult = SearchResult(title: string, magnet: string, infoHash: string)

  function MagnetUri(infoHash: string, encodedName: string): string
  {
    MagnetPrefix + infoHash + "&dn=" + encodedName
  }

  /** The info hash a magnet link carries: the text after the prefix up to
      the first `&`. */
  function InfoHashOf(uri: string): Option<string>
  {
    if |uri| >= |MagnetPrefix| && uri[..|MagnetPrefix|] == MagnetPrefix
    then Some(Split(uri[|MagnetPrefix|..], '&')[0])
    else None
  }

  lemma {:induction false} SplitFirstPiece(h: string, rest: string)
    requires '&' !in h
    ensures Split(h + "&" + rest, '&')[0] == h
  {
    if h != [] {
      assert (h + "&" + rest)[1..] == h[1..] + "&" + rest;
      SplitFirstPiece(h[1..], rest);
    }
  }

  /** The magnet link gives back the info hash it was built from (info
      hashes are hexadecimal and never hold `&`). */
  lemma MagnetCarriesInfoHash(infoHash: string, encodedName: string)
    requires '&' !in infoHash
    ensures InfoHashOf(MagnetUri(infoHash, encodedName)) == Some(infoHash)
  {
    var uri := MagnetUri(infoHash, encodedName);
    assert uri[|MagnetPrefix|..] == infoHash + "&" + ("dn=" + encodedName);
    SplitFirstPiece(infoHash, "dn=" + encodedName);
  }

  /** `results.map(...)`: one result per entry, in order; a name that cannot
      be encoded throws, which ends the whole mapping. */
  function ToResults(items: seq<ApibayItem>, encode: string -> Option<string>): (r: Option<seq<SearchResult>>)
    ensures r.Some? <==> forall i :: 0 <= i < |items| ==> encode(items[i].name).Some?
    ensures r.Some? ==> |r.value| == |items|
    ensures r.Some? ==> forall i :: 0 <= i < |items| ==>
              && r.value[i].title == items[i].name
              && r.value[i].infoHash == items[i].infoHash
              && r.value[i].magnet == MagnetUri(items[i].infoHash, encode(items[i].name).value)
  {
    if items == [] then Some([])
    else
      var item := items[0];
      match encode(item.name)
      case None => None
      case Some(name) =>
        match ToResults(items[1..], encode)
        case None =>
          assert exists i :: 1 <= i < |items| && encode(items[i].name).None?;
          None
        case Some(rest) => Some([SearchResult(item.name, MagnetUri(item.infoHash, name), item.infoHash)] + rest)
  }

  /** `searchApibay`. */
  function SearchApibay(query: string, encode: string -> Option<string>,
                        fetch: string -> Transport<ApibayData>): (r: seq<SearchResult>)
    ensures forall i :: 0 <= i < |r| ==> MagnetPrefix <= r[i].magnet
  {
    match encode(Sanitize(query))
    case None => []
    case Some(q) =>
      match fetch(SearchUrl(q))
      case Fail(_) => []
      case Reply(NotAList) => []
      case Reply(ItemList(items)) =>
        if |items| > 0 && items[0].name == NoResultsName then []
        else
          match ToResults(items, encode)
          case None => []
          case Some(results) => results
  }

  /** Every failure of `searchApibay` (encoding, transport, a response that
      is not a list) ends in the empty list, as does the "no results" entry;
      a non-empty answer maps the listed entries one to one. */
  lemma SearchOutcomes(query: string, encode: string -> Option<string>,
                       fetch: string -> Transport<ApibayData>)
    ensures var r := SearchApibay(query, encode, fetch);
            encode(Sanitize(query)).None? ==> r == []
    ensures var r := SearchApibay(query, encode, fetch);
            encode(Sanitize(query)).Some? ==>
              var data := fetch(SearchUrl(encode(Sanitize(query)).value));
              && (data.Fail? || data.body.NotAList? ==> r == [])
              && ((data.Reply? && data.body.ItemList? && |data.body.items| > 0 &&
                   data.body.items[0].name == NoResultsName) ==> r == [])
              && (r != [] ==>
                  && data.Reply? && data.body.ItemList?
                  && var items := data.body.items;
                  && |r| == |items|
                  && items[0].name != NoResultsName
                  && forall i :: 0 <= i < |items| ==>
                       && r[i].title == items[i].name
                       && r[i].infoHash == items[i].infoHash
                       && encode(items[i].name).Some?
                       && r[i].magnet == MagnetUri(items[i].infoHash, encode(items[i].name).value))
  {
  }

  /** When nothing fails and the first entry is a real one, the results are
      the mapping of every entry, one per entry and in order. */
  lemma SearchMapsEveryItem(query: string, encode: string -> Option<string>,
                            fetch: string -> Transport<ApibayData>, items: seq<ApibayItem>)
    requires encode(Sanitize(query)).Some?
    requires fetch(SearchUrl(encode(Sanitize(query)).value)) == Reply(ItemList(items))
    requires |items| > 0 && items[0].name != NoResultsName
    requires forall i :: 0 <= i < |items| ==> encode(items[i].name).Some?
    ensures ToResults(items, encode) == Some(SearchApibay(query, encode, fetch))
  {
  }
}
