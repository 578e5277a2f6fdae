/** The library: saved searches and saved magnets, each a list kept under
    its own storage key, newest first. The two fields of `LibraryService`
    stand for what storage holds under the two keys; every operation reads
    the list, changes it and writes it back. The id and timestamp an entry
    gets (`Date.now()` and the ISO time) and whether the write succeeds are
    parameters. */
module Library {
  import opened Js
  import Seqs

  datatype SavedSearch = SavedSearch(id: string, query: string, savedAt: string)

  /** What the caller supplies for a saved magnet: everything but `id` and
      `savedAt`. */
  datatype MagnetData = MagnetData(title: string, magnet: string, infoHash: string, size: string, seeds: int, leeches: int)

  datatype SavedMagnet = SavedMagnet(
    id: string, title: string, magnet: string, infoHash: string,
    size: string, seeds: int, leeches: int, savedAt: string)

  datatype OpResult = OpResult(success: bool, message: string)

  /** What storage returns for a key: nothing, text that does not parse as
      JSON, or a parsed list. */
  datatype Stored<T> = Missing | Malformed | Parsed(items: seq<T>)

  /** `data ? JSON.parse(data) : []` inside its try/catch: a missing or
      unparseable value reads as the empty list. */
  function ReadList<T>(stored: Stored<T>): (r: seq<T>)
    ensures stored.Parsed? ==> r == stored.items
    ensures !stored.Parsed? ==> r == []
  {
    match stored
    case Parsed(items) => items
    case _ => []
  }

  /** `searches.some(s => s.query === query)`, which is also whether
      `searches.find(...)` finds an entry. */
  function SearchSaved(searches: seq<SavedSearch>, query: string): (b: bool)
    ensures b <==> exists i :: 0 <= i < |searches| && searches[i].query == query
  {
    if searches == [] then false
    else searches[0].query == query || SearchSaved(searches[1..], query)
  }

  /** `magnets.some(m => m.magnet === magnet)`. */
  function MagnetSaved(magnets: seq<SavedMagnet>, magnet: string): (b: bool)
    ensures b <==> exists i :: 0 <= i < |magnets| && magnets[i].magnet == magnet
  {
    if magnets == [] then false
    else magnets[0].magnet == magnet || MagnetSaved(magnets[1..], magnet)
  }

  function QueryOf(s: SavedSearch): string
  {
    s.query
  }

  function MagnetOf(m: SavedMagnet): string
  {
    m.magnet
  }

  /** No query is saved twice. */
  ghost predicate UniqueQueries(searches: seq<SavedSearch>)
  {
    Seqs.DistinctBy(searches, QueryOf)
  }

  /** No magnet link is saved twice. */
  ghost predicate UniqueMagnets(magnets: seq<SavedMagnet>)
  {
    Seqs.DistinctBy(magnets, MagnetOf)
  }

  /** Adding a query that is not there keeps the queries distinct. */
  lemma PrependKeepsQueriesUnique(searches: seq<SavedSearch>, entry: SavedSearch)
    requires UniqueQueries(searches) && !SearchSaved(searches, entry.query)
    ensures UniqueQueries([entry] + searches)
  {
    var r := [entry] + searches;
    forall i, j | 0 <= i < j < |r|
      ensures r[i].query != r[j].query
    {
      if i == 0 {
        assert r[j] == searches[j - 1];
      } else {
        assert r[i] == searches[i - 1] && r[j] == searches[j - 1];
      }
    }
  }

  lemma PrependKeepsMagnetsUnique(magnets: seq<SavedMagnet>, entry: SavedMagnet)
    requires UniqueMagnets(magnets) && !MagnetSaved(magnets, entry.magnet)
    ensures UniqueMagnets([entry] + magnets)
  {
    var r := [entry] + magnets;
    forall i, j | 0 <= i < j < |r|
      ensures r[i].magnet != r[j].magnet
    {
      if i == 0 {
        assert r[j] == magnets[j - 1];
      } else {
        assert r[i] == magnets[i - 1] && r[j] == magnets[j - 1];
      }
    }
  }

  /** The list without the entries whose id is `id`. */
  function WithoutSearch(searches: seq<SavedSearch>, id: string): (r: seq<SavedSearch>)
    ensures forall i :: 0 <= i < |r| ==> r[i].id != id && r[i] in searches
    ensures forall i :: 0 <= i < |searches| && searches[i].id != id ==> searches[i] in r
  {
    Seqs.Filter(searches, (s: SavedSearch) => s.id != id)
  }

  function WithoutMagnet(magnets: seq<SavedMagnet>, id: string): (r: seq<SavedMagnet>)
    ensures forall i :: 0 <= i < |r| ==> r[i].id != id && r[i] in magnets
    ensures forall i :: 0 <= i < |magnets| && magnets[i].id != id ==> magnets[i] in r
  {
    Seqs.Filter(magnets, (m: SavedMagnet) => m.id != id)
  }

  /** Removing keeps the other entries in their order: the entries that
      survive from the front of the list come before those from the back. */
  lemma WithoutSearchKeepsOrder(a: seq<SavedSearch>, b: seq<SavedSearch>, id: string)
    ensures WithoutSearch(a + b, id) == WithoutSearch(a, id) + WithoutSearch(b, id)
  {
    Seqs.FilterAppend(a, b, (s: SavedSearch) => s.id != id);
  }

  lemma WithoutMagnetKeepsOrder(a: seq<SavedMagnet>, b: seq<SavedMagnet>, id: string)
    ensures WithoutMagnet(a + b, id) == WithoutMagnet(a, id) + WithoutMagnet(b, id)
  {
    Seqs.FilterAppend(a, b, (m: SavedMagnet) => m.id != id);
  }

  /** Removing an id that is not there changes nothing. */
  lemma WithoutAbsentSearch(searches: seq<SavedSearch>, id: string)
    requires forall i :: 0 <= i < |searches| ==> searches[i].id != id
    ensures WithoutSearch(searches, id) == searches
  {
    Seqs.FilterKeepsAll(searches, (s: SavedSearch) => s.id != id);
  }

  /** Removing entries keeps the queries distinct. */
  lemma WithoutSearchKeepsUnique(searches: seq<SavedSearch>, id: string)
    requires UniqueQueries(searches)
    ensures UniqueQueries(WithoutSearch(searches, id))
  {
    Seqs.FilterKeepsDistinct(searches, (s: SavedSearch) => s.id != id, QueryOf);
  }

  /** Removing entries keeps the magnet links distinct. */
  lemma WithoutMagnetKeepsUnique(magnets: seq<SavedMagnet>, id: string)
    requires UniqueMagnets(magnets)
    ensures UniqueMagnets(WithoutMagnet(magnets, id))
  {
    Seqs.FilterKeepsDistinct(magnets, (m: SavedMagnet) => m.id != id, MagnetOf);
  }

  /** The library service, over the lists storage holds. */
  class LibraryService {
    var searches: seq<SavedSearch>
    var magnets: seq<SavedMagnet>

    /** The service over whatever storage holds under the two keys. */
    constructor (storedSearches: Stored<SavedSearch>, storedMagnets: Stored<SavedMagnet>)
      ensures searches == ReadList(storedSearches) && magnets == ReadList(storedMagnets)
    {
      searches := ReadList(storedSearches);
      magnets := ReadList(storedMagnets);
    }

    /** `addSavedSearch`: refuses a query that is already saved; otherwise
        puts a new entry in front of the list, if the write succeeds. */
    method AddSavedSearch(query: string, id: string, savedAt: string, writeOk: bool) returns (r: OpResult)
      modifies this
      ensures magnets == old(magnets)
      ensures SearchSaved(old(searches), query) ==>
                r == OpResult(false, "Search already saved") && searches == old(searches)
      ensures !SearchSaved(old(searches), query) && writeOk ==>
                r == OpResult(true, "Search saved") && searches == [SavedSearch(id, query, savedAt)] + old(searches)
      ensures !SearchSaved(old(searches), query) && !writeOk ==>
                r == OpResult(false, "Failed to save search") && searches == old(searches)
      ensures UniqueQueries(old(searches)) ==> UniqueQueries(searches)
    {
      if SearchSaved(searches, query) {
        return OpResult(false, "Search already saved");
      }
      var entry := SavedSearch(id, query, savedAt);
      var updated := [entry] + searches;
      if !writeOk {
        return OpResult(false, "Failed to save search");
      }
      if UniqueQueries(searches) {
        PrependKeepsQueriesUnique(searches, entry);
      }
      searches := updated;
      return OpResult(true, "Search saved");
    }

    /** `removeSavedSearch`: drops every entry with this id, keeping the
        others in order; it succeeds whether or not anything matched. */
    method RemoveSavedSearch(id: string, writeOk: bool) returns (r: OpResult)
      modifies this
      ensures magnets == old(magnets)
      ensures writeOk ==> r == OpResult(true, "Search removed") && searches == WithoutSearch(old(searches), id)
      ensures !writeOk ==> r == OpResult(false, "Failed to remove search") && searches == old(searches)
      ensures UniqueQueries(old(searches)) ==> UniqueQueries(searches)
    {
      var filtered := WithoutSearch(searches, id);
      if !writeOk {
        return OpResult(false, "Failed to remove search");
      }
      if UniqueQueries(searches) {
        WithoutSearchKeepsUnique(searches, id);
      }
      searches := filtered;
      return OpResult(true, "Search removed");
    }

    /** `addSavedMagnet`: refuses a magnet link that is already saved;
        otherwise puts a new entry, carrying every supplied field, in front of
        the list, if the write succeeds. */
    method AddSavedMagnet(data: MagnetData, id: string, savedAt: string, writeOk: bool) returns (r: OpResult)
      modifies this
      ensures searches == old(searches)
      ensures MagnetSaved(old(magnets), data.magnet) ==>
                r == OpResult(false, "Already in library") && magnets == old(magnets)
      ensures !MagnetSaved(old(magnets), data.magnet) && writeOk ==>
                && r == OpResult(true, "Added to library")
                && magnets == [SavedMagnet(id, data.title, data.magnet, data.infoHash, data.size,
                                           data.seeds, data.leeches, savedAt)] + old(magnets)
      ensures !MagnetSaved(old(magnets), data.magnet) && !writeOk ==>
                r == OpResult(false, "Failed to add to library") && magnets == old(magnets)
      ensures UniqueMagnets(old(magnets)) ==> UniqueMagnets(magnets)
    {
      if MagnetSaved(magnets, data.magnet) {
        return OpResult(false, "Already in library");
      }
      var entry := SavedMagnet(id, data.title, data.magnet, data.infoHash, data.size,
                               data.seeds, data.leeches, savedAt);
      var updated := [entry] + magnets;
      if !writeOk {
        return OpResult(false, "Failed to add to library");
      }
      if UniqueMagnets(magnets) {
        PrependKeepsMagnetsUnique(magnets, entry);
      }
      magnets := updated;
      return OpResult(true, "Added to library");
    }

    /** `removeSavedMagnet`: drops exactly the entries with this id. */
    method RemoveSavedMagnet(id: string, writeOk: bool) returns (r: OpResult)
      modifies this
      ensures searches == old(searches)
      ensures writeOk ==> r == OpResult(true, "Removed from library") && magnets == WithoutMagnet(old(magnets), id)
      ensures !writeOk ==> r == OpResult(false, "Failed to remove from library") && magnets == old(magnets)
      ensures UniqueMagnets(old(magnets)) ==> UniqueMagnets(magnets)
    {
      if UniqueMagnets(magnets) {
        WithoutMagnetKeepsUnique(magnets, id);
      }
      var filtered := WithoutMagnet(magnets, id);
      if !writeOk {
        return OpResult(false, "Failed to remove from library");
      }
      magnets := filtered;
      return OpResult(true, "Removed from library");
    }

    /** `isMagnetSaved`. */
    function IsMagnetSaved(magnet: string): (b: bool)
      reads this
      ensures b <==> exists i :: 0 <= i < |magnets| && magnets[i].magnet == magnet
    {
      MagnetSaved(magnets, magnet)
    }

    /** `isSearchSaved`. */
    function IsSearchSaved(query: string): (b: bool)
      reads this
      ensures b <==> exists i :: 0 <= i < |searches| && searches[i].query == query
    {
      SearchSaved(searches, query)
    }
  }
}
