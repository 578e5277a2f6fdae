/** The poster catalogue: a text file listing one image file name per line,
    `{imdbId}.{ext}`, is read into a map from IMDb id to file name, and a
    batch of ids is answered with the image URLs of those the catalogue
    holds. The download of the catalogue is a parameter. */
module Posters {
  import opened Js
  import opened JsString
  import Seqs

  const BaseImageUrl := "https://posters.jwd.me/raw/"

  /** `/^tt\d+$/`: `tt` and at least one ASCII digit, nothing else. */
  predicate IsImdbId(s: string)
  {
    |s| >= 3 && s[0] == 't' && s[1] == 't' && forall i :: 2 <= i < |s| ==> IsDigit(s[i])
  }

  /** The key a trimmed catalogue line files its name under: the text before
      the last `.`, when that is an IMDb id. */
  function LineKey(filename: string): (r: Option<string>)
    ensures (forall k :: 0 <= k < |filename| ==> filename[k] != '.') ==> r == None
    ensures var d := LastIndexOf(filename, '.');
            d >= 0 && IsImdbId(filename[..d]) ==> r == Some(filename[..d])
    ensures r.Some? ==>
              && IsImdbId(r.value)
              && |r.value| < |filename| && filename[..|r.value|] == r.value && filename[|r.value|] == '.'
              && forall k :: |r.value| < k < |filename| ==> filename[k] != '.'
  {
    var dot := LastIndexOf(filename, '.');
    if dot == -1 then None
    else
      var id := filename[..dot];
      if IsImdbId(id) then Some(id) else None
  }

  /** A line `filter((line) => line.trim())` keeps. */
  predicate NonBlank(line: string)
  {
    Trim(line) != []
  }

  /** The lines `split('\n')` gives, without the blank ones. */
  function CatalogLines(text: string): (r: seq<string>)
    ensures forall i :: 0 <= i < |r| ==> NonBlank(r[i]) && r[i] in Split(text, '\n')
    ensures var lines := Split(text, '\n');
            forall i :: 0 <= i < |lines| && NonBlank(lines[i]) ==> lines[i] in r
  {
    Seqs.Filter(Split(text, '\n'), NonBlank)
  }

  /** The file name each line stands for: the line, trimmed. */
  function Filenames(lines: seq<string>): (r: seq<string>)
    ensures |r| == |lines|
    ensures forall i :: 0 <= i < |lines| ==> r[i] == Trim(lines[i])
  {
    if lines == [] then []
    else Filenames(lines[..|lines| - 1]) + [Trim(lines[|lines| - 1])]
  }

  lemma FilenamesSnoc(lines: seq<string>, i: int)
    requires 0 <= i < |lines|
    ensures Filenames(lines[..i + 1]) == Filenames(lines[..i]) + [Trim(lines[i])]
  {
    assert lines[..i + 1][..i] == lines[..i];
  }

  /** Trimming a non-blank line leaves a non-empty name. */
  lemma {:induction false} FilenamesNonEmpty(lines: seq<string>)
    requires forall i :: 0 <= i < |lines| ==> NonBlank(lines[i])
    ensures forall i :: 0 <= i < |lines| ==> Filenames(lines)[i] != []
  {
    if lines != [] {
      var init := lines[..|lines| - 1];
      assert forall i :: 0 <= i < |init| ==> init[i] == lines[i];
      FilenamesNonEmpty(init);
    }
  }

  /** The file names a downloaded catalogue lists, in order: none of them is
      empty. */
  function CatalogNames(text: string): (r: seq<string>)
    ensures forall i :: 0 <= i < |r| ==> r[i] != []
  {
    var lines := CatalogLines(text);
    FilenamesNonEmpty(lines);
    Filenames(lines)
  }

  /** One step of the loading loop: a name with a key sets that key to the
      name; any other name leaves the map alone. */
  function AddName(catalog: map<string, string>, filename: string): (r: map<string, string>)
    ensures LineKey(filename).None? ==> r == catalog
    ensures LineKey(filename).Some? ==>
              var id := LineKey(filename).value;
              && r.Keys == catalog.Keys + {id} && r[id] == filename
              && forall k :: k in catalog && k != id ==> r[k] == catalog[k]
  {
    match LineKey(filename)
    case Some(id) => catalog[id := filename]
    case None => catalog
  }

  /** The map after the loading loop has run over `names`. */
  function AddNames(catalog: map<string, string>, names: seq<string>): (r: map<string, string>)
    ensures catalog.Keys <= r.Keys
    ensures forall id :: id in r ==>
              (id in catalog && r[id] == catalog[id]) || exists i :: 0 <= i < |names| && r[id] == names[i]
    ensures forall id :: id in catalog && (forall i :: 0 <= i < |names| ==> LineKey(names[i]) != Some(id)) ==>
              r[id] == catalog[id]
  {
    if names == [] then catalog
    else AddName(AddNames(catalog, names[..|names| - 1]), names[|names| - 1])
  }

  lemma AddNamesSnoc(catalog: map<string, string>, names: seq<string>, filename: string)
    ensures AddNames(catalog, names + [filename]) == AddName(AddNames(catalog, names), filename)
  {
    assert (names + [filename])[..|names|] == names;
  }

  /** Loading one more line is one more step of the fold. */
  lemma AddLinesStep(catalog: map<string, string>, lines: seq<string>, i: int)
    requires 0 <= i < |lines|
    ensures AddNames(catalog, Filenames(lines[..i + 1])) == AddName(AddNames(catalog, Filenames(lines[..i])), Trim(lines[i]))
  {
    FilenamesSnoc(lines, i);
    AddNamesSnoc(catalog, Filenames(lines[..i]), Trim(lines[i]));
  }

  /** Every entry is filed under the key its own name gives. */
  ghost predicate ValidCatalog(catalog: map<string, string>)
  {
    forall id :: id in catalog ==> LineKey(catalog[id]) == Some(id)
  }

  /** Loading keeps a catalogue valid; in particular every key is an IMDb id
      and every stored name is that id followed by a `.` and an extension. */
  lemma {:induction false} AddNamesValid(catalog: map<string, string>, names: seq<string>)
    requires ValidCatalog(catalog)
    ensures ValidCatalog(AddNames(catalog, names))
    ensures forall id :: id in AddNames(catalog, names) ==>
              && IsImdbId(id)
              && |id| < |AddNames(catalog, names)[id]|
              && AddNames(catalog, names)[id][..|id|] == id
  {
    if names != [] {
      AddNamesValid(catalog, names[..|names| - 1]);
      AddNameValid(AddNames(catalog, names[..|names| - 1]), names[|names| - 1]);
    }
    ValidCatalogShape(AddNames(catalog, names));
  }

  /** One step of the loop keeps a catalogue valid. */
  lemma AddNameValid(catalog: map<string, string>, filename: string)
    requires ValidCatalog(catalog)
    ensures ValidCatalog(AddName(catalog, filename))
  {
  }

  /** In a valid catalogue every key is an IMDb id and the name filed under
      it starts with it. */
  lemma ValidCatalogShape(catalog: map<string, string>)
    requires ValidCatalog(catalog)
    ensures forall id :: id in catalog ==>
              IsImdbId(id) && |id| < |catalog[id]| && catalog[id][..|id|] == id
  {
    forall id | id in catalog
      ensures IsImdbId(id) && |id| < |catalog[id]| && catalog[id][..|id|] == id
    {
      assert LineKey(catalog[id]) == Some(id);
    }
  }

  /** The keys after loading are the keys before and those the names give. */
  lemma {:induction false} AddNamesKeys(catalog: map<string, string>, names: seq<string>, id: string)
    ensures id in AddNames(catalog, names) <==>
              id in catalog || exists i :: 0 <= i < |names| && LineKey(names[i]) == Some(id)
  {
    if names != [] {
      var init, last := names[..|names| - 1], names[|names| - 1];
      AddNamesKeys(catalog, init, id);
      assert id in AddNames(catalog, names) <==> id in AddNames(catalog, init) || LineKey(last) == Some(id);
      assert forall i :: 0 <= i < |init| ==> init[i] == names[i];
    }
  }

  /** For a key given by several names the last of them wins. */
  lemma {:induction false} LaterNameWins(catalog: map<string, string>, names: seq<string>, i: int, id: string)
    requires 0 <= i < |names| && LineKey(names[i]) == Some(id)
    requires forall j :: i < j < |names| ==> LineKey(names[j]) != Some(id)
    ensures id in AddNames(catalog, names) && AddNames(catalog, names)[id] == names[i]
  {
    if i < |names| - 1 {
      var init := names[..|names| - 1];
      assert init[i] == names[i];
      LaterNameWins(catalog, init, i, id);
    }
  }

  predicate NonEmpty(filename: string)
  {
    filename != []
  }

  /** The `if (!filename) continue` of the loop is redundant: an empty name
      has no key, so dropping the empty names gives the same map. */
  lemma {:induction false} EmptyNamesChangeNothing(catalog: map<string, string>, names: seq<string>)
    ensures AddNames(catalog, Seqs.Filter(names, NonEmpty)) == AddNames(catalog, names)
  {
    if names != [] {
      var init, last := names[..|names| - 1], names[|names| - 1];
      assert names == init + [last];
      EmptyNamesChangeNothing(catalog, init);
      Seqs.FilterAppend(init, [last], NonEmpty);
      var f := Seqs.Filter(init, NonEmpty);
      AddNamesSnoc(catalog, init, last);
      if NonEmpty(last) {
        assert Seqs.Filter([last], NonEmpty) == [last] by {
          assert [last][1..] == [];
        }
        AddNamesSnoc(catalog, f, last);
      } else {
        assert Seqs.Filter([last], NonEmpty) == [] by {
          assert [last][1..] == [];
        }
        assert f + [] == f;
        assert LineKey(last) == None;
      }
    }
  }

  /** The argument of `getPostersByImdbIds`: a list of ids, or a value that
      is not an array. */
  datatype IdsArg = IdList(ids: seq<string>) | NotAList

  class PostersService {
    var catalog: map<string, string>
    var isCatalogLoaded: bool

    /** The catalogue as the module starts: empty and not loaded. */
    constructor ()
      ensures catalog == map[] && !isCatalogLoaded
    {
      catalog := map[];
      isCatalogLoaded := false;
    }

    /** One pass of the loading loop: the line is trimmed and, when the
        text before its last `.` is an IMDb id, filed under that id. */
    method AddCatalogLine(line: string)
      modifies this
      ensures catalog == AddName(old(catalog), Trim(line))
      ensures isCatalogLoaded == old(isCatalogLoaded)
    {
      var filename := Trim(line);
      if filename == [] {
        return;
      }
      var lastDot := LastIndexOf(filename, '.');
      if lastDot == -1 {
        assert LineKey(filename) == None;
        return;
      }
      var imdbId := filename[..lastDot];
      if IsImdbId(imdbId) {
        catalog := catalog[imdbId := filename];
      }
    }

    /** The loop of `loadCatalog` over the kept lines, in order. */
    method AddCatalogLines(lines: seq<string>)
      modifies this
      ensures catalog == AddNames(old(catalog), Filenames(lines))
      ensures isCatalogLoaded == old(isCatalogLoaded)
    {
      ghost var start := catalog;
      for i := 0 to |lines|
        invariant catalog == AddNames(start, Filenames(lines[..i]))
        invariant isCatalogLoaded == old(isCatalogLoaded)
      {
        AddLinesStep(start, lines, i);
        AddCatalogLine(lines[i]);
      }
      assert lines[..|lines|] == lines;
    }

    /** `loadCatalog` once the download has settled: a failed download
        leaves the map as it was and marks the catalogue not loaded; a
        successful one runs every non-blank line, trimmed, through the
        parser and marks the catalogue loaded. */
    method LoadCatalog(fetched: Transport<string>)
      modifies this
      ensures fetched.Fail? ==> catalog == old(catalog) && !isCatalogLoaded
      ensures fetched.Reply? ==>
                catalog == AddNames(old(catalog), CatalogNames(fetched.body)) && isCatalogLoaded
      ensures ValidCatalog(old(catalog)) ==> ValidCatalog(catalog)
    {
      if fetched.Fail? {
        isCatalogLoaded := false;
      } else {
        AddCatalogLines(CatalogLines(fetched.body));
        isCatalogLoaded := true;
        if ValidCatalog(old(catalog)) {
          AddNamesValid(old(catalog), CatalogNames(fetched.body));
        }
      }
    }

    /** `getPostersByImdbIds`: for each requested id the catalogue holds, its
        image URL; nothing for a missing or empty list, nor while the
        catalogue is not loaded or empty. */
    method GetPostersByImdbIds(arg: IdsArg) returns (result: map<string, string>)
      ensures (arg.NotAList? || |arg.ids| == 0 || !isCatalogLoaded || |catalog| == 0) ==> result == map[]
      ensures arg.IdList? && isCatalogLoaded ==>
                forall id :: id in result <==> id in arg.ids && id in catalog && catalog[id] != []
      ensures forall id :: id in result ==> id in catalog && result[id] == BaseImageUrl + catalog[id]
    {
      if arg.NotAList? || |arg.ids| == 0 {
        return map[];
      }
      if !isCatalogLoaded || |catalog| == 0 {
        return map[];
      }
      var ids := arg.ids;
      result := map[];
      for i := 0 to |ids|
        invariant forall id :: id in result <==> id in ids[..i] && id in catalog && catalog[id] != []
        invariant forall id :: id in result ==> id in catalog && result[id] == BaseImageUrl + catalog[id]
      {
        assert ids[..i + 1] == ids[..i] + [ids[i]];
        var id := ids[i];
        if id in catalog && catalog[id] != [] {
          result := result[id := BaseImageUrl + catalog[id]];
        }
      }
      assert ids[..|ids|] == ids;
    }
  }
}
