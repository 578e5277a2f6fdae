/** The AllDebrid client: submitting a magnet, reading its caching status,
    listing its files through the v4.1 API with a fallback to the legacy v4
    status-and-unlock path, flattening the v4.1 directory tree, and keeping
    only video files.

    Every HTTP exchange is an input (`Transport`): the JSON reply the service
    sent, or the exception axios threw. The stored API key is an input too,
    and so are the per-link unlock replies (a function from link to reply)
    and `decodeURIComponent` (a function that may fail, as it throws on a
    malformed escape). */
module AllDebrid {
  import opened Js
  import opened JsString
  import Seqs

  const ApiKeyNotSet := "API Key not set"
  /** The message of the TypeError the engine throws when a property of
      undefined is read; its exact wording is the engine's. */
  const UndefinedPropertyError := "Cannot read properties of undefined"

  datatype MagnetInfo = MagnetInfo(id: int, hash: string, name: string, ready: bool, statusCode: Option<int>)

  datatype UnlockedFile = UnlockedFile(filename: string, link: string, size: Option<int>)

  /** `getApiKey()` gave a truthy key. */
  predicate HasKey(apiKey: Option<string>)
  {
    Truthy(apiKey)
  }

  // ---------------------------------------------------------------------
  // Upload: GET /v4/magnet/upload

  datatype MagnetError = MagnetError(message: Option<string>, code: Option<string>)

  /** One entry of `data.magnets` in the upload reply. */
  datatype UploadedMagnet = UploadedMagnet(
    error: Option<MagnetError>, id: Option<int>, hash: Option<string>,
    name: Option<string>, filename: Option<string>, ready: Option<bool>)

  /** The upload reply: top-level `status`, `error.message`, and
      `data.magnets` (an absent array reads as an empty one). */
  datatype UploadReply = UploadReply(status: string, errorMessage: Option<string>, magnets: seq<UploadedMagnet>)

  predicate ValidId(id: Option<int>)
  {
    id.Some? && id.value != 0
  }

  function MagnetErrorText(e: MagnetError): (r: string)
    ensures r != ""
  {
    OrElse(e.message, OrElse(e.code, "Magnet error"))
  }

  /** `uploadMagnet`. The first magnet entry, when there is one, decides the
      outcome before the top-level status is looked at. */
  function UploadMagnet(apiKey: Option<string>, reply: Transport<UploadReply>): (r: Result<MagnetInfo>)
    ensures r.Ok? <==>
              && HasKey(apiKey) && reply.Reply? && |reply.body.magnets| > 0
              && reply.body.magnets[0].error.None? && ValidId(reply.body.magnets[0].id)
    ensures r.Ok? ==>
              var m := reply.body.magnets[0];
              && r.value.id == m.id.value && r.value.id != 0
              && r.value.name == OrElse(m.name, OrElse(m.filename, "Unknown")) && r.value.name != ""
              && r.value.hash == OrElse(m.hash, "") && r.value.statusCode.None?
              && (r.value.ready <==> m.ready == Some(true))
    ensures r.Err? && !reply.Fail? ==> r.message != ""
    ensures !HasKey(apiKey) ==> r == Err(ApiKeyNotSet)
    ensures HasKey(apiKey) && reply.Fail? ==> r == Err(reply.message)
  {
    if !HasKey(apiKey) then Err(ApiKeyNotSet)
    else match reply
      case Fail(msg) => Err(msg)
      case Reply(body) =>
        if |body.magnets| > 0 then
          var m := body.magnets[0];
          if m.error.Some? then Err(MagnetErrorText(m.error.value))
          else if !ValidId(m.id) then Err("Invalid magnet ID returned from AllDebrid")
          else Ok(MagnetInfo(m.id.value, OrElse(m.hash, ""),
                             OrElse(m.name, OrElse(m.filename, "Unknown")),
                             Coalesce(m.ready, false), None))
        else if body.status != "success" then Err(OrElse(body.errorMessage, "Failed to upload magnet"))
        else Err("No magnet data in response")
  }

  /** Order of the upload checks: a per-magnet error wins over everything the
      reply says about the id and the top-level status. */
  lemma UploadMagnetErrorFirst(apiKey: Option<string>, body: UploadReply)
    requires HasKey(apiKey) && |body.magnets| > 0 && body.magnets[0].error.Some?
    ensures UploadMagnet(apiKey, Reply(body)) == Err(MagnetErrorText(body.magnets[0].error.value))
  {
  }

  /** ... then a missing or zero id, whatever the top-level status. */
  lemma UploadInvalidIdSecond(apiKey: Option<string>, body: UploadReply)
    requires HasKey(apiKey) && |body.magnets| > 0 && body.magnets[0].error.None?
    requires !ValidId(body.magnets[0].id)
    ensures UploadMagnet(apiKey, Reply(body)) == Err("Invalid magnet ID returned from AllDebrid")
  {
  }

  /** ... and the top-level status only when there is no magnet entry. */
  lemma UploadStatusOnlyWithoutEntry(apiKey: Option<string>, body: UploadReply)
    requires HasKey(apiKey) && body.magnets == []
    ensures body.status != "success" ==>
              UploadMagnet(apiKey, Reply(body)) == Err(OrElse(body.errorMessage, "Failed to upload magnet"))
    ensures body.status == "success" ==>
              UploadMagnet(apiKey, Reply(body)) == Err("No magnet data in response")
  {
  }

  // ---------------------------------------------------------------------
  // Status: POST /v4.1/magnet/status

  datatype StatusMagnet = StatusMagnet(id: int, hash: string, filename: string, statusCode: Option<int>)

  /** `data.magnets` of the status reply: an array, a single object, or
      absent. */
  datatype StatusMagnets = StatusList(items: seq<StatusMagnet>) | StatusObject(item: StatusMagnet) | StatusAbsent

  datatype StatusReply = StatusReply(status: string, errorMessage: Option<string>, magnets: StatusMagnets)

  /** The status code AllDebrid uses for "fully cached". */
  const ReadyStatusCode := 4

  /** The status of one entry: its id, hash, file name and code, ready
      exactly when the code is the "fully cached" one. */
  function StatusInfo(m: StatusMagnet): (r: MagnetInfo)
    ensures r.ready <==> m.statusCode == Some(ReadyStatusCode)
    ensures r.id == m.id && r.hash == m.hash && r.name == m.filename && r.statusCode == m.statusCode
  {
    MagnetInfo(m.id, m.hash, m.filename, m.statusCode == Some(ReadyStatusCode), m.statusCode)
  }

  /** `getMagnetStatus`. Readiness is derived from the numeric status code
      alone; an array reply contributes its first element; reading a
      property of a missing element throws. */
  function GetMagnetStatus(apiKey: Option<string>, reply: Transport<StatusReply>): (r: Result<MagnetInfo>)
    ensures r.Ok? ==> HasKey(apiKey) && reply.Reply? && reply.body.status == "success"
    ensures r.Ok? ==> (r.value.ready <==> r.value.statusCode == Some(ReadyStatusCode))
    ensures !HasKey(apiKey) ==> r == Err(ApiKeyNotSet)
    ensures HasKey(apiKey) && reply.Fail? ==> r == Err(reply.message)
    ensures HasKey(apiKey) && reply.Reply? && reply.body.status != "success" ==>
              r == Err(OrElse(reply.body.errorMessage, "Failed to get status"))
    ensures HasKey(apiKey) && reply.Reply? && reply.body.status == "success" ==>
              match reply.body.magnets
              case StatusList(items) =>
                if items == [] then r == Err(UndefinedPropertyError) else r == Ok(StatusInfo(items[0]))
              case StatusObject(m) => r == Ok(StatusInfo(m))
              case StatusAbsent => r == Err(UndefinedPropertyError)
  {
    if !HasKey(apiKey) then Err(ApiKeyNotSet)
    else match reply
      case Fail(msg) => Err(msg)
      case Reply(body) =>
        if body.status != "success" then Err(OrElse(body.errorMessage, "Failed to get status"))
        else match body.magnets
          case StatusList(items) => if items == [] then Err(UndefinedPropertyError) else Ok(StatusInfo(items[0]))
          case StatusObject(m) => Ok(StatusInfo(m))
          case StatusAbsent => Err(UndefinedPropertyError)
  }

  // ---------------------------------------------------------------------
  // Legacy status: GET /v4/magnet/status, and link extraction

  /** The `id` of a legacy entry: the service may send a number or a
      string. */
  datatype JsId = NumberId(n: int) | StringId(s: string)

  /** `String(x.id)`. */
  function IdText(i: JsId): string
  {
    match i
    case NumberId(n) => Show(n)
    case StringId(s) => s
  }

  /** A link entry: a bare URL string, or an object carrying `.link`. */
  datatype LinkItem = LinkString(url: string) | LinkObject(link: string)

  datatype LegacyMagnet = LegacyMagnet(id: JsId, links: Option<seq<LinkItem>>)

  /** `data.magnets` of a legacy reply: an array of entries, an object keyed
      by id, or anything else (absent, null, a scalar). */
  datatype LegacyMagnets = LegacyList(items: seq<LegacyMagnet>) | LegacyKeyed(byId: map<string, LegacyMagnet>) | LegacyOther

  /** `magnets.find(x => String(x.id) === key)`, as a position: -1 when no
      entry matches, otherwise the first match. */
  function FindIndex(items: seq<LegacyMagnet>, key: string): (i: int)
    ensures -1 <= i < |items|
    ensures i == -1 <==> forall k :: 0 <= k < |items| ==> IdText(items[k].id) != key
    ensures i >= 0 ==> IdText(items[i].id) == key && forall k :: 0 <= k < i ==> IdText(items[k].id) != key
  {
    if items == [] then -1
    else if IdText(items[0].id) == key then 0
    else
      var j := FindIndex(items[1..], key);
      if j == -1 then -1 else j + 1
  }

  /** The legacy entry for `id`, normalising the two reply shapes. */
  function LegacyEntry(magnets: LegacyMagnets, id: int): (r: Option<LegacyMagnet>)
    ensures magnets.LegacyList? ==>
              (r.None? <==> forall k :: 0 <= k < |magnets.items| ==> IdText(magnets.items[k].id) != Show(id))
    ensures magnets.LegacyList? && r.Some? ==> r.value in magnets.items && IdText(r.value.id) == Show(id)
    ensures magnets.LegacyKeyed? ==>
              (r.Some? <==> Show(id) in magnets.byId) && (r.Some? ==> r.value == magnets.byId[Show(id)])
    ensures magnets.LegacyOther? ==> r.None?
  {
    match magnets
    case LegacyList(items) =>
      var i := FindIndex(items, Show(id));
      if i == -1 then None else Some(items[i])
    case LegacyKeyed(byId) => if Show(id) in byId then Some(byId[Show(id)]) else None
    case LegacyOther => None
  }

  function LinkOf(l: LinkItem): string
  {
    match l
    case LinkString(url) => url
    case LinkObject(link) => link
  }

  /** `extractLinksFromLegacyStatus`: one link per link entry of the
      selected magnet, in order; no entry or no `links` gives none. */
  function ExtractLinksFromLegacyStatus(magnets: LegacyMagnets, id: int): (r: seq<string>)
    ensures var e := LegacyEntry(magnets, id);
            if e.Some? && e.value.links.Some? then
              |r| == |e.value.links.value| &&
              forall i :: 0 <= i < |r| ==> r[i] == LinkOf(e.value.links.value[i])
            else r == []
  {
    match LegacyEntry(magnets, id)
    case Some(LegacyMagnet(_, Some(items))) => seq(|items|, i requires 0 <= i < |items| => LinkOf(items[i]))
    case _ => []
  }

  /** In the array shape the selected entry is the first whose id is the
      number `id` itself or the string that `String(id)` produces; a numeric
      id of any other value never matches. */
  lemma LegacyListSelectsFirstMatchingId(items: seq<LegacyMagnet>, id: int)
    ensures var e := LegacyEntry(LegacyList(items), id);
            && (e.None? <==> forall k :: 0 <= k < |items| ==> !MatchesId(items[k].id, id))
            && (e.Some? ==> exists i :: 0 <= i < |items| && e.value == items[i] && MatchesId(items[i].id, id)
                                        && forall k :: 0 <= k < i ==> !MatchesId(items[k].id, id))
  {
    forall k | 0 <= k < |items|
      ensures MatchesId(items[k].id, id) <==> IdText(items[k].id) == Show(id)
    {
      if items[k].id.NumberId? {
        ShowInjective(items[k].id.n, id);
      }
    }
    var i := FindIndex(items, Show(id));
    if i >= 0 {
      assert MatchesId(items[i].id, id);
    }
  }

  predicate MatchesId(x: JsId, id: int)
  {
    x == NumberId(id) || x == StringId(Show(id))
  }

  // ---------------------------------------------------------------------
  // Unlocking: GET /v4/link/unlock

  datatype UnlockData = UnlockData(link: Option<string>, filename: Option<string>, filesize: Option<int>)

  datatype UnlockReply = UnlockReply(status: string, errorMessage: Option<string>, data: Option<UnlockData>)

  /** One iteration of the loop in `unlockLinksToFiles`: the file for `link`,
      or nothing when the request throws, the reply is not a success with a
      truthy `data.link`, or decoding the file name throws. */
  function UnlockOne(link: string, unlock: string -> Transport<UnlockReply>, decode: string -> Option<string>): (r: Option<UnlockedFile>)
    ensures r.Some? <==>
              && unlock(link).Reply? && unlock(link).body.status == "success"
              && unlock(link).body.data.Some? && Truthy(unlock(link).body.data.value.link)
              && decode(OrElse(unlock(link).body.data.value.filename, "file")).Some?
    ensures r.Some? ==>
              var d := unlock(link).body.data.value;
              r.value == UnlockedFile(decode(OrElse(d.filename, "file")).value, d.link.value, d.filesize)
              && r.value.link != ""
  {
    match unlock(link)
    case Fail(_) => None
    case Reply(reply) =>
      if reply.status == "success" && reply.data.Some? && Truthy(reply.data.value.link) then
        var d := reply.data.value;
        match decode(OrElse(d.filename, "file"))
        case None => None
        case Some(name) => Some(UnlockedFile(name, d.link.value, d.filesize))
      else None
  }

  /** What the loop of `unlockLinksToFiles` collects over `links`. */
  function UnlockedFiles(links: seq<string>, unlock: string -> Transport<UnlockReply>, decode: string -> Option<string>): (r: seq<UnlockedFile>)
    ensures |r| <= |links|
    ensures forall i :: 0 <= i < |r| ==> r[i].link != ""
  {
    if links == [] then []
    else
      var last := UnlockOne(links[|links| - 1], unlock, decode);
      UnlockedFiles(links[..|links| - 1], unlock, decode) + (if last.Some? then [last.value] else [])
  }

  /** Links are handled independently and in order: the files of `a + b`
      are those of `a` followed by those of `b`. */
  lemma {:induction false} UnlockedFilesAppend(a: seq<string>, b: seq<string>, unlock: string -> Transport<UnlockReply>, decode: string -> Option<string>)
    ensures UnlockedFiles(a + b, unlock, decode) == UnlockedFiles(a, unlock, decode) + UnlockedFiles(b, unlock, decode)
    decreases |b|
  {
    if b == [] {
      assert a + b == a;
    } else {
      var b' := b[..|b| - 1];
      assert (a + b)[..|a + b| - 1] == a + b';
      assert (a + b)[|a + b| - 1] == b[|b| - 1];
      UnlockedFilesAppend(a, b', unlock, decode);
    }
  }

  /** A link that fails to unlock is skipped without affecting the others. */
  lemma FailedLinkIsSkipped(a: seq<string>, link: string, b: seq<string>, unlock: string -> Transport<UnlockReply>, decode: string -> Option<string>)
    requires UnlockOne(link, unlock, decode).None?
    ensures UnlockedFiles(a + [link] + b, unlock, decode) == UnlockedFiles(a + b, unlock, decode)
  {
    UnlockedFilesAppend(a + [link], b, unlock, decode);
    UnlockedFilesAppend(a, [link], unlock, decode);
    UnlockedFilesAppend(a, b, unlock, decode);
    assert UnlockedFiles([link], unlock, decode) == UnlockedFiles([], unlock, decode) + [] by {
      assert [link][..0] == [];
    }
  }

  /** A link that unlocks contributes its one file in its own place. */
  lemma UnlockedLinkIsKept(a: seq<string>, link: string, b: seq<string>, unlock: string -> Transport<UnlockReply>, decode: string -> Option<string>)
    requires UnlockOne(link, unlock, decode).Some?
    ensures UnlockedFiles(a + [link] + b, unlock, decode)
         == UnlockedFiles(a, unlock, decode) + [UnlockOne(link, unlock, decode).value] + UnlockedFiles(b, unlock, decode)
  {
    UnlockedFilesAppend(a + [link], b, unlock, decode);
    UnlockedFilesAppend(a, [link], unlock, decode);
    assert UnlockedFiles([link], unlock, decode) == [UnlockOne(link, unlock, decode).value] by {
      assert [link][..0] == [];
    }
  }

  /** Two links, the first unlocking to a named file and the second failing:
      the result is the first file alone. */
  lemma SecondLinkFails(l1: string, l2: string, unlock: string -> Transport<UnlockReply>, decode: string -> Option<string>,
                        url: string, name: string, decoded: string, size: Option<int>)
    requires url != "" && unlock(l1) == Reply(UnlockReply("success", None, Some(UnlockData(Some(url), Some(name), size))))
    requires name != "" && decode(name) == Some(decoded)
    requires unlock(l2).Fail?
    ensures UnlockedFiles([l1, l2], unlock, decode) == [UnlockedFile(decoded, url, size)]
  {
    var file := UnlockedFile(decoded, url, size);
    assert UnlockOne(l1, unlock, decode) == Some(file);
    assert UnlockOne(l2, unlock, decode) == None;
    assert [l1][..0] == [];
    assert UnlockedFiles([l1], unlock, decode) == [file];
    assert [l1, l2][..1] == [l1];
  }

  /** `unlockLinksToFiles`: one request per link, in order, keeping the
      files that unlocked. */
  method UnlockLinksToFiles(apiKey: Option<string>, links: seq<string>, unlock: string -> Transport<UnlockReply>, decode: string -> Option<string>)
    returns (r: Result<seq<UnlockedFile>>)
    ensures !HasKey(apiKey) ==> r == Err(ApiKeyNotSet)
    ensures HasKey(apiKey) ==> r == Ok(UnlockedFiles(links, unlock, decode))
  {
    if !HasKey(apiKey) {
      return Err(ApiKeyNotSet);
    }
    var out: seq<UnlockedFile> := [];
    for i := 0 to |links|
      invariant out == UnlockedFiles(links[..i], unlock, decode)
    {
      assert links[..i + 1][..i] == links[..i];
      var file := UnlockOne(links[i], unlock, decode);
      if file.Some? {
        out := out + [file.value];
      }
    }
    assert links[..|links|] == links;
    return Ok(out);
  }

  /** `unlockLink`: the direct URL for one hoster link; reading `data.link`
      of a success reply without `data` throws. */
  function UnlockLink(apiKey: Option<string>, reply: Transport<UnlockReply>): (r: Result<Option<string>>)
    ensures r.Ok? <==> HasKey(apiKey) && reply.Reply? && reply.body.status == "success" && reply.body.data.Some?
    ensures r.Ok? ==> r.value == reply.body.data.value.link
    ensures HasKey(apiKey) && reply.Reply? && reply.body.status != "success" ==>
              r == Err(OrElse(reply.body.errorMessage, "Failed to unlock link"))
    ensures !HasKey(apiKey) ==> r == Err(ApiKeyNotSet)
    ensures HasKey(apiKey) && reply.Fail? ==> r == Err(reply.message)
    ensures HasKey(apiKey) && reply.Reply? && reply.body.status == "success" && reply.body.data.None? ==>
              r == Err(UndefinedPropertyError)
  {
    if !HasKey(apiKey) then Err(ApiKeyNotSet)
    else match reply
      case Fail(msg) => Err(msg)
      case Reply(body) =>
        if body.status != "success" then Err(OrElse(body.errorMessage, "Failed to unlock link"))
        else if body.data.None? then Err(UndefinedPropertyError)
        else Ok(body.data.value.link)
  }

  // ---------------------------------------------------------------------
  // The v4.1 file tree and its flattening

  /** A node of the v4.1 file tree: a node with an `e` array is a directory
      (whatever else it carries); any other node is a leaf, which has a file
      only when its `l` is truthy. */
  datatype FileNode =
    | Dir(name: string, entries: seq<FileNode>, link: Option<string>)
    | Leaf(name: string, link: Option<string>, size: Option<int>)

  predicate IsFile(n: FileNode)
  {
    n.Leaf? && Truthy(n.link)
  }

  /** What one node contributes to the flat list. */
  function FlattenNode(node: FileNode, prefix: string): (r: seq<UnlockedFile>)
    ensures forall i :: 0 <= i < |r| ==> prefix <= r[i].filename && r[i].link != ""
    decreases node
  {
    match node
    case Dir(name, entries, _) => Flatten(entries, prefix + name + "/")
    case Leaf(name, link, size) =>
      if Truthy(link) then [UnlockedFile(prefix + name, link.value, size)] else []
  }

  /** The files `flattenFiles(items, prefix)` pushes, depth first in input
      order. Every path starts with the prefix and every link is truthy. */
  function Flatten(nodes: seq<FileNode>, prefix: string): (r: seq<UnlockedFile>)
    ensures forall i :: 0 <= i < |r| ==> prefix <= r[i].filename && r[i].link != ""
    decreases nodes
  {
    if nodes == [] then []
    else
      var h := FlattenNode(nodes[0], prefix);
      var t := Flatten(nodes[1..], prefix);
      assert forall i :: 0 <= i < |h| + |t| ==> (h + t)[i] == if i < |h| then h[i] else t[i - |h|];
      h + t
  }

  /** Flattening distributes over concatenation of sibling lists. */
  lemma {:induction false} FlattenAppend(a: seq<FileNode>, b: seq<FileNode>, prefix: string)
    ensures Flatten(a + b, prefix) == Flatten(a, prefix) + Flatten(b, prefix)
  {
    if a == [] {
      assert a + b == b;
    } else {
      assert (a + b)[0] == a[0] && (a + b)[1..] == a[1..] + b;
      FlattenAppend(a[1..], b, prefix);
    }
  }

  /** The same files with `p` put in front of every path. */
  function Prefixed(p: string, files: seq<UnlockedFile>): (r: seq<UnlockedFile>)
    ensures |r| == |files|
    ensures forall i :: 0 <= i < |r| ==> r[i] == files[i].(filename := p + files[i].filename)
  {
    if files == [] then [] else [files[0].(filename := p + files[0].filename)] + Prefixed(p, files[1..])
  }

  lemma PrefixedAppend(p: string, a: seq<UnlockedFile>, b: seq<UnlockedFile>)
    ensures Prefixed(p, a + b) == Prefixed(p, a) + Prefixed(p, b)
  {
  }

  lemma PrefixedTwice(p: string, q: string, files: seq<UnlockedFile>)
    ensures Prefixed(p, Prefixed(q, files)) == Prefixed(p + q, files)
  {
    forall i | 0 <= i < |files|
      ensures Prefixed(p, Prefixed(q, files))[i] == Prefixed(p + q, files)[i]
    {
      assert p + (q + files[i].filename) == (p + q) + files[i].filename;
    }
  }

  /** Flattening a subtree under a prefix is flattening it at the root and
      putting the prefix in front of every path. */
  lemma {:induction false} FlattenUnderPrefix(nodes: seq<FileNode>, prefix: string)
    ensures Flatten(nodes, prefix) == Prefixed(prefix, Flatten(nodes, ""))
    decreases nodes
  {
    if nodes != [] {
      FlattenNodeUnderPrefix(nodes[0], prefix);
      FlattenUnderPrefix(nodes[1..], prefix);
      PrefixedAppend(prefix, FlattenNode(nodes[0], ""), Flatten(nodes[1..], ""));
    }
  }

  lemma {:induction false} FlattenNodeUnderPrefix(node: FileNode, prefix: string)
    ensures FlattenNode(node, prefix) == Prefixed(prefix, FlattenNode(node, ""))
    decreases node
  {
    match node
    case Dir(name, entries, _) =>
      FlattenUnderPrefix(entries, prefix + name + "/");
      FlattenUnderPrefix(entries, "" + name + "/");
      PrefixedTwice(prefix, name + "/", Flatten(entries, ""));
      assert prefix + name + "/" == prefix + (name + "/");
      assert "" + name + "/" == name + "/";
    case Leaf(name, link, size) =>
      assert prefix + name == prefix + ("" + name);
  }

  /** The subtree property: a directory's files are its children's files,
      in order, each path prefixed with the directory name and a slash. A
      link on the directory node itself is ignored. */
  lemma DirectoryFlattening(name: string, children: seq<FileNode>, link: Option<string>)
    ensures Flatten([Dir(name, children, link)], "") == Prefixed(name + "/", Flatten(children, ""))
  {
    assert [Dir(name, children, link)][1..] == [];
    FlattenUnderPrefix(children, "" + name + "/");
    assert "" + name + "/" == name + "/";
  }

  /** Already-flat input flattens to itself: a list of link-bearing leaves
      becomes the same files, in the same order, with their own names. */
  lemma {:induction false} FlattenFlatList(nodes: seq<FileNode>)
    requires forall i :: 0 <= i < |nodes| ==> IsFile(nodes[i])
    ensures |Flatten(nodes, "")| == |nodes|
    ensures forall i :: 0 <= i < |nodes| && IsFile(nodes[i]) ==>
              Flatten(nodes, "")[i] == UnlockedFile(nodes[i].name, nodes[i].link.value, nodes[i].size)
  {
    if nodes != [] {
      FlattenFlatList(nodes[1..]);
      assert "" + nodes[0].name == nodes[0].name;
    }
  }

  /** How many files a forest holds: link-bearing leaves reached through
      directories. */
  function FileCount(nodes: seq<FileNode>): nat
    decreases nodes
  {
    if nodes == [] then 0 else NodeFileCount(nodes[0]) + FileCount(nodes[1..])
  }

  function NodeFileCount(node: FileNode): nat
    decreases node
  {
    match node
    case Dir(_, entries, _) => FileCount(entries)
    case Leaf(_, link, _) => if Truthy(link) then 1 else 0
  }

  /** One file per reachable link-bearing leaf, whatever the prefix. */
  lemma {:induction false} FlattenLength(nodes: seq<FileNode>, prefix: string)
    ensures |Flatten(nodes, prefix)| == FileCount(nodes)
    decreases nodes
  {
    if nodes != [] {
      FlattenNodeLength(nodes[0], prefix);
      FlattenLength(nodes[1..], prefix);
    }
  }

  lemma {:induction false} FlattenNodeLength(node: FileNode, prefix: string)
    ensures |FlattenNode(node, prefix)| == NodeFileCount(node)
    decreases node
  {
    match node
    case Dir(name, entries, _) => FlattenLength(entries, prefix + name + "/");
    case Leaf(_, _, _) =>
  }

  /** A size measure for the recursion of `FlattenFiles`. */
  function NodeSize(node: FileNode): nat
    decreases node
  {
    match node
    case Dir(_, entries, _) => 1 + ForestSize(entries)
    case Leaf(_, _, _) => 1
  }

  function ForestSize(nodes: seq<FileNode>): nat
    decreases nodes
  {
    if nodes == [] then 0 else NodeSize(nodes[0]) + ForestSize(nodes[1..])
  }

  lemma {:induction false} ForestSizeBounds(nodes: seq<FileNode>, i: int)
    requires 0 <= i < |nodes|
    ensures NodeSize(nodes[i]) <= ForestSize(nodes)
  {
    if i > 0 {
      ForestSizeBounds(nodes[1..], i - 1);
    }
  }

  /** `flattenFiles(items, prefix)`, pushing onto the list `files` the
      closure captures: the result is `files` followed by the flattening. */
  method FlattenFiles(items: seq<FileNode>, prefix: string, files: seq<UnlockedFile>) returns (out: seq<UnlockedFile>)
    ensures out == files + Flatten(items, prefix)
    decreases ForestSize(items)
  {
    out := files;
    for i := 0 to |items|
      invariant out == files + Flatten(items[..i], prefix)
    {
      var item := items[i];
      FlattenAppend(items[..i], [item], prefix);
      assert items[..i + 1] == items[..i] + [item];
      assert Flatten([item], prefix) == FlattenNode(item, prefix) by {
        assert [item][1..] == [];
      }
      match item {
        case Dir(name, entries, _) =>
          ForestSizeBounds(items, i);
          out := FlattenFiles(entries, prefix + name + "/", out);
        case Leaf(name, link, size) =>
          if Truthy(link) {
            out := out + [UnlockedFile(prefix + name, link.value, size)];
          }
      }
    }
    assert items[..|items|] == items;
  }

  // ---------------------------------------------------------------------
  // Listing: POST /v4.1/magnet/files, with the legacy fallback

  /** One entry of `data.magnets` in the v4.1 listing: whether it carries a
      (truthy) `error`, and its `files` tree when present. */
  datatype FilesMagnet = FilesMagnet(hasError: bool, files: Option<seq<FileNode>>)

  /** `data.magnets` of the listing: an array, an object (its values in the
      order `Object.values` enumerates them), or anything else. */
  datatype FilesMagnets = FilesList(items: seq<FilesMagnet>) | FilesKeyed(values: seq<FilesMagnet>) | FilesOther

  datatype FilesReply = FilesReply(status: string, magnets: FilesMagnets)

  function MagnetEntries(ms: FilesMagnets): seq<FilesMagnet>
  {
    match ms
    case FilesList(items) => items
    case FilesKeyed(values) => values
    case FilesOther => []
  }

  /** The tree of the first magnet entry, when it has one and no error. */
  function FirstMagnetTree(entries: seq<FilesMagnet>): Option<seq<FileNode>>
  {
    if |entries| > 0 && !entries[0].hasError && entries[0].files.Some? then entries[0].files else None
  }

  /** The files the v4.1 attempt yields; empty when it threw, was not a
      success, or had nothing to flatten. */
  function ModernFiles(modern: Transport<FilesReply>): (r: seq<UnlockedFile>)
    ensures r != [] ==> modern.Reply? && modern.body.status == "success"
    ensures r != [] ==> var entries := MagnetEntries(modern.body.magnets);
                        |entries| > 0 && !entries[0].hasError && entries[0].files.Some?
                        && r == Flatten(entries[0].files.value, "")
    ensures modern.Reply? && modern.body.status == "success" && FirstMagnetTree(MagnetEntries(modern.body.magnets)).Some? ==>
              r == Flatten(FirstMagnetTree(MagnetEntries(modern.body.magnets)).value, "")
  {
    match modern
    case Fail(_) => []
    case Reply(body) =>
      if body.status != "success" then []
      else match FirstMagnetTree(MagnetEntries(body.magnets))
        case None => []
        case Some(tree) => Flatten(tree, "")
  }

  /** Only the first magnet entry of the listing is ever flattened. */
  lemma ModernFilesUseFirstEntryOnly(status: string, first: FilesMagnet, rest: seq<FilesMagnet>)
    ensures ModernFiles(Reply(FilesReply(status, FilesList([first] + rest))))
         == ModernFiles(Reply(FilesReply(status, FilesList([first]))))
  {
  }

  /** The outcome of `getMagnetFiles`. */
  function MagnetFiles(apiKey: Option<string>, id: int, modern: Transport<FilesReply>,
                       legacy: Transport<LegacyMagnets>,
                       unlock: string -> Transport<UnlockReply>, decode: string -> Option<string>): (r: Result<seq<UnlockedFile>>)
    ensures !HasKey(apiKey) ==> r == Err(ApiKeyNotSet)
    ensures r.Err? ==> !HasKey(apiKey) || (ModernFiles(modern) == [] && legacy.Fail?)
    ensures r.Ok? ==> forall i :: 0 <= i < |r.value| ==> r.value[i].link != ""
  {
    if !HasKey(apiKey) then Err(ApiKeyNotSet)
    else if ModernFiles(modern) != [] then Ok(ModernFiles(modern))
    else match legacy
      case Fail(msg) => Err(msg)
      case Reply(magnets) => Ok(UnlockedFiles(ExtractLinksFromLegacyStatus(magnets, id), unlock, decode))
  }

  /** When the v4.1 listing yields files they are the answer, and the legacy
      status reply and every unlock reply are irrelevant: no legacy request
      is made. */
  lemma ModernResultWins(apiKey: Option<string>, id: int, modern: Transport<FilesReply>,
                         legacy1: Transport<LegacyMagnets>, unlock1: string -> Transport<UnlockReply>, decode1: string -> Option<string>,
                         legacy2: Transport<LegacyMagnets>, unlock2: string -> Transport<UnlockReply>, decode2: string -> Option<string>)
    requires HasKey(apiKey) && modern.Reply? && modern.body.status == "success"
    requires var entries := MagnetEntries(modern.body.magnets);
             |entries| > 0 && !entries[0].hasError && entries[0].files.Some?
             && Flatten(entries[0].files.value, "") != []
    ensures MagnetFiles(apiKey, id, modern, legacy1, unlock1, decode1)
         == Ok(Flatten(MagnetEntries(modern.body.magnets)[0].files.value, ""))
    ensures MagnetFiles(apiKey, id, modern, legacy1, unlock1, decode1) == MagnetFiles(apiKey, id, modern, legacy2, unlock2, decode2)
  {
  }

  /** When v4.1 fails, is not a success, errs on the first entry or yields no
      file, the answer is what the legacy path unlocks, and a failure of the
      legacy status request propagates. */
  lemma LegacyFallback(apiKey: Option<string>, id: int, modern: Transport<FilesReply>,
                       legacy: Transport<LegacyMagnets>, unlock: string -> Transport<UnlockReply>, decode: string -> Option<string>)
    requires HasKey(apiKey)
    requires || modern.Fail? || modern.body.status != "success"
             || FirstMagnetTree(MagnetEntries(modern.body.magnets)).None?
             || Flatten(FirstMagnetTree(MagnetEntries(modern.body.magnets)).value, "") == []
    ensures legacy.Fail? ==> MagnetFiles(apiKey, id, modern, legacy, unlock, decode) == Err(legacy.message)
    ensures legacy.Reply? ==> MagnetFiles(apiKey, id, modern, legacy, unlock, decode)
                              == Ok(UnlockedFiles(ExtractLinksFromLegacyStatus(legacy.body, id), unlock, decode))
  {
  }

  /** `getMagnetFiles`: the v4.1 listing first, the legacy status and
      per-link unlocking only when it produced no file. */
  method GetMagnetFiles(apiKey: Option<string>, id: int, modern: Transport<FilesReply>,
                        legacy: Transport<LegacyMagnets>,
                        unlock: string -> Transport<UnlockReply>, decode: string -> Option<string>)
    returns (r: Result<seq<UnlockedFile>>)
    ensures r == MagnetFiles(apiKey, id, modern, legacy, unlock, decode)
  {
    if !HasKey(apiKey) {
      return Err(ApiKeyNotSet);
    }
    if modern.Reply? && modern.body.status == "success" {
      var files: seq<UnlockedFile> := [];
      var magnets := MagnetEntries(modern.body.magnets);
      if |magnets| > 0 {
        var first := magnets[0];
        if !first.hasError && first.files.Some? {
          files := FlattenFiles(first.files.value, "", files);
          assert files == Flatten(first.files.value, "");
        }
      }
      if |files| > 0 {
        return Ok(files);
      }
    }
    if legacy.Fail? {
      return Err(legacy.message);
    }
    var links := ExtractLinksFromLegacyStatus(legacy.body, id);
    r := UnlockLinksToFiles(apiKey, links, unlock, decode);
  }

  // ---------------------------------------------------------------------
  // Video filter

  const VideoExtensions: seq<string> := ["mp4", "mkv", "avi", "mov", "wmv", "webm"]

  /** `name.split('.').pop()`: the text after the last dot, or the whole
      name when it has no dot. */
  function Extension(name: string): (ext: string)
    ensures '.' !in ext
    ensures |ext| <= |name| && ext == name[|name| - |ext|..]
    ensures |ext| < |name| ==> name[|name| - |ext| - 1] == '.'
    ensures '.' !in name ==> ext == name
  {
    var i := LastIndexOf(name, '.');
    if i == -1 then name else name[i + 1..]
  }

  /** The predicate of `getVideoFiles`. */
  predicate IsVideoName(name: string): (b: bool)
    ensures b <==> Lower(Extension(name)) in VideoExtensions
  {
    var ext := Lower(Extension(name));
    ext != "" && ext in VideoExtensions
  }

  /** `getVideoFiles`: exactly the files whose extension is a video
      extension, in their original order. */
  function GetVideoFiles(files: seq<UnlockedFile>): (r: seq<UnlockedFile>)
    ensures |r| <= |files|
    ensures forall i :: 0 <= i < |r| ==> r[i] in files && IsVideoName(r[i].filename)
    ensures forall i :: 0 <= i < |files| && IsVideoName(files[i].filename) ==> files[i] in r
  {
    Seqs.Filter(files, (f: UnlockedFile) => IsVideoName(f.filename))
  }

  lemma GetVideoFilesAppend(a: seq<UnlockedFile>, b: seq<UnlockedFile>)
    ensures GetVideoFiles(a + b) == GetVideoFiles(a) + GetVideoFiles(b)
  {
    Seqs.FilterAppend(a, b, (f: UnlockedFile) => IsVideoName(f.filename));
  }

  /** A name ending in a dot has an empty extension and is never a video. */
  lemma TrailingDotIsNotVideo(name: string)
    ensures !IsVideoName(name + ".")
  {
    assert LastIndexOf(name + ".", '.') == |name|;
  }

  /** A name without a dot is compared whole, so a file called `mp4` is a
      video file. */
  lemma DotlessNameComparedWhole(name: string)
    requires '.' !in name
    ensures IsVideoName(name) <==> Lower(name) in VideoExtensions
  {
    DotlessExtension(name);
    assert "" !in VideoExtensions;
  }

  lemma DotlessExtension(name: string)
    requires '.' !in name
    ensures Extension(name) == name
  {
    assert LastIndexOf(name, '.') == -1;
  }

  lemma LastIndexOfUpper(s: string)
    ensures LastIndexOf(Upper(s), '.') == LastIndexOf(s, '.')
  {
    if s != [] {
      assert Upper(s)[..|s| - 1] == Upper(s[..|s| - 1]);
      LastIndexOfUpper(s[..|s| - 1]);
    }
  }

  lemma ExtensionOfUpper(name: string)
    ensures Extension(Upper(name)) == Upper(Extension(name))
  {
    LastIndexOfUpper(name);
    var i := LastIndexOf(name, '.');
    if i == -1 {
      assert Extension(name) == name;
      assert Extension(Upper(name)) == Upper(name);
    } else {
      assert Extension(name) == name[i + 1..];
      assert Extension(Upper(name)) == Upper(name)[i + 1..];
      UpperSuffix(name, i + 1);
    }
  }

  lemma UpperSuffix(s: string, k: int)
    requires 0 <= k <= |s|
    ensures Upper(s)[k..] == Upper(s[k..])
  {
    assert forall j :: 0 <= j < |s| - k ==> Upper(s)[k..][j] == Upper(s[k..])[j];
  }

  lemma LowerOfUpper(s: string)
    ensures Lower(Upper(s)) == Lower(s)
  {
  }

  /** The test ignores case: upper-casing a name does not change whether it
      is a video file. */
  lemma IsVideoNameIgnoresCase(name: string)
    ensures IsVideoName(Upper(name)) <==> IsVideoName(name)
  {
    ExtensionOfUpper(name);
    LowerOfUpper(Extension(name));
  }
}
