/** The selection logic of app/game_launcher/GameLauncherClient.tsx: which
    game the page shows for a list of IDs and the `id` query parameter, the
    path handed to the player, and the URL the form navigates to on submit.
    `encodeURIComponent` and the percent-decoding the router applies when it
    reads the query back are abstract parameters. */
module Launcher {
  import opened Wrappers
  import opened JsString
  import opened GameIds
  import JsArray

  /** The pair the `useMemo` call returns; `swfPath` is `null` as `None`. */
  datatype Selection = Selection(selectedGameId: string, swfPath: Option<string>)

  const LauncherRoute: string := "/game_launcher"
  const IdQueryPrefix: string := "/game_launcher?id="
  const SwfDirectory: string := "/swf/"

  /** `(searchParams.get("id") ?? "").trim()`; an absent parameter is `None`. */
  function RequestedId(query: Option<string>): (id: string)
    ensures Unpadded(id)
    ensures query.None? ==> id == ""
    ensures query.Some? ==> exists start :: TrimmedAt(query.value, start, id)
  {
    var raw := query.GetOr("");
    TrimIsWhitespaceBounded(raw);
    Trim(raw)
  }

  /** `gameIds[0] ?? ""`. */
  function FallbackId(gameIds: seq<string>): (id: string)
    ensures gameIds != [] ==> id == gameIds[0] && id in gameIds
    ensures gameIds == [] ==> id == ""
  {
    if |gameIds| > 0 then gameIds[0] else ""
  }

  /** The template `/swf/${id}.swf`: the path of a file under `/swf/` that
      the page's filter accepts and its rename maps back to `id`. */
  function SwfPath(id: string): (path: string)
    ensures |path| == |SwfDirectory| + |id| + |SwfSuffix|
    ensures path[..|SwfDirectory|] == SwfDirectory
    ensures IsSwfName(path[|SwfDirectory|..])
    ensures StripSwf(path[|SwfDirectory|..]) == id
    ensures path[|SwfDirectory| + |id|..] == SwfSuffix
  {
    var file := id + SwfSuffix;
    assert SameIgnoringCase(SwfSuffix, SwfSuffix);
    StripRemovesOneSuffix(id, SwfSuffix);
    assert file[|file| - 4..] == SwfSuffix;
    var path := SwfDirectory + file;
    assert path[|SwfDirectory|..] == file;
    path
  }

  /** The `useMemo` computation: the requested ID when it is non-empty and
      listed, the first ID otherwise, `""` when there is none; a player path
      exactly when the chosen ID is non-empty (a truthy string). */
  function Select(gameIds: seq<string>, requestedId: string): (s: Selection)
    ensures requestedId != "" && requestedId in gameIds ==> s.selectedGameId == requestedId
    ensures (requestedId == "" || requestedId !in gameIds) ==> s.selectedGameId == FallbackId(gameIds)
    ensures s.selectedGameId == "" || s.selectedGameId in gameIds
    ensures gameIds != [] ==> s.selectedGameId in gameIds
    ensures s.swfPath.None? <==> s.selectedGameId == ""
    ensures s.swfPath.Some? ==> s.swfPath.value == SwfDirectory + s.selectedGameId + SwfSuffix
  {
    var hasRequestedId := |requestedId| > 0 && requestedId in gameIds;
    var resolvedId := if hasRequestedId then requestedId else FallbackId(gameIds);
    Selection(resolvedId, if resolvedId != "" then Some(SwfPath(resolvedId)) else None)
  }

  /** `handleSubmit`: the bare route for an empty choice, otherwise the route
      with the choice as its encoded `id` parameter. */
  function SubmitUrl(inputGameId: string, encode: string -> string): (url: string)
    ensures inputGameId == "" ==> url == LauncherRoute
    ensures inputGameId != "" ==> url == IdQueryPrefix + encode(inputGameId)
  {
    if inputGameId == "" then LauncherRoute else IdQueryPrefix + encode(inputGameId)
  }

  /** The `id` parameter as the page reads it back from a URL of one of the
      two shapes `SubmitUrl` produces; `decode` is the percent-decoding. */
  function IdParam(url: string, decode: string -> string): (q: Option<string>)
    ensures q.Some? ==> |url| >= |IdQueryPrefix| && url[..|IdQueryPrefix|] == IdQueryPrefix
  {
    if |url| >= |IdQueryPrefix| && url[..|IdQueryPrefix|] == IdQueryPrefix
    then Some(decode(url[|IdQueryPrefix|..]))
    else None
  }

  /** The player path names a file that the page's rename maps back to the
      selected ID. */
  lemma SwfPathRenamesToSelection(gameIds: seq<string>, requestedId: string)
    ensures var s := Select(gameIds, requestedId);
            s.swfPath.Some? ==>
              && |s.swfPath.value| >= |SwfDirectory|
              && s.swfPath.value[..|SwfDirectory|] == SwfDirectory
              && IsSwfName(s.swfPath.value[|SwfDirectory|..])
              && StripSwf(s.swfPath.value[|SwfDirectory|..]) == s.selectedGameId
  {
    // The path is `SwfPath` of the chosen ID, whose contract states this.
  }

  /** Selecting again with the selected ID as the request changes nothing:
      the page is stable once the URL names what it shows. */
  lemma SelectIsIdempotent(gameIds: seq<string>, requestedId: string)
    ensures var s := Select(gameIds, requestedId);
            Select(gameIds, s.selectedGameId) == s
  {
  }

  /** An empty or all-whitespace `id` parameter never overrides the fallback. */
  lemma BlankRequestFallsBack(gameIds: seq<string>, raw: string)
    requires AllWhitespace(raw)
    ensures Select(gameIds, RequestedId(Some(raw))).selectedGameId == FallbackId(gameIds)
  {
    TrimEmptyIffAllWhitespace(raw);
  }

  /** A listed ID with whitespace at either end is never the requested ID
      after trimming, so it can only be shown as the fallback. */
  lemma PaddedIdOnlyAsFallback(gameIds: seq<string>, id: string, query: Option<string>)
    requires !Unpadded(id)
    requires Select(gameIds, RequestedId(query)).selectedGameId == id
    ensures id == FallbackId(gameIds)
  {
  }

  /** Submitting and reading the URL back yields the submitted ID as the `id`
      parameter, or no parameter for an empty choice, provided decoding undoes
      encoding. */
  lemma SubmitRoundTrip(inputGameId: string, encode: string -> string, decode: string -> string)
    requires decode(encode(inputGameId)) == inputGameId
    ensures IdParam(SubmitUrl(inputGameId, encode), decode) ==
              if inputGameId == "" then None else Some(inputGameId)
  {
    if inputGameId != "" {
      var url := SubmitUrl(inputGameId, encode);
      assert url[..|IdQueryPrefix|] == IdQueryPrefix;
      assert url[|IdQueryPrefix|..] == encode(inputGameId);
    }
  }

  /** Submitting the shown game and loading the resulting URL shows the same
      game again, for an ID without surrounding whitespace. */
  lemma ResubmitKeepsSelection(gameIds: seq<string>, requestedId: string,
                               encode: string -> string, decode: string -> string)
    requires var id := Select(gameIds, requestedId).selectedGameId;
             decode(encode(id)) == id && Unpadded(id)
    ensures var s := Select(gameIds, requestedId);
            Select(gameIds, RequestedId(IdParam(SubmitUrl(s.selectedGameId, encode), decode))) == s
  {
    var id := Select(gameIds, requestedId).selectedGameId;
    SubmitRoundTrip(id, encode, decode);
    RequestedUnpaddedId(id);
    SelectIsIdempotent(gameIds, requestedId);
  }

  /** Reading back a submitted ID: the `id` parameter is absent for the empty
      ID and otherwise carries the ID, which trimming leaves unchanged. */
  lemma RequestedUnpaddedId(id: string)
    requires Unpadded(id)
    ensures RequestedId(if id == "" then None else Some(id)) == id
  {
    if id != "" {
      assert id == [] + id + [];
      TrimRemovesPadding([], id, []);
    }
  }

  /** As written, a file listed as `B.SWF` (any stem with an upper-case
      suffix) gets the ID `B` and the path `/swf/B.swf`, which is not the
      name of any listed file. */
  lemma UpperCaseSuffixGetsUnlistedPath(stem: string, le: (string, string) -> bool)
    requires stem != ""
    ensures var names := [stem + ".SWF"];
            var s := Select(AvailableGameIds(Some(names), le), "");
            && s.swfPath == Some(SwfDirectory + (stem + ".swf"))
            && stem + ".swf" !in names
  {
    var names := [stem + ".SWF"];
    UpperSuffixMatches();
    SwfVariantRenamesToStem(stem, ".SWF");
    JsArray.FilterOfAllPassing(IsSwfName, names);
    assert JsArray.Map(StripSwf, names) == [stem];
    assert JsArray.Sort(le, [stem]) == [stem] by {
      assert [stem][1..] == [];
    }
    assert SwfPath(stem) == SwfDirectory + (stem + ".swf");
    assert (stem + ".swf")[|stem| + 1] != (stem + ".SWF")[|stem| + 1];
  }

  /** `name` is a `.swf` entry the page renames to `id`. */
  predicate RenamesTo(name: string, id: string) {
    IsSwfName(name) && StripSwf(name) == id
  }

  /** Position `i` holds the first entry of `names` that renames to `id`. */
  ghost predicate FirstRenamingAt(names: seq<string>, id: string, i: int) {
    && 0 <= i < |names|
    && RenamesTo(names[i], id)
    && forall k :: 0 <= k < i ==> !RenamesTo(names[k], id)
  }

  lemma FirstRenamingShifts(names: seq<string>, id: string, i: int)
    requires names != [] && !RenamesTo(names[0], id)
    requires FirstRenamingAt(names[1..], id, i)
    ensures FirstRenamingAt(names, id, i + 1) && names[i + 1] == names[1..][i]
  {
    forall k | 0 <= k < i + 1
      ensures !RenamesTo(names[k], id)
    {
      if k > 0 {
        assert names[k] == names[1..][k - 1];
      }
    }
  }

  /** The first listed `.swf` entry whose rename is `id`, if any. */
  function ListedFileName(names: seq<string>, id: string): (r: Option<string>)
    ensures r.Some? ==> r.value in names && RenamesTo(r.value, id)
    ensures r.Some? ==> exists i :: FirstRenamingAt(names, id, i) && names[i] == r.value
    ensures r.None? ==> forall name :: name in names ==> !RenamesTo(name, id)
  {
    if names == [] then None
    else if RenamesTo(names[0], id) then
      assert FirstRenamingAt(names, id, 0);
      Some(names[0])
    else
      var r := ListedFileName(names[1..], id);
      assert r.Some? ==> exists i :: FirstRenamingAt(names, id, i) && names[i] == r.value by {
        if r.Some? {
          var i :| FirstRenamingAt(names[1..], id, i) && names[1..][i] == r.value;
          FirstRenamingShifts(names, id, i);
        }
      }
      assert r.Some? ==> r.value in names by {
        assert names == [names[0]] + names[1..];
      }
      r
  }

  /** The selection with the player path built from the listed file name
      itself rather than from the ID and a lower-case `.swf`. */
  function SelectListed(names: seq<string>, gameIds: seq<string>, requestedId: string): (s: Selection)
    ensures s.selectedGameId == Select(gameIds, requestedId).selectedGameId
    ensures s.swfPath.Some? ==>
              exists name :: name in names && IsSwfName(name) && StripSwf(name) == s.selectedGameId
                             && s.swfPath.value == SwfDirectory + name
  {
    var id := Select(gameIds, requestedId).selectedGameId;
    if id == "" then Selection(id, None)
    else match ListedFileName(names, id)
      case Some(name) => Selection(id, Some(SwfDirectory + name))
      case None => Selection(id, None)
  }

  /** With the IDs the page derives from `names`, the corrected selection
      shows a player exactly when an ID is chosen, and its path names a
      listed `.swf` file whose ID is the chosen one. */
  lemma ListedPathNamesListedFile(names: seq<string>, requestedId: string, le: (string, string) -> bool)
    ensures var s := SelectListed(names, AvailableGameIds(Some(names), le), requestedId);
            && (s.swfPath.None? <==> s.selectedGameId == "")
            && (s.swfPath.Some? ==> exists name :: name in names && s.swfPath.value == SwfDirectory + name)
  {
    var ids := AvailableGameIds(Some(names), le);
    var s := SelectListed(names, ids, requestedId);
    IdsAreRenamedSwfNames(names, le);
    if s.selectedGameId != "" {
      assert s.selectedGameId in ids;
      assert ListedFileName(names, s.selectedGameId).Some?;
    }
  }

  /** When every `.swf` entry is spelled with a lower-case suffix, the
      corrected selection is exactly the one the page makes. */
  lemma ListedAgreesOnLowerCaseSuffix(names: seq<string>, requestedId: string, le: (string, string) -> bool)
    requires forall name :: name in names && IsSwfName(name) ==> EndsWith(name, SwfSuffix)
    ensures var ids := AvailableGameIds(Some(names), le);
            SelectListed(names, ids, requestedId) == Select(ids, requestedId)
  {
    var ids := AvailableGameIds(Some(names), le);
    var id := Select(ids, requestedId).selectedGameId;
    IdsAreRenamedSwfNames(names, le);
    if id != "" {
      assert id in ids;
      assert ListedFileName(names, id).Some?;
      var name := ListedFileName(names, id).value;
      assert EndsWith(name, SwfSuffix);
      assert name == name[..|name| - 4] + SwfSuffix;
      assert name == id + SwfSuffix;
      assert SwfDirectory + name == SwfPath(id);
    }
  }
}
