/** `getAvailableGameIds` of app/game_launcher/page.tsx: the entries of the
    `public/swf` directory whose name ends in `.swf` (in any case), with that
    suffix removed, in comparator order; nothing when the directory cannot
    be read. The directory read is the `listing` argument, `None` standing
    for a read that threw. */
module GameIds {
  import opened Wrappers
  import opened JsString
  import opened JsArray

  const SwfSuffix: string := ".swf"

  /** The last four characters are a literal dot followed by `s`, `w` and
      `f`, each in either case: the suffix spelled out character by character. */
  predicate HasSwfTail(fileName: string) {
    var n := |fileName|;
    && n >= 4
    && fileName[n - 4] == '.'
    && (fileName[n - 3] == 's' || fileName[n - 3] == 'S')
    && (fileName[n - 2] == 'w' || fileName[n - 2] == 'W')
    && (fileName[n - 1] == 'f' || fileName[n - 1] == 'F')
  }

  /** The filter: `fileName.toLowerCase().endsWith(".swf")`. */
  function IsSwfName(fileName: string): (b: bool)
    ensures b <==> HasSwfTail(fileName)
  {
    var n := |fileName|;
    var lowered := ToLower(fileName);
    assert n >= 4 ==> lowered[n - 4..] == [lowered[n - 4], lowered[n - 3], lowered[n - 2], lowered[n - 1]];
    EndsWith(lowered, SwfSuffix)
  }

  /** What `/\.swf$/i` matches: the last four characters equal `.swf` up to
      ASCII case. */
  function MatchesSwfPattern(fileName: string): (b: bool)
    ensures b <==> HasSwfTail(fileName)
  {
    var n := |fileName|;
    assert n >= 4 ==> fileName[n - 4..] == [fileName[n - 4], fileName[n - 3], fileName[n - 2], fileName[n - 1]];
    |fileName| >= |SwfSuffix| && SameIgnoringCase(fileName[|fileName| - |SwfSuffix|..], SwfSuffix)
  }

  /** The lower-casing filter and the case-insensitive pattern the rename
      uses accept exactly the same names. */
  lemma FilterAgreesWithPattern(fileName: string)
    ensures IsSwfName(fileName) <==> MatchesSwfPattern(fileName)
  {
    // Both contracts characterise their test by the same tail, `HasSwfTail`.
  }

  /** The rename: `fileName.replace(/\.swf$/i, "")` removes the one trailing
      match of the pattern, if there is one, and nothing else. */
  function StripSwf(fileName: string): (id: string)
    ensures MatchesSwfPattern(fileName) ==>
              |id| == |fileName| - 4 && id + fileName[|fileName| - 4..] == fileName
    ensures !MatchesSwfPattern(fileName) ==> id == fileName
  {
    if MatchesSwfPattern(fileName) then fileName[..|fileName| - 4] else fileName
  }

  /** The pipeline: filter, rename, sort; an unreadable directory yields the
      empty list rather than an error. */
  function AvailableGameIds(listing: Option<seq<string>>, le: (string, string) -> bool): (ids: seq<string>)
    ensures listing.None? ==> ids == []
    ensures listing.Some? ==>
              multiset(ids) == multiset(Map(StripSwf, Filter(IsSwfName, listing.value)))
  {
    match listing
    case None => []
    case Some(names) => Sort(le, Map(StripSwf, Filter(IsSwfName, names)))
  }

  /** Only the final `.swf` goes: whatever precedes a suffix the pattern
      matches is returned intact, even when it ends in `.swf` itself. */
  lemma StripRemovesOneSuffix(stem: string, suffix: string)
    requires |suffix| == 4 && SameIgnoringCase(suffix, SwfSuffix)
    ensures StripSwf(stem + suffix) == stem
  {
    var name := stem + suffix;
    assert name[|name| - 4..] == suffix;
    assert name[..|name| - 4] == stem;
  }

  /** `a.swf.swf` becomes the ID `a.swf`. */
  lemma DoubleSuffixKeepsInnerOne()
    ensures StripSwf("a.swf.swf") == "a.swf"
  {
    StripRemovesOneSuffix("a.swf", ".swf");
    assert "a.swf" + ".swf" == "a.swf.swf";
  }

  /** An ID is in the list exactly when some listed name passes the filter
      and renames to it: every ID comes from a `.swf` entry, and every `.swf`
      entry contributes its ID. */
  lemma IdsAreRenamedSwfNames(names: seq<string>, le: (string, string) -> bool)
    ensures forall id :: id in AvailableGameIds(Some(names), le) <==>
              exists name :: name in names && IsSwfName(name) && StripSwf(name) == id
  {
    var swf := Filter(IsSwfName, names);
    var mapped := Map(StripSwf, swf);
    var ids := AvailableGameIds(Some(names), le);
    forall id
      ensures id in ids <==> exists name :: name in names && IsSwfName(name) && StripSwf(name) == id
    {
      calc <==> {
        id in ids;
        id in multiset(ids);
        id in multiset(mapped);
        id in mapped;
      }
      if id in mapped {
        var i :| 0 <= i < |mapped| && mapped[i] == id;
        assert swf[i] in multiset(swf);
        assert swf[i] in names && IsSwfName(swf[i]);
      }
      if name :| name in names && IsSwfName(name) && StripSwf(name) == id {
        assert multiset(swf)[name] > 0;
        var i :| 0 <= i < |swf| && swf[i] == name;
        assert mapped[i] == id;
      }
    }
  }

  /** No entry is dropped or duplicated: there is one ID per `.swf` entry. */
  lemma IdCountIsSwfNameCount(names: seq<string>, le: (string, string) -> bool)
    ensures |AvailableGameIds(Some(names), le)| == |Filter(IsSwfName, names)|
  {
    var ids := AvailableGameIds(Some(names), le);
    assert |ids| == |multiset(ids)|;
  }

  /** The IDs come out ascending under the comparator. */
  lemma IdsAreSorted(listing: Option<seq<string>>, le: (string, string) -> bool)
    requires TotalPreorder(le)
    ensures SortedBy(le, AvailableGameIds(listing, le))
  {
    if listing.Some? {
      SortIsSorted(le, Map(StripSwf, Filter(IsSwfName, listing.value)));
    }
  }

  /** Entries that are not `.swf` files make no difference, wherever they
      appear in the listing. */
  lemma OtherEntriesIgnored(before: seq<string>, other: string, after: seq<string>, le: (string, string) -> bool)
    requires !IsSwfName(other)
    ensures AvailableGameIds(Some(before + [other] + after), le) == AvailableGameIds(Some(before + after), le)
  {
    FilterOfAppend(IsSwfName, before + [other], after);
    FilterOfAppend(IsSwfName, before, [other]);
    assert Filter(IsSwfName, [other]) == [] by {
      assert [other][1..] == [];
    }
    FilterOfAppend(IsSwfName, before, after);
    assert Filter(IsSwfName, before) + [] == Filter(IsSwfName, before);
  }

  /** The order in which the directory lists its entries does not matter
      once the comparator has no ties. */
  lemma ListingOrderIrrelevant(names: seq<string>, names': seq<string>, le: (string, string) -> bool)
    requires multiset(names) == multiset(names')
    requires TotalPreorder(le) && Antisymmetric(le)
    ensures AvailableGameIds(Some(names), le) == AvailableGameIds(Some(names'), le)
  {
    FilterOfPermutation(IsSwfName, names, names');
    MapOfPermutation(StripSwf, Filter(IsSwfName, names), Filter(IsSwfName, names'));
    IdsAreSorted(Some(names), le);
    IdsAreSorted(Some(names'), le);
    SortedPermutationsAgree(le, AvailableGameIds(Some(names), le), AvailableGameIds(Some(names'), le));
  }

  /** The upper-case suffix is a match of the rename's pattern. */
  lemma UpperSuffixMatches()
    ensures SameIgnoringCase(".SWF", SwfSuffix)
  {
    assert LowerChar('S') == 's' && LowerChar('W') == 'w' && LowerChar('F') == 'f';
  }

  /** A stem followed by any case variant of `.swf` passes the filter and
      renames back to the stem. */
  lemma SwfVariantRenamesToStem(stem: string, suffix: string)
    requires |suffix| == 4 && SameIgnoringCase(suffix, SwfSuffix)
    ensures IsSwfName(stem + suffix) && StripSwf(stem + suffix) == stem
  {
    StripRemovesOneSuffix(stem, suffix);
    var name := stem + suffix;
    assert name[|name| - 4..] == suffix;
    assert MatchesSwfPattern(name);
  }

  /** Two files differing only in the case of their suffix yield the same
      ID twice: the IDs are not unique even though file names are. */
  lemma CaseVariantsCollide(stem: string, le: (string, string) -> bool)
    ensures AvailableGameIds(Some([stem + ".swf", stem + ".SWF"]), le) == [stem, stem]
  {
    var names := [stem + ".swf", stem + ".SWF"];
    assert SameIgnoringCase(".swf", SwfSuffix);
    UpperSuffixMatches();
    SwfVariantRenamesToStem(stem, ".swf");
    SwfVariantRenamesToStem(stem, ".SWF");
    FilterOfAllPassing(IsSwfName, names);
    assert Map(StripSwf, names) == [stem, stem];
    SortOfTwinsIsTwins(le, stem);
  }

  lemma SortOfTwinsIsTwins(le: (string, string) -> bool, x: string)
    ensures Sort(le, [x, x]) == [x, x]
  {
    assert [x, x][1..] == [x];
    assert [x][1..] == [];
    assert Sort(le, [x]) == [x];
  }
}
