/** The side reconciler (update_side.py). Two name lists, read one name per
    line, say which mods must be installed on both sides (the client patch
    list) and which are client-only (the server blacklist). Each manifest is
    matched by its identity, the file name without `.pw.toml`; its `side` is
    rewritten when a list asks for a value it does not have, the matched
    name is consumed from its list, and the names no manifest consumed are
    reported at the end. */
module UpdateSide {
  import opened Text
  import opened Toml
  import opened Directory

  /** get_base_filename: the identity of a manifest file. */
  function BaseFilename(filename: string): (r: string)
    ensures IsManifestName(filename) ==> r + ManifestSuffix == filename
    ensures !IsManifestName(filename) ==> r == filename
  {
    if IsManifestName(filename) then filename[..|filename| - |ManifestSuffix|] else filename
  }

  /** Two manifest file names never share an identity. */
  lemma BaseFilenameInjective(a: string, b: string)
    requires IsManifestName(a) && IsManifestName(b) && a != b
    ensures BaseFilename(a) != BaseFilename(b)
  {
    assert BaseFilename(a) + ManifestSuffix == a;
  }

  /** The identity of `x.pw.toml` is `x`. */
  lemma BaseFilenameOfManifest(x: string)
    ensures BaseFilename(x + ManifestSuffix) == x
  {
    var f := x + ManifestSuffix;
    assert f[|f| - |ManifestSuffix|..] == ManifestSuffix;
    assert f[..|f| - |ManifestSuffix|] == x;
  }

  /** The names a list file holds: each non-blank line, trimmed. */
  function NameSet(lines: seq<string>): set<string> {
    set l | l in lines && Trim(l) != [] :: Trim(l)
  }

  /** Reading one name list (lines 28-44): a missing file gives no names and
      a warning; otherwise each line is trimmed and every non-blank result is
      added to the set. */
  method LoadNameList(file: Option<seq<string>>) returns (names: set<string>, missing: bool)
    ensures missing <==> file.None?
    ensures file.None? ==> names == {}
    ensures file.Some? ==> names == NameSet(file.value)
    ensures file.Some? ==> forall i :: 0 <= i < |file.value| && Trim(file.value[i]) != [] ==> Trim(file.value[i]) in names
    ensures forall n :: n in names ==> n != [] && file.Some? && exists i :: 0 <= i < |file.value| && Trim(file.value[i]) == n
  {
    names := {};
    if file.None? {
      return {}, true;
    }
    missing := false;
    var lines := file.value;
    for i := 0 to |lines|
      invariant names == NameSet(lines[..i])
    {
      assert lines[..i + 1] == lines[..i] + [lines[i]];
      var name := Trim(lines[i]);
      if name != [] {
        names := names + {name};
      }
    }
    assert lines[..|lines|] == lines;
    forall n | n in names
      ensures exists i :: 0 <= i < |lines| && Trim(lines[i]) == n
    {
      var l :| l in lines && Trim(l) != [] && Trim(l) == n;
      var i :| 0 <= i < |lines| && lines[i] == l;
    }
  }

  /** The only two values the lists ever write. */
  const Both: string := "both"
  const Client: string := "client"

  /** The assignment lines 63-76 make, for a manifest whose `side` was
      `current` when it was loaded and whose identity is (or is not) in each
      list: None when neither check updates it, otherwise the value last
      assigned. Both checks compare against `current`, captured once at line
      59, and not against the value the first check may have assigned. */
  function SideRewrite(current: Option<Value>, inPatch: bool, inBlacklist: bool): (r: Option<string>)
    ensures r.Some? <==> (inPatch && current != Some(Str(Both))) || (inBlacklist && current != Some(Str(Client)))
  {
    var afterPatch := if inPatch && current != Some(Str(Both)) then Some(Both) else None;
    if inBlacklist && current != Some(Str(Client)) then Some(Client) else afterPatch
  }

  /** The side a manifest has after the checks. */
  function SideAfter(current: Option<Value>, inPatch: bool, inBlacklist: bool): (side: Option<Value>)
    ensures !inPatch && !inBlacklist ==> side == current
    ensures inPatch && !inBlacklist ==> side == Some(Str(Both))
    ensures !inPatch && inBlacklist ==> side == Some(Str(Client))
    ensures inPatch && inBlacklist ==> side == if current == Some(Str(Client)) then Some(Str(Both)) else Some(Str(Client))
  {
    match SideRewrite(current, inPatch, inBlacklist)
    case None => current
    case Some(s) => Some(Str(s))
  }

  /** Running the checks again on their own output changes nothing when the
      identity is in at most one list. */
  lemma SideRewriteSettles(current: Option<Value>, inPatch: bool, inBlacklist: bool)
    requires !(inPatch && inBlacklist)
    ensures SideRewrite(SideAfter(current, inPatch, inBlacklist), inPatch, inBlacklist).None?
  {
  }

  /** With the identity in both lists, every second run flips the side: a
      `server` manifest becomes `client`, and a second run makes it `both`. */
  lemma SideFlipsWhenInBothLists()
    ensures SideAfter(Some(Str("server")), true, true) == Some(Str(Client))
    ensures SideAfter(SideAfter(Some(Str("server")), true, true), true, true) == Some(Str(Both))
  {
  }

  /** A manifest after the checks: the same document, with `side` set when
      a check updated it. */
  function ReconciledDoc(doc: Doc, id: string, patch: set<string>, blacklist: set<string>): (r: Doc)
    ensures r.Keys == doc.Keys + (if r == doc then {} else {"side"})
    ensures forall k :: k in doc && k != "side" ==> r[k] == doc[k]
    ensures Get(r, "side") == SideAfter(Get(doc, "side"), id in patch, id in blacklist)
  {
    match SideRewrite(Get(doc, "side"), id in patch, id in blacklist)
    case None => doc
    case Some(s) => doc["side" := Str(s)]
  }

  /** What one file of the mods directory holds after the pass: only a
      manifest that loaded, and that a check updated, is written back. */
  function ReconciledFile(name: string, f: ManifestFile, patch: set<string>, blacklist: set<string>): ManifestFile {
    if IsManifestName(name) && f.Parsed?
       && SideRewrite(Get(f.doc, "side"), BaseFilename(name) in patch, BaseFilename(name) in blacklist).Some?
    then Parsed(ReconciledDoc(f.doc, BaseFilename(name), patch, blacklist))
    else f
  }

  ghost function ReconciledDir(d: map<string, ManifestFile>, patch: set<string>, blacklist: set<string>): map<string, ManifestFile> {
    map n | n in d :: ReconciledFile(n, d[n], patch, blacklist)
  }

  /** The identities of the listed manifests that loaded: the names they
      consume from the lists. */
  ghost function LoadedIds(d: map<string, ManifestFile>, ls: seq<string>): set<string> {
    set n | n in ls && n in d && IsManifestName(n) && d[n].Parsed? :: BaseFilename(n)
  }

  /** What the pass prints. */
  datatype SideEvent =
    | ModsDirMissing
    | PatchListMissing
    | BlacklistMissing
    | Updated(id: string, side: string, name: string)
    | ParseFailure(name: string, error: PyError)      // toml.TomlDecodeError
    | UnexpectedFailure(name: string, error: PyError) // any other exception
    | UnmatchedPatchNames(names: set<string>)
    | UnmatchedBlacklistNames(names: set<string>)

  /** The messages for one manifest. */
  function FileEvents(name: string, f: ManifestFile, patch: set<string>, blacklist: set<string>): seq<SideEvent> {
    match f
    case Unloadable(e) => if e.TomlDecodeError? then [ParseFailure(name, e)] else [UnexpectedFailure(name, e)]
    case Parsed(doc) =>
      var id := BaseFilename(name);
      var current := Get(doc, "side");
      (if id in patch && current != Some(Str(Both)) then [Updated(id, Both, name)] else [])
      + (if id in blacklist && current != Some(Str(Client)) then [Updated(id, Client, name)] else [])
  }

  /** The messages for the manifests of `ls`, in listing order. */
  function SideLog(d: map<string, ManifestFile>, ls: seq<string>, patch: set<string>, blacklist: set<string>): seq<SideEvent> {
    if ls == [] then []
    else
      var n := ls[|ls| - 1];
      SideLog(d, ls[..|ls| - 1], patch, blacklist)
      + (if n in d && IsManifestName(n) then FileEvents(n, d[n], patch, blacklist) else [])
  }

  /** An identity not yet seen in the loop is still in a list exactly when
      it was at the start, because no other manifest file shares it. */
  lemma UnseenIdentity(d: map<string, ManifestFile>, ls: seq<string>, i: nat, s0: set<string>)
    requires NoDuplicates(ls) && i < |ls| && IsManifestName(ls[i])
    ensures BaseFilename(ls[i]) in s0 - LoadedIds(d, ls[..i]) <==> BaseFilename(ls[i]) in s0
  {
  }

  /** The body of the loop of lines 53-85 for one manifest file, with the
      two lists as they stand when the file is reached: the load, the two
      checks against the side captured at line 59, the removal of a matched
      identity whether or not the side changed, and the write-back only
      when a check updated the side. */
  method ReconcileFile(name: string, f: ManifestFile, patch: set<string>, blacklist: set<string>)
    returns (g: ManifestFile, patchLeft: set<string>, blacklistLeft: set<string>, events: seq<SideEvent>)
    requires IsManifestName(name)
    ensures g == ReconciledFile(name, f, patch, blacklist)
    ensures patchLeft == if f.Parsed? then patch - {BaseFilename(name)} else patch
    ensures blacklistLeft == if f.Parsed? then blacklist - {BaseFilename(name)} else blacklist
    ensures events == FileEvents(name, f, patch, blacklist)
  {
    g, patchLeft, blacklistLeft := f, patch, blacklist;
    match f
    case Unloadable(e) => {
      events := if e.TomlDecodeError? then [ParseFailure(name, e)] else [UnexpectedFailure(name, e)];
    }
    case Parsed(doc) => {
      var id := BaseFilename(name);
      var current := Get(doc, "side");
      var data := doc;
      var updated := false;
      events := [];
      if id in patchLeft {
        if current != Some(Str(Both)) {
          data := data["side" := Str(Both)];
          updated := true;
          events := events + [Updated(id, Both, name)];
        }
        patchLeft := patchLeft - {id};
      }
      if id in blacklistLeft {
        if current != Some(Str(Client)) {
          data := data["side" := Str(Client)];
          updated := true;
          events := events + [Updated(id, Client, name)];
        }
        blacklistLeft := blacklistLeft - {id};
      }
      if updated {
        g := Parsed(data);
      }
    }
  }

  /** The directory after the manifests of `ls` were reconciled, one after
      the other, each against the lists as they were at the start. */
  function ReconciledPrefix(d: map<string, ManifestFile>, ls: seq<string>, patch: set<string>, blacklist: set<string>)
    : map<string, ManifestFile>
  {
    if ls == [] then d
    else
      var n := ls[|ls| - 1];
      var m := ReconciledPrefix(d, ls[..|ls| - 1], patch, blacklist);
      if n in d && IsManifestName(n) then m[n := ReconciledFile(n, d[n], patch, blacklist)] else m
  }

  /** Handling the manifests of a listing without repeats, one at a time,
      gives each of them its reconciled contents and leaves every other
      file as it was. */
  lemma {:induction false} ReconciledPrefixFiles(d: map<string, ManifestFile>, ls: seq<string>,
                                                 patch: set<string>, blacklist: set<string>)
    requires forall n :: n in ls ==> n in d
    ensures ReconciledPrefix(d, ls, patch, blacklist) == map n | n in d ::
      if n in ls then ReconciledFile(n, d[n], patch, blacklist) else d[n]
  {
    if ls != [] {
      var init := ls[..|ls| - 1];
      assert ls == init + [ls[|ls| - 1]];
      ReconciledPrefixFiles(d, init, patch, blacklist);
    }
  }

  lemma ReconciledPrefixIsDir(d: map<string, ManifestFile>, ls: seq<string>, patch: set<string>, blacklist: set<string>)
    requires IsListingOf(d, ls)
    ensures ReconciledPrefix(d, ls, patch, blacklist) == ReconciledDir(d, patch, blacklist)
  {
    ReconciledPrefixFiles(d, ls, patch, blacklist);
  }

  /** One more file of the listing adds its identity to those consumed
      exactly when it is a manifest that loaded. */
  lemma LoadedIdsStep(d: map<string, ManifestFile>, ls: seq<string>, i: nat)
    requires i < |ls| && ls[i] in d
    ensures LoadedIds(d, ls[..i + 1]) == LoadedIds(d, ls[..i])
      + (if IsManifestName(ls[i]) && d[ls[i]].Parsed? then {BaseFilename(ls[i])} else {})
  {
    assert ls[..i + 1] == ls[..i] + [ls[i]];
  }

  /** How a list stands after one more file of the listing. */
  lemma ListStep(d: map<string, ManifestFile>, ls: seq<string>, i: nat, s0: set<string>)
    requires i < |ls| && ls[i] in d
    ensures s0 - LoadedIds(d, ls[..i + 1]) ==
      if IsManifestName(ls[i]) && d[ls[i]].Parsed? then (s0 - LoadedIds(d, ls[..i])) - {BaseFilename(ls[i])}
      else s0 - LoadedIds(d, ls[..i])
  {
    LoadedIdsStep(d, ls, i);
  }

  /** A manifest reached partway through the loop is handled as it would be
      against the lists as they were at the start. */
  lemma SeesInitialLists(d: map<string, ManifestFile>, ls: seq<string>, i: nat, p0: set<string>, b0: set<string>)
    requires NoDuplicates(ls) && i < |ls| && IsManifestName(ls[i]) && ls[i] in d
    ensures var n, l := ls[i], LoadedIds(d, ls[..i]);
      && ReconciledFile(n, d[n], p0 - l, b0 - l) == ReconciledFile(n, d[n], p0, b0)
      && FileEvents(n, d[n], p0 - l, b0 - l) == FileEvents(n, d[n], p0, b0)
  {
    UnseenIdentity(d, ls, i, p0);
    UnseenIdentity(d, ls, i, b0);
  }

  /** The loop of lines 49-85 over the listing. A manifest that fails to
      load is reported and consumes nothing; one that loads consumes its
      identity from each list that holds it. Since no two manifest files
      share an identity, each check sees the list as it was at the start. */
  method Reconcile(mods: map<string, ManifestFile>, listing: seq<string>,
                   patch0: set<string>, blacklist0: set<string>)
    returns (result: map<string, ManifestFile>, patch: set<string>, blacklist: set<string>, log: seq<SideEvent>)
    requires IsListingOf(mods, listing)
    ensures result == ReconciledDir(mods, patch0, blacklist0)
    ensures patch == patch0 - LoadedIds(mods, listing)
    ensures blacklist == blacklist0 - LoadedIds(mods, listing)
    ensures log == SideLog(mods, listing, patch0, blacklist0)
  {
    result, patch, blacklist, log := mods, patch0, blacklist0, [];
    for i := 0 to |listing|
      invariant result == ReconciledPrefix(mods, listing[..i], patch0, blacklist0)
      invariant patch == patch0 - LoadedIds(mods, listing[..i])
      invariant blacklist == blacklist0 - LoadedIds(mods, listing[..i])
      invariant log == SideLog(mods, listing[..i], patch0, blacklist0)
    {
      var name := listing[i];
      assert listing[..i + 1][..i] == listing[..i];
      assert name in mods;
      ListStep(mods, listing, i, patch0);
      ListStep(mods, listing, i, blacklist0);
      if IsManifestName(name) {
        SeesInitialLists(mods, listing, i, patch0, blacklist0);
        var g, p, b, events := ReconcileFile(name, mods[name], patch, blacklist);
        result, patch, blacklist, log := result[name := g], p, b, log + events;
      }
    }
    assert listing[..|listing|] == listing;
    ReconciledPrefixIsDir(mods, listing, patch0, blacklist0);
  }

  /** main: without a mods directory nothing is read, not even the lists;
      otherwise both lists are loaded, the manifests reconciled, and each
      list's unconsumed names reported as a warning. */
  method UpdateSide(mods: Option<map<string, ManifestFile>>, listing: seq<string>,
                    patchFile: Option<seq<string>>, blacklistFile: Option<seq<string>>)
    returns (result: Option<map<string, ManifestFile>>, log: seq<SideEvent>)
    requires mods.Some? ==> IsListingOf(mods.value, listing)
    ensures mods.None? ==> result.None? && log == [ModsDirMissing]
    ensures mods.Some? ==>
      var patch0 := if patchFile.Some? then NameSet(patchFile.value) else {};
      var blacklist0 := if blacklistFile.Some? then NameSet(blacklistFile.value) else {};
      var patchLeft := patch0 - LoadedIds(mods.value, listing);
      var blacklistLeft := blacklist0 - LoadedIds(mods.value, listing);
      && result == Some(ReconciledDir(mods.value, patch0, blacklist0))
      && log == (if patchFile.None? then [PatchListMissing] else [])
                + (if blacklistFile.None? then [BlacklistMissing] else [])
                + SideLog(mods.value, listing, patch0, blacklist0)
                + (if patchLeft != {} then [UnmatchedPatchNames(patchLeft)] else [])
                + (if blacklistLeft != {} then [UnmatchedBlacklistNames(blacklistLeft)] else [])
  {
    if mods.None? {
      return None, [ModsDirMissing];
    }
    var patch0, patchMissing := LoadNameList(patchFile);
    var blacklist0, blacklistMissing := LoadNameList(blacklistFile);
    log := (if patchMissing then [PatchListMissing] else []) + (if blacklistMissing then [BlacklistMissing] else []);
    var d, patchLeft, blacklistLeft, events := Reconcile(mods.value, listing, patch0, blacklist0);
    log := log + events;
    if patchLeft != {} {
      log := log + [UnmatchedPatchNames(patchLeft)];
    }
    if blacklistLeft != {} {
      log := log + [UnmatchedBlacklistNames(blacklistLeft)];
    }
    result := Some(d);
  }

  /** A listed name is reported as unmatched exactly when no manifest that
      loaded has it as its identity; a manifest that failed to load does
      not consume its name. */
  lemma UnmatchedNames(d: map<string, ManifestFile>, ls: seq<string>, patch0: set<string>, name: string)
    requires IsListingOf(d, ls)
    ensures name in patch0 - LoadedIds(d, ls)
        <==> name in patch0 && (name + ManifestSuffix !in d || !d[name + ManifestSuffix].Parsed?)
  {
    var f := name + ManifestSuffix;
    BaseFilenameOfManifest(name);
    assert IsManifestName(f) by {
      assert f[|f| - |ManifestSuffix|..] == ManifestSuffix;
    }
    if name in LoadedIds(d, ls) {
      var m :| m in ls && m in d && IsManifestName(m) && d[m].Parsed? && BaseFilename(m) == name;
      if m != f {
        BaseFilenameInjective(m, f);
      }
    }
  }
}
