/** The unknown-mod manifest builder (generate_toml_for_unknown_mods in
    start.py): for each complete configuration entry whose jar is present, a
    `.pw.toml` manifest is built from the entry and the jar file's SHA-256
    digest, and written to the mods directory, replacing any file of that
    name. */
module UnknownMods {
  import opened Text
  import opened Toml
  import opened Directory

  type Bytes = seq<bv8>

  /** The index of the last `c` in `p`, or -1: Python's `p.rfind(c)`. */
  function RFind(p: string, c: char): (r: int)
    ensures -1 <= r < |p|
    ensures r >= 0 ==> p[r] == c
    ensures forall j :: r < j < |p| ==> p[j] != c
  {
    if p == [] then -1
    else if p[|p| - 1] == c then |p| - 1
    else RFind(p[..|p| - 1], c)
  }

  /** Every character of `p[lo..hi]` is a period. */
  predicate AllDots(p: string, lo: int, hi: int)
    requires 0 <= lo && hi <= |p|
  {
    forall i :: lo <= i < hi ==> p[i] == '.'
  }

  /** `os.path.splitext(p)[0]` on POSIX: `p` without its extension, the text
      from the last period on, provided that period comes after the last
      `/` and is not one of the leading periods of the last component. */
  function SplitextRoot(p: string): (root: string)
    ensures |root| <= |p| && root == p[..|root|]
    ensures root != p ==> p[|root|] == '.' && '.' !in p[|root| + 1..] && '/' !in p[|root| + 1..]
    ensures root != p ==> exists i :: 0 <= i < |root| && root[i] != '.' && '/' !in root[i..]
  {
    var sep, dot := RFind(p, '/'), RFind(p, '.');
    if dot > sep && !AllDots(p, sep + 1, dot) then
      var root := p[..dot];
      assert forall j :: dot < j < |p| ==> p[j] != '.' && p[j] != '/';
      var i :| sep + 1 <= i < dot && p[i] != '.';
      assert root[i] != '.' && '/' !in root[i..];
      root
    else p
  }

  /** The converse: when the last component has a period after some
      character other than a period, an extension is dropped, and it starts
      at or after that period. */
  lemma SplitextSplits(p: string, i: int, j: int)
    requires 0 <= i < j < |p| && p[i] != '.' && p[j] == '.' && '/' !in p[i..]
    ensures SplitextRoot(p) != p && |SplitextRoot(p)| >= j
  {
    var sep, dot := RFind(p, '/'), RFind(p, '.');
    assert sep < i;
    assert dot >= j;
    assert !AllDots(p, sep + 1, dot);
  }

  /** A jar name such as `mod-1.2.jar` loses exactly its `.jar`. */
  lemma SplitextOfExtension(stem: string, ext: string)
    requires '/' !in stem && exists i :: 0 <= i < |stem| && stem[i] != '.'
    requires '.' !in ext && '/' !in ext
    ensures SplitextRoot(stem + "." + ext) == stem
  {
    var p := stem + "." + ext;
    var dot := RFind(p, '.');
    assert p[|stem|] == '.';
    assert dot == |stem| by {
      assert forall j :: |stem| < j < |p| ==> p[j] == ext[j - |stem| - 1];
    }
    var sep := RFind(p, '/');
    assert sep < |stem| by {
      assert forall j :: 0 <= j < |stem| ==> p[j] == stem[j];
    }
    assert sep == -1 by {
      assert forall j :: 0 <= j < |stem| ==> p[j] == stem[j];
    }
    var i :| 0 <= i < |stem| && stem[i] != '.';
    assert p[i] != '.';
    assert p[..|stem|] == stem;
  }

  /** A name without a period has no extension. */
  lemma SplitextWithoutPeriod(p: string)
    requires '.' !in p
    ensures SplitextRoot(p) == p
  {
  }

  /** A name made only of leading periods and one more dotted part, such as
      `.jar`, is all stem: its period is a leading one. */
  lemma SplitextHidden(ext: string)
    requires '.' !in ext && '/' !in ext
    ensures SplitextRoot("." + ext) == "." + ext
  {
    var p := "." + ext;
    assert forall j :: 1 <= j < |p| ==> p[j] == ext[j - 1];
    assert p[0] == '.';
    assert RFind(p, '.') == 0;
    assert RFind(p, '/') == -1;
  }

  /** The name of the manifest written for a jar (line 90). */
  function TomlFilename(filename: string): (r: string)
    ensures IsManifestName(r)
    ensures r == SplitextRoot(filename) + ManifestSuffix
  {
    var r := SplitextRoot(filename) + ManifestSuffix;
    assert r[|r| - |ManifestSuffix|..] == ManifestSuffix;
    r
  }

  /** One entry of the configured list, a dictionary of strings. */
  type Entry = map<string, string>

  /** Python's `entry.get(key)`, with a missing key and an empty string both
      false for `not`. */
  predicate HasValue(entry: Entry, key: string) {
    key in entry && entry[key] != ""
  }

  /** `entry.get('side', 'both')`. */
  function SideOf(entry: Entry): string {
    if "side" in entry then entry["side"] else "both"
  }

  /** The manifest of lines 77-87. */
  function ManifestRecord(name: string, filename: string, side: string, urlBase: string, hash: string): (doc: Doc)
    ensures doc.Keys == {"name", "filename", "side", "download"}
    ensures doc["download"].Table? && doc["download"].fields.Keys == {"url", "hash", "hash-format", "mode"}
    ensures doc["name"] == Str(name) && doc["filename"] == Str(filename) && doc["side"] == Str(side)
    ensures doc["download"].fields["url"] == Str(urlBase + filename)
    ensures doc["download"].fields["hash"] == Str(hash)
    ensures doc["download"].fields["hash-format"] == Str("sha256")
    ensures doc["download"].fields["mode"] == Str("url")
  {
    map[
      "name" := Str(name),
      "filename" := Str(filename),
      "side" := Str(side),
      "download" := Table(map[
        "url" := Str(urlBase + filename),
        "hash" := Str(hash),
        "hash-format" := Str("sha256"),
        "mode" := Str("url")])]
  }

  /** What the builder prints. */
  datatype UnknownEvent =
    | UnknownDirMissing
    | Incomplete(entry: Entry)
    | JarMissing(filename: string)
    | Created(filename: string, tomlName: string)

  /** What happens to one entry: skipped with a message, or a manifest to
      write under a name. */
  datatype Outcome = Skipped(event: UnknownEvent) | Write(tomlName: string, doc: Doc)

  /** One turn of the loop of lines 56-96; `digest` stands for the SHA-256
      hex digest of lines 71-74. */
  function EntryOutcome(entry: Entry, jars: map<string, Bytes>, urlBase: string, digest: Bytes -> string): (r: Outcome)
    ensures r.Skipped? && r.event.Incomplete? <==> !HasValue(entry, "filename") || !HasValue(entry, "name")
    ensures r.Skipped? && r.event.JarMissing? <==>
      HasValue(entry, "filename") && HasValue(entry, "name") && entry["filename"] !in jars
    ensures HasValue(entry, "filename") && HasValue(entry, "name") && entry["filename"] in jars ==> r.Write?
    ensures r.Write? ==>
      && HasValue(entry, "filename") && HasValue(entry, "name") && entry["filename"] in jars
      && r.tomlName == TomlFilename(entry["filename"])
      && r.doc == ManifestRecord(entry["name"], entry["filename"], SideOf(entry), urlBase, digest(jars[entry["filename"]]))
  {
    if !HasValue(entry, "filename") || !HasValue(entry, "name") then Skipped(Incomplete(entry))
    else
      var filename := entry["filename"];
      if filename !in jars then Skipped(JarMissing(filename))
      else Write(TomlFilename(filename), ManifestRecord(entry["name"], filename, SideOf(entry), urlBase, digest(jars[filename])))
  }

  /** The mods directory after the entries of `es`, in order: every write
      replaces what the name held, including a manifest written for an
      earlier entry. */
  function Generated(mods: map<string, ManifestFile>, es: seq<Entry>, jars: map<string, Bytes>,
                     urlBase: string, digest: Bytes -> string): map<string, ManifestFile>
  {
    if es == [] then mods
    else
      Applied(Generated(mods, es[..|es| - 1], jars, urlBase, digest), EntryOutcome(es[|es| - 1], jars, urlBase, digest))
  }

  /** What the loop prints for the entries of `es`. */
  function GeneratedLog(es: seq<Entry>, jars: map<string, Bytes>, urlBase: string, digest: Bytes -> string): seq<UnknownEvent> {
    if es == [] then []
    else
      var e := es[|es| - 1];
      GeneratedLog(es[..|es| - 1], jars, urlBase, digest) + OutcomeLog(e, EntryOutcome(e, jars, urlBase, digest))
  }

  /** The mods directory after one entry's outcome. */
  function Applied(mods: map<string, ManifestFile>, o: Outcome): map<string, ManifestFile> {
    match o
    case Skipped(_) => mods
    case Write(n, doc) => mods[n := Parsed(doc)]
  }

  /** What the loop prints for one entry. */
  function OutcomeLog(entry: Entry, o: Outcome): seq<UnknownEvent>
    requires o.Write? ==> "filename" in entry
  {
    match o
    case Skipped(ev) => [ev]
    case Write(n, _) => [Created(entry["filename"], n)]
  }

  /** One turn of the loop of lines 56-96: each `continue` of the source is
      an early return. */
  method HandleEntry(entry: Entry, dir: map<string, Bytes>, mods: map<string, ManifestFile>,
                     urlBase: string, digest: Bytes -> string)
    returns (result: map<string, ManifestFile>, events: seq<UnknownEvent>)
    ensures result == Applied(mods, EntryOutcome(entry, dir, urlBase, digest))
    ensures events == OutcomeLog(entry, EntryOutcome(entry, dir, urlBase, digest))
  {
    var filename := if "filename" in entry then entry["filename"] else "";
    var name := if "name" in entry then entry["name"] else "";
    var side := SideOf(entry);
    if filename == "" || name == "" {
      return mods, [Incomplete(entry)];
    }
    if filename !in dir {
      return mods, [JarMissing(filename)];
    }
    var hash := digest(dir[filename]);
    var doc := ManifestRecord(name, filename, side, urlBase, hash);
    var tomlName := SplitextRoot(filename) + ManifestSuffix;
    result := mods[tomlName := Parsed(doc)];
    events := [Created(filename, tomlName)];
  }

  /** generate_toml_for_unknown_mods: `jars` stands for the unknown-mods
      directory, `mods` for the mods directory the manifests are written to,
      and each manifest is recorded as the document `toml.dump` serialises. */
  method GenerateUnknownMods(entries: seq<Entry>, jars: Option<map<string, Bytes>>, mods: map<string, ManifestFile>,
                             urlBase: string, digest: Bytes -> string)
    returns (result: map<string, ManifestFile>, log: seq<UnknownEvent>)
    ensures jars.None? ==> result == mods && log == [UnknownDirMissing]
    ensures jars.Some? ==> result == Generated(mods, entries, jars.value, urlBase, digest)
    ensures jars.Some? ==> log == GeneratedLog(entries, jars.value, urlBase, digest)
  {
    if jars.None? {
      return mods, [UnknownDirMissing];
    }
    var dir := jars.value;
    result, log := mods, [];
    for i := 0 to |entries|
      invariant result == Generated(mods, entries[..i], dir, urlBase, digest)
      invariant log == GeneratedLog(entries[..i], dir, urlBase, digest)
    {
      var entry := entries[i];
      assert entries[..i + 1][..i] == entries[..i];
      assert entries[..i + 1][i] == entry;
      var events;
      result, events := HandleEntry(entry, dir, result, urlBase, digest);
      log := log + events;
    }
    assert entries[..|entries|] == entries;
  }

  /** The manifest names the entries of `es` write. */
  function Written(es: seq<Entry>, jars: map<string, Bytes>, urlBase: string, digest: Bytes -> string): set<string> {
    if es == [] then {}
    else
      Written(es[..|es| - 1], jars, urlBase, digest)
      + match EntryOutcome(es[|es| - 1], jars, urlBase, digest)
        case Skipped(_) => {}
        case Write(n, _) => {n}
  }

  /** The builder adds the manifests it writes, each as a loaded document,
      and leaves every other file of the mods directory as it was. */
  lemma {:induction false} GeneratedFiles(mods: map<string, ManifestFile>, es: seq<Entry>, jars: map<string, Bytes>,
                                          urlBase: string, digest: Bytes -> string)
    ensures var g := Generated(mods, es, jars, urlBase, digest);
      && g.Keys == mods.Keys + Written(es, jars, urlBase, digest)
      && (forall n :: n in g && n !in Written(es, jars, urlBase, digest) ==> g[n] == mods[n])
      && (forall n :: n in Written(es, jars, urlBase, digest) ==> g[n].Parsed?)
  {
    if es != [] {
      GeneratedFiles(mods, es[..|es| - 1], jars, urlBase, digest);
    }
  }

  /** The entry is complete, its jar is present, and its manifest is `n`. */
  predicate Writes(e: Entry, jars: map<string, Bytes>, n: string) {
    HasValue(e, "filename") && HasValue(e, "name") && e["filename"] in jars && TomlFilename(e["filename"]) == n
  }

  /** The last entry adds its manifest name, if it writes one. */
  lemma WrittenLast(es: seq<Entry>, jars: map<string, Bytes>, urlBase: string, digest: Bytes -> string, n: string)
    requires es != []
    ensures n in Written(es, jars, urlBase, digest)
        <==> n in Written(es[..|es| - 1], jars, urlBase, digest) || Writes(es[|es| - 1], jars, n)
  {
    var o := EntryOutcome(es[|es| - 1], jars, urlBase, digest);
    assert o.Write? && o.tomlName == n <==> Writes(es[|es| - 1], jars, n);
  }

  /** A written name comes from some entry that writes it. */
  lemma {:induction false} WrittenWitness(es: seq<Entry>, jars: map<string, Bytes>, urlBase: string,
                                          digest: Bytes -> string, n: string)
    returns (k: nat)
    requires n in Written(es, jars, urlBase, digest)
    ensures k < |es| && Writes(es[k], jars, n)
  {
    WrittenLast(es, jars, urlBase, digest, n);
    var init := es[..|es| - 1];
    if n in Written(init, jars, urlBase, digest) {
      k := WrittenWitness(init, jars, urlBase, digest, n);
      assert es[k] == init[k];
    } else {
      k := |es| - 1;
    }
  }

  /** Every entry that writes a name puts it among the written ones. */
  lemma {:induction false} WitnessWritten(es: seq<Entry>, jars: map<string, Bytes>, urlBase: string,
                                          digest: Bytes -> string, n: string, k: nat)
    requires k < |es| && Writes(es[k], jars, n)
    ensures n in Written(es, jars, urlBase, digest)
  {
    WrittenLast(es, jars, urlBase, digest, n);
    if k < |es| - 1 {
      var init := es[..|es| - 1];
      assert init[k] == es[k];
      WitnessWritten(init, jars, urlBase, digest, n, k);
    }
  }

  /** An entry writes a manifest exactly when it is complete and its jar is
      present, and the manifest is named after the jar. */
  lemma WrittenNames(es: seq<Entry>, jars: map<string, Bytes>, urlBase: string, digest: Bytes -> string, n: string)
    ensures n in Written(es, jars, urlBase, digest) <==> exists k :: 0 <= k < |es| && Writes(es[k], jars, n)
  {
    if n in Written(es, jars, urlBase, digest) {
      var k := WrittenWitness(es, jars, urlBase, digest, n);
    }
    if exists k :: 0 <= k < |es| && Writes(es[k], jars, n) {
      var k :| 0 <= k < |es| && Writes(es[k], jars, n);
      WitnessWritten(es, jars, urlBase, digest, n, k);
    }
  }

  /** The manifest an entry that writes a name records. */
  function EntryRecord(e: Entry, jars: map<string, Bytes>, urlBase: string, digest: Bytes -> string): Doc
    requires HasValue(e, "filename") && HasValue(e, "name") && e["filename"] in jars
  {
    ManifestRecord(e["name"], e["filename"], SideOf(e), urlBase, digest(jars[e["filename"]]))
  }

  /** Entry `k` writes `n` and no later entry does. */
  predicate LastWrites(es: seq<Entry>, jars: map<string, Bytes>, n: string, k: nat) {
    k < |es| && Writes(es[k], jars, n) && forall j :: k < j < |es| ==> !Writes(es[j], jars, n)
  }

  /** Entry `k` of `es` is the last to write `n` exactly when it is the last
      in its prefix `init` and the last entry of `es` does not write `n`. */
  lemma LastWritesInit(es: seq<Entry>, init: seq<Entry>, jars: map<string, Bytes>, n: string, k: nat)
    requires es != [] && init == es[..|es| - 1] && k < |init|
    ensures LastWrites(es, jars, n, k) <==> LastWrites(init, jars, n, k) && !Writes(es[|es| - 1], jars, n)
  {
    forall j | k <= j < |init|
      ensures es[j] == init[j]
    {
    }
  }

  /** A written name has a last entry that writes it. */
  lemma {:induction false} LastWriterIndex(es: seq<Entry>, jars: map<string, Bytes>, urlBase: string,
                                           digest: Bytes -> string, n: string)
    returns (k: nat)
    requires n in Written(es, jars, urlBase, digest)
    ensures LastWrites(es, jars, n, k)
  {
    var init, last := es[..|es| - 1], es[|es| - 1];
    if Writes(last, jars, n) {
      k := |es| - 1;
    } else {
      WrittenLast(es, jars, urlBase, digest, n);
      k := LastWriterIndex(init, jars, urlBase, digest, n);
      LastWritesInit(es, init, jars, n, k);
    }
  }

  /** Once entry `k` is the last to write `n`, `n` holds its record. */
  lemma {:induction false} GeneratedAfterLastWriter(mods: map<string, ManifestFile>, es: seq<Entry>,
                                                    jars: map<string, Bytes>, urlBase: string,
                                                    digest: Bytes -> string, n: string, k: nat)
    requires LastWrites(es, jars, n, k)
    ensures n in Generated(mods, es, jars, urlBase, digest)
    ensures Generated(mods, es, jars, urlBase, digest)[n] == Parsed(EntryRecord(es[k], jars, urlBase, digest))
  {
    var init, last := es[..|es| - 1], es[|es| - 1];
    var o := EntryOutcome(last, jars, urlBase, digest);
    var before := Generated(mods, init, jars, urlBase, digest);
    var g := Generated(mods, es, jars, urlBase, digest);
    var record := EntryRecord(es[k], jars, urlBase, digest);
    assert g == Applied(before, o);
    if k == |es| - 1 {
      assert o == Write(n, record);
      assert g[n] == Parsed(record);
    } else {
      LastWritesInit(es, init, jars, n, k);
      GeneratedAfterLastWriter(mods, init, jars, urlBase, digest, n, k);
      assert init[k] == es[k];
      assert n in before && before[n] == Parsed(record);
      assert o.Write? ==> o.tomlName != n;
      assert g[n] == before[n];
    }
  }

  /** The manifest a written name holds is the record of the last entry
      that writes it: a later entry overwrites an earlier one's file. */
  lemma LastWriter(mods: map<string, ManifestFile>, es: seq<Entry>, jars: map<string, Bytes>,
                   urlBase: string, digest: Bytes -> string, n: string)
    returns (k: nat)
    requires n in Written(es, jars, urlBase, digest)
    ensures LastWrites(es, jars, n, k)
    ensures n in Generated(mods, es, jars, urlBase, digest)
    ensures Generated(mods, es, jars, urlBase, digest)[n] == Parsed(EntryRecord(es[k], jars, urlBase, digest))
  {
    k := LastWriterIndex(es, jars, urlBase, digest, n);
    GeneratedAfterLastWriter(mods, es, jars, urlBase, digest, n, k);
  }
}
