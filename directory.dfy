/** A flat directory as a map from file name to contents, and what
    `os.listdir` returns for it: every name exactly once, in an order nobody
    promises. */
module Directory {
  import opened Text

  /** Every pass over the mods directory looks only at names with this suffix. */
  const ManifestSuffix: string := ".pw.toml"

  predicate IsManifestName(name: string) {
    EndsWith(name, ManifestSuffix)
  }

  predicate NoDuplicates(ls: seq<string>) {
    forall i, j :: 0 <= i < j < |ls| ==> ls[i] != ls[j]
  }

  /** `ls` is a possible result of `os.listdir` on a directory holding `d`. */
  ghost predicate IsListingOf<C>(d: map<string, C>, ls: seq<string>) {
    && NoDuplicates(ls)
    && (forall n :: n in ls <==> n in d)
  }

  /** `os.listdir`: the names of `d`, each once, in an arbitrary order (each
      step picks any name not yet listed). */
  method ListDir<C>(d: map<string, C>) returns (ls: seq<string>)
    ensures IsListingOf(d, ls)
  {
    ls := [];
    var rest := d.Keys;
    while rest != {}
      invariant rest <= d.Keys
      invariant forall n :: n in ls <==> n in d && n !in rest
      invariant NoDuplicates(ls)
    {
      var n :| n in rest;
      ls := ls + [n];
      rest := rest - {n};
    }
  }

  /** The names of `ls` that end in `.pw.toml`, in listing order. */
  function ManifestNames(ls: seq<string>): (r: seq<string>)
    ensures forall n :: n in r <==> n in ls && IsManifestName(n)
  {
    if ls == [] then []
    else ManifestNames(ls[..|ls| - 1])
         + (if IsManifestName(ls[|ls| - 1]) then [ls[|ls| - 1]] else [])
  }

  /** The messages `report` gives for the `.pw.toml` files of `ls`, in
      listing order. */
  function Messages<C, E>(d: map<string, C>, ls: seq<string>, report: (string, C) -> seq<E>): seq<E> {
    if ls == [] then []
    else
      var n := ls[|ls| - 1];
      Messages(d, ls[..|ls| - 1], report)
      + (if n in d && IsManifestName(n) then report(n, d[n]) else [])
  }

  /** What a mods directory holds after `update` was applied to each of its
      `.pw.toml` files. */
  ghost function UpdatedManifests<C>(d: map<string, C>, update: C -> C): map<string, C> {
    map n | n in d :: if IsManifestName(n) then update(d[n]) else d[n]
  }

  /** The directory after the files of `ls` were handled one after the
      other: each `.pw.toml` file replaced by `update` of what it held. */
  function UpdatedPrefix<C>(d: map<string, C>, ls: seq<string>, update: C -> C): map<string, C> {
    if ls == [] then d
    else
      var n := ls[|ls| - 1];
      var m := UpdatedPrefix(d, ls[..|ls| - 1], update);
      if n in d && IsManifestName(n) then m[n := update(d[n])] else m
  }

  /** Handling the files of a listing one at a time updates exactly the
      listed manifests, each from its original contents. */
  lemma {:induction false} UpdatedPrefixFiles<C>(d: map<string, C>, ls: seq<string>, update: C -> C)
    requires forall n :: n in ls ==> n in d
    ensures UpdatedPrefix(d, ls, update) == map n | n in d ::
      if n in ls && IsManifestName(n) then update(d[n]) else d[n]
  {
    if ls != [] {
      var init := ls[..|ls| - 1];
      assert ls == init + [ls[|ls| - 1]];
      UpdatedPrefixFiles(d, init, update);
    }
  }

  /** The loop of the mods passes: `for filename in os.listdir(mods_dir)`,
      skipping every name that does not end in `.pw.toml`, and handling each
      manifest on its own: its new contents are `update` of the old, and the
      messages printed for it are `report` of its name and old contents.
      A file is handled once, so the order of the listing decides only the
      order of the messages. */
  method ForEachManifest<C, E>(d: map<string, C>, listing: seq<string>,
                               update: C -> C, report: (string, C) -> seq<E>)
    returns (result: map<string, C>, log: seq<E>)
    requires IsListingOf(d, listing)
    ensures result == UpdatedManifests(d, update)
    ensures log == Messages(d, listing, report)
  {
    result := d;
    log := [];
    for i := 0 to |listing|
      invariant result == UpdatedPrefix(d, listing[..i], update)
      invariant log == Messages(d, listing[..i], report)
    {
      var name := listing[i];
      assert listing[..i + 1][..i] == listing[..i];
      assert name in d;
      if IsManifestName(name) {
        var before := d[name];
        log := log + report(name, before);
        result := result[name := update(before)];
      }
    }
    assert listing[..|listing|] == listing;
    UpdatedPrefixFiles(d, listing, update);
  }

  /** The loop of the read-only passes: each `.pw.toml` file of the listing
      is examined on its own and nothing is written. */
  method ReportEachManifest<C, E>(d: map<string, C>, listing: seq<string>, report: (string, C) -> seq<E>)
    returns (log: seq<E>)
    requires forall n :: n in listing ==> n in d
    ensures log == Messages(d, listing, report)
  {
    log := [];
    for i := 0 to |listing|
      invariant log == Messages(d, listing[..i], report)
    {
      var name := listing[i];
      assert listing[..i + 1][..i] == listing[..i];
      if IsManifestName(name) {
        log := log + report(name, d[name]);
      }
    }
    assert listing[..|listing|] == listing;
  }
}
