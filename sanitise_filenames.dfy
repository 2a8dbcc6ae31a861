/** The file-name sanitiser (sanitise_filenames.py, and its copy
    script/sanitise_filenames.py): in each configured directory every `.zip`
    file whose name holds a space or a square bracket is renamed, spaces
    becoming `_` and brackets being deleted. Nothing checks whether the new
    name is already taken. */
module SanitiseFilenames {
  import opened Text
  import opened Directory

  const ZipSuffix: string := ".zip"

  predicate IsZip(name: string) {
    EndsWith(name, ZipSuffix)
  }

  /** The two steps of lines 20-21: `replace(' ', '_')`, then `re.sub` of
      the class `[\[\]]` with nothing. */
  function SanitiseName(name: string): string {
    RemoveChars(ReplaceChar(name, ' ', "_"), {'[', ']'})
  }

  /** What one character of the name becomes. */
  function SanitiseChar(c: char): string {
    if c == ' ' then "_" else if c == '[' || c == ']' then "" else [c]
  }

  /** Reference definition: the name rewritten one character at a time. */
  function PerChar(name: string): string {
    if name == [] then [] else SanitiseChar(name[0]) + PerChar(name[1..])
  }

  lemma {:induction false} PerCharAppend(a: string, b: string)
    ensures PerChar(a + b) == PerChar(a) + PerChar(b)
  {
    if a != [] {
      assert (a + b)[1..] == a[1..] + b;
      PerCharAppend(a[1..], b);
    } else {
      assert a + b == b;
    }
  }

  /** The replacement and the deletion act on each character independently:
      `_` is never deleted. */
  lemma {:induction false} SanitiseNameIsPerChar(name: string)
    ensures SanitiseName(name) == PerChar(name)
  {
    if name != [] {
      var c, rest := name[0], name[1..];
      assert name == [c] + rest;
      ReplaceCharAppend([c], rest, ' ', "_");
      assert [c][1..] == [];
      var a := ReplaceChar([c], ' ', "_");
      assert a == if c == ' ' then "_" else [c];
      RemoveCharsAppend(a, ReplaceChar(rest, ' ', "_"), {'[', ']'});
      assert a[1..] == [];
      SanitiseNameIsPerChar(rest);
    }
  }

  lemma {:induction false} PerCharIsClean(name: string)
    ensures !HasUnsafe(PerChar(name))
  {
    if name != [] {
      PerCharIsClean(name[1..]);
    }
  }

  lemma {:induction false} PerCharKeepsClean(name: string)
    requires !HasUnsafe(name)
    ensures PerChar(name) == name
  {
    if name != [] {
      assert name == [name[0]] + name[1..];
      PerCharKeepsClean(name[1..]);
    }
  }

  /** The sanitised name has no space and no square bracket; sanitising it
      again gives the same name; and a name changes exactly when it holds
      one of the three characters. */
  lemma SanitiseNameProperties(name: string)
    ensures !HasUnsafe(SanitiseName(name))
    ensures SanitiseName(SanitiseName(name)) == SanitiseName(name)
    ensures SanitiseName(name) != name <==> HasUnsafe(name)
  {
    SanitiseNameIsPerChar(name);
    PerCharIsClean(name);
    SanitiseNameIsPerChar(SanitiseName(name));
    PerCharKeepsClean(SanitiseName(name));
    if !HasUnsafe(name) {
      PerCharKeepsClean(name);
    }
  }

  /** A `.zip` name stays a `.zip` name: the stem is sanitised and the
      suffix kept as it is. */
  lemma SanitiseKeepsZip(name: string)
    requires IsZip(name)
    ensures SanitiseName(name) == SanitiseName(name[..|name| - |ZipSuffix|]) + ZipSuffix
    ensures IsZip(SanitiseName(name))
  {
    var stem := name[..|name| - |ZipSuffix|];
    assert name == stem + ZipSuffix;
    SanitiseNameIsPerChar(name);
    SanitiseNameIsPerChar(stem);
    PerCharAppend(stem, ZipSuffix);
    PerCharKeepsClean(ZipSuffix);
    var r := SanitiseName(name);
    assert r[|r| - |ZipSuffix|..] == ZipSuffix;
  }

  /** Where the pass moves a file: a `.zip` file to its sanitised name,
      which is its own name when that is already clean; any other file
      stays where it is. */
  function Target(name: string): string {
    if IsZip(name) then SanitiseName(name) else name
  }

  /** A file keeps its name unless it is a `.zip` file whose name holds a
      space or a bracket; a `.zip` file's target is a clean `.zip` name. */
  lemma TargetProperties(name: string)
    ensures !IsZip(name) ==> Target(name) == name
    ensures IsZip(name) ==> IsZip(Target(name)) && !HasUnsafe(Target(name))
    ensures Target(name) != name <==> IsZip(name) && HasUnsafe(name)
  {
    SanitiseNameProperties(name);
    if IsZip(name) {
      SanitiseKeepsZip(name);
    }
  }

  /** A sanitised name is a fixed point of the sanitiser. */
  lemma TargetIdempotent()
    ensures forall n :: Target(Target(n)) == Target(n)
  {
    forall n
      ensures Target(Target(n)) == Target(n)
    {
      TargetProperties(n);
      SanitiseNameProperties(n);
    }
  }

  /** `os.rename` on a directory held as a map, as POSIX does it: the entry
      moves to the new name, replacing whatever the new name held. */
  function Rename<C>(m: map<string, C>, from: string, to: string): map<string, C> {
    if from in m then (m - {from})[to := m[from]] else m
  }

  /** The directory after the loop of lines 15-30 has handled the names of
      `ls`, in order, each file being renamed to `target` of its name when
      that differs. The pass is this with Target; the lemmas below hold for
      any target that is its own fixed point. */
  function RenameAll<C>(d: map<string, C>, ls: seq<string>, target: string -> string): map<string, C> {
    if ls == [] then d
    else
      var n := ls[|ls| - 1];
      var m := RenameAll(d, ls[..|ls| - 1], target);
      if target(n) != n then Rename(m, n, target(n)) else m
  }

  /** A rename, as the three lines the pass prints about it report it. */
  datatype Renamed = Renamed(original: string, updated: string)

  /** The renames the loop makes for `ls`, in order. */
  function RenameLog(ls: seq<string>, target: string -> string): (r: seq<Renamed>)
    ensures forall e :: e in r ==> e.updated == target(e.original) && e.updated != e.original
  {
    if ls == [] then []
    else
      var n := ls[|ls| - 1];
      RenameLog(ls[..|ls| - 1], target) + if target(n) != n then [Renamed(n, target(n))] else []
  }

  /** A rename is logged for a name of `ls` exactly when its target
      differs from it. */
  lemma {:induction false} RenameLogMembers(ls: seq<string>, target: string -> string, e: Renamed)
    ensures e in RenameLog(ls, target) <==> e.original in ls && e.updated == target(e.original) && e.updated != e.original
  {
    if ls != [] {
      var init, n := ls[..|ls| - 1], ls[|ls| - 1];
      assert ls == init + [n];
      RenameLogMembers(init, target, e);
    }
  }

  /** The body of the loop, lines 16-30, for one name of the listing. */
  method SanitiseEntry<C>(m: map<string, C>, filename: string) returns (r: map<string, C>, events: seq<Renamed>)
    requires filename in m
    ensures r == (if Target(filename) != filename then Rename(m, filename, Target(filename)) else m)
    ensures events == if Target(filename) != filename then [Renamed(filename, Target(filename))] else []
  {
    r, events := m, [];
    if IsZip(filename) {
      var sanitised := ReplaceChar(filename, ' ', "_");
      sanitised := RemoveChars(sanitised, {'[', ']'});
      if filename != sanitised {
        r := (m - {filename})[sanitised := m[filename]];
        events := [Renamed(filename, sanitised)];
      }
    }
  }

  /** sanitize_and_update_filenames on a directory that exists, with the
      listing taken once before the loop. */
  method SanitiseDirectory<C>(d: map<string, C>, listing: seq<string>) returns (result: map<string, C>, log: seq<Renamed>)
    requires IsListingOf(d, listing)
    ensures result == RenameAll(d, listing, Target)
    ensures log == RenameLog(listing, Target)
  {
    result, log := d, [];
    for i := 0 to |listing|
      invariant result == RenameAll(d, listing[..i], Target)
      invariant log == RenameLog(listing[..i], Target)
      invariant forall n :: n in listing[i..] ==> n in result
    {
      var filename := listing[i];
      assert listing[..i + 1][..i] == listing[..i];
      assert forall n :: n in listing[i + 1..] ==> n in listing[i..] && n != filename;
      var events;
      result, events := SanitiseEntry(result, filename);
      log := log + events;
    }
    assert listing[..|listing|] == listing;
  }

  /** Every name of the directory goes to its target. */
  function Targets(names: set<string>, target: string -> string): set<string> {
    set n | n in names :: target(n)
  }

  /** No two files of the directory have the same target: in particular, no
      `.zip` file sanitises to the name of another file. */
  predicate NoCollisions(names: set<string>, target: string -> string) {
    forall a, b :: a in names && b in names && target(a) == target(b) ==> a == b
  }

  /** After a prefix `p` of the listing, the names not yet handled are
      still there and each handled name has been replaced by its target. */
  lemma {:induction false} RenameAllKeys<C>(d: map<string, C>, p: seq<string>, target: string -> string)
    requires forall n :: target(target(n)) == target(n)
    requires NoDuplicates(p) && forall n :: n in p ==> n in d
    ensures RenameAll(d, p, target).Keys == (d.Keys - set n | n in p) + (set n | n in p :: target(n))
  {
    if p != [] {
      var init, n := p[..|p| - 1], p[|p| - 1];
      assert p == init + [n];
      assert NoDuplicates(init);
      RenameAllKeys(d, init, target);
      if target(n) != n {
        // a name the pass renames is no name's target
        assert forall k :: k in init ==> target(k) != n;
      }
    }
  }

  /** Without collisions, after a prefix `p` of the listing every file has
      its old contents under its new name. */
  lemma {:induction false} RenameAllContents<C>(d: map<string, C>, p: seq<string>, target: string -> string)
    requires forall n :: target(target(n)) == target(n)
    requires NoDuplicates(p) && forall n :: n in p ==> n in d
    requires NoCollisions(d.Keys, target)
    ensures var m := RenameAll(d, p, target);
      forall n :: n in d ==> if n in p then target(n) in m && m[target(n)] == d[n] else n in m && m[n] == d[n]
  {
    if p != [] {
      var init, n := p[..|p| - 1], p[|p| - 1];
      assert p == init + [n];
      assert NoDuplicates(init);
      assert n !in init;
      RenameAllContents(d, init, target);
      var m := RenameAll(d, init, target);
      assert n in m;
      if target(n) != n {
        forall k | k in d
          ensures if k in p then target(k) in RenameAll(d, p, target) && RenameAll(d, p, target)[target(k)] == d[k]
                  else k in RenameAll(d, p, target) && RenameAll(d, p, target)[k] == d[k]
        {
          if k != n {
            assert target(k) != target(n);
          }
        }
      }
    }
  }

  /** Both halves together. */
  lemma RenameAllPrefix<C>(d: map<string, C>, p: seq<string>, target: string -> string)
    requires forall n :: target(target(n)) == target(n)
    requires NoDuplicates(p) && forall n :: n in p ==> n in d
    ensures var m := RenameAll(d, p, target);
      m.Keys == (d.Keys - set n | n in p) + (set n | n in p :: target(n))
    ensures var m := RenameAll(d, p, target);
      NoCollisions(d.Keys, target) ==>
        forall n :: n in d ==> if n in p then target(n) in m && m[target(n)] == d[n] else n in m && m[n] == d[n]
  {
    RenameAllKeys(d, p, target);
    if NoCollisions(d.Keys, target) {
      RenameAllContents(d, p, target);
    }
  }

  /** The directory after the pass: exactly the targets of its old names;
      without collisions, each file under its target with its contents.
      Which listing order the system gave does not matter then. */
  lemma RenameAllResult<C>(d: map<string, C>, ls: seq<string>)
    requires IsListingOf(d, ls)
    ensures RenameAll(d, ls, Target).Keys == Targets(d.Keys, Target)
    ensures NoCollisions(d.Keys, Target) ==> forall n :: n in d ==> RenameAll(d, ls, Target)[Target(n)] == d[n]
  {
    TargetIdempotent();
    RenameAllPrefix(d, ls, Target);
    assert (set n | n in ls) == d.Keys;
  }

  /** A directory whose names are all their own targets is left as it is:
      a second pass renames nothing. */
  lemma {:induction false} RenameAllClean<C>(d: map<string, C>, ls: seq<string>, target: string -> string)
    requires forall n :: n in ls ==> target(n) == n
    ensures RenameAll(d, ls, target) == d
    ensures RenameLog(ls, target) == []
  {
    if ls != [] {
      assert ls[|ls| - 1] in ls;
      RenameAllClean(d, ls[..|ls| - 1], target);
    }
  }

  lemma PerCharOfZip(stem: string)
    requires !HasUnsafe(stem)
    ensures PerChar(stem + ZipSuffix) == stem + ZipSuffix
  {
    PerCharAppend(stem, ZipSuffix);
    PerCharKeepsClean(stem);
    PerCharKeepsClean(ZipSuffix);
  }

  lemma PerCharCons(c: char, s: string)
    ensures PerChar([c] + s) == SanitiseChar(c) + PerChar(s)
  {
    assert ([c] + s)[1..] == s;
  }

  lemma PerCharOfBracketed(stem: string)
    requires !HasUnsafe(stem)
    ensures PerChar("[" + stem + "]" + ZipSuffix) == stem + ZipSuffix
  {
    var z := ZipSuffix;
    var r1 := [']'] + z;
    assert PerChar(r1) == z by {
      PerCharCons(']', z);
      PerCharKeepsClean(z);
    }
    var r2 := stem + r1;
    assert PerChar(r2) == stem + z by {
      PerCharAppend(stem, r1);
      PerCharKeepsClean(stem);
    }
    var r3 := ['['] + r2;
    assert PerChar(r3) == stem + z by {
      PerCharCons('[', r2);
    }
    assert r3 == "[" + stem + "]" + ZipSuffix;
  }

  /** A bracketed stem loses its brackets: `[Mod].zip` goes to `Mod.zip`. */
  lemma TargetOfBracketed(stem: string)
    requires !HasUnsafe(stem)
    ensures IsZip("[" + stem + "]" + ZipSuffix) && IsZip(stem + ZipSuffix)
    ensures Target("[" + stem + "]" + ZipSuffix) == stem + ZipSuffix
    ensures Target(stem + ZipSuffix) == stem + ZipSuffix
  {
    var bad, good := "[" + stem + "]" + ZipSuffix, stem + ZipSuffix;
    assert bad[|bad| - |ZipSuffix|..] == ZipSuffix;
    assert good[|good| - |ZipSuffix|..] == ZipSuffix;
    PerCharOfBracketed(stem);
    PerCharOfZip(stem);
    SanitiseNameIsPerChar(bad);
    SanitiseNameIsPerChar(good);
  }

  /** Without a guard a rename can replace a file: `[Mod].zip` sanitises to
      `Mod.zip`, so when both are present the contents of `Mod.zip` are lost
      whatever the listing order. */
  lemma CollisionOverwrites<C>(stem: string, a: C, b: C)
    requires !HasUnsafe(stem)
    ensures var bad, good := "[" + stem + "]" + ZipSuffix, stem + ZipSuffix;
      var d := map[bad := a, good := b];
      && RenameAll(d, [good, bad], Target) == map[good := a]
      && RenameAll(d, [bad, good], Target) == map[good := a]
  {
    var bad, good := "[" + stem + "]" + ZipSuffix, stem + ZipSuffix;
    TargetOfBracketed(stem);
    assert |bad| != |good|;
    var d := map[bad := a, good := b];
    var ls := [good, bad];
    assert ls[..1] == [good] && [good][..0] == [];
    assert RenameAll(d, ls[..1], Target) == d;
    assert RenameAll(d, ls, Target) == Rename(d, bad, good);
    var ls2 := [bad, good];
    assert ls2[..1] == [bad] && [bad][..0] == [];
    assert RenameAll(d, ls2[..1], Target) == Rename(d, bad, good);
    assert RenameAll(d, ls2, Target) == Rename(d, bad, good);
    assert Rename(d, bad, good) == map[good := a];
  }

  /** What a directory holds after a pass over `before`: exactly the targets
      of its names, and without collisions each file under its target. */
  ghost predicate SanitisedFrom<C>(before: map<string, C>, after: map<string, C>) {
    && after.Keys == Targets(before.Keys, Target)
    && (NoCollisions(before.Keys, Target) ==> forall n :: n in before ==> after[Target(n)] == before[n])
  }

  /** A directory the pass has been over holds only names that are their
      own targets. */
  lemma SanitisedIsClean<C>(before: map<string, C>, after: map<string, C>)
    requires SanitisedFrom(before, after)
    ensures forall k :: k in after ==> Target(k) == k
  {
    TargetIdempotent();
  }

  /** Every rename reported moves a file to its target. */
  predicate TrueRenames(renames: seq<Renamed>) {
    forall e :: e in renames ==> e.updated == Target(e.original) != e.original
  }

  /** The renames reported for `before` are those of its files whose
      target differs from their name, each with that target. */
  predicate ReportsRenames<C>(before: map<string, C>, renames: seq<Renamed>) {
    && TrueRenames(renames)
    && (forall e :: e in renames ==> e.original in before)
    && (forall k :: k in before && Target(k) != k ==> Renamed(k, Target(k)) in renames)
  }

  /** sanitize_and_update_filenames on a directory that exists, listing it
      first. */
  method SanitiseExisting<C>(before: map<string, C>) returns (after: map<string, C>, renames: seq<Renamed>)
    ensures SanitisedFrom(before, after)
    ensures ReportsRenames(before, renames)
    ensures (forall k :: k in before ==> Target(k) == k) ==> after == before && renames == []
  {
    var listing := ListDir(before);
    after, renames := SanitiseDirectory(before, listing);
    RenameAllResult(before, listing);
    forall e | e in renames
      ensures e.original in before
    {
      RenameLogMembers(listing, Target, e);
    }
    forall k | k in before && Target(k) != k
      ensures Renamed(k, Target(k)) in renames
    {
      RenameLogMembers(listing, Target, Renamed(k, Target(k)));
    }
    if forall k :: k in before ==> Target(k) == k {
      RenameAllClean(before, listing, Target);
    }
  }

  /** What the pass prints about one configured directory. */
  datatype DirVisit = DirVisit(dir: string, found: bool, renames: seq<Renamed>)

  /** The configured directories of `done` have been sanitised and every
      other directory is as it was in `fs`. */
  ghost predicate DirsDone<C>(fs: map<string, map<string, C>>, result: map<string, map<string, C>>, done: seq<string>) {
    && result.Keys == fs.Keys
    && (forall dir :: dir in fs && dir !in done ==> result[dir] == fs[dir])
    && (forall dir :: dir in fs && dir in done ==> SanitisedFrom(fs[dir], result[dir]))
  }

  /** What the pass prints about `dir` fits what `fs` holds: the first
      visit of an existing directory reports its renames, any other visit
      none. */
  predicate VisitOk<C>(fs: map<string, map<string, C>>, dir: string, seen: bool, v: DirVisit) {
    && v.dir == dir && (v.found <==> dir in fs)
    && TrueRenames(v.renames) && (!v.found || seen ==> v.renames == [])
    && (v.found && !seen ==> ReportsRenames(fs[dir], v.renames))
  }

  /** Sanitising one more directory of `fs`: the others stay as they were. */
  lemma DirsDoneStep<C>(fs: map<string, map<string, C>>, current: map<string, map<string, C>>,
                        done: seq<string>, dir: string, after: map<string, C>)
    requires DirsDone(fs, current, done)
    requires dir in fs
    ensures SanitisedFrom(fs[dir], after) ==> DirsDone(fs, current[dir := after], done + [dir])
  {
  }

  /** Skipping a directory that does not exist changes nothing. */
  lemma DirsDoneSkip<C>(fs: map<string, map<string, C>>, current: map<string, map<string, C>>,
                        done: seq<string>, dir: string)
    requires DirsDone(fs, current, done)
    requires dir !in fs
    ensures DirsDone(fs, current, done + [dir])
  {
  }

  /** A directory visited before holds only clean names. */
  lemma RevisitIsClean<C>(fs: map<string, map<string, C>>, current: map<string, map<string, C>>,
                          done: seq<string>, dir: string)
    requires DirsDone(fs, current, done)
    requires dir in fs && dir in done
    ensures SanitisedFrom(fs[dir], current[dir])
    ensures forall k :: k in current[dir] ==> Target(k) == k
  {
    SanitisedIsClean(fs[dir], current[dir]);
  }

  /** Replacing one directory leaves every other as it was. */
  lemma UpdateLeavesOthers<C>(m: map<string, map<string, C>>, dir: string, after: map<string, C>)
    ensures forall other :: other in m && other != dir ==> other in m[dir := after] && m[dir := after][other] == m[other]
  {
  }

  /** One configured directory: a missing one is skipped with a warning;
      an existing one is sanitised. A directory visited before is already
      clean, so visiting it again leaves it as it is. */
  method VisitDirectory<C>(fs: map<string, map<string, C>>, current: map<string, map<string, C>>,
                           done: seq<string>, dir: string)
    returns (result: map<string, map<string, C>>, visit: DirVisit)
    requires DirsDone(fs, current, done)
    ensures DirsDone(fs, result, done + [dir])
    ensures VisitOk(fs, dir, dir in done, visit)
    ensures dir in done ==> result == current
    ensures forall other :: other in current && other != dir ==> other in result && result[other] == current[other]
  {
    if dir !in fs {
      DirsDoneSkip(fs, current, done, dir);
      return current, DirVisit(dir, false, []);
    }
    var before := current[dir];
    var after, renames := SanitiseExisting(before);
    if dir in done {
      RevisitIsClean(fs, current, done, dir);
    }
    DirsDoneStep(fs, current, done, dir, after);
    assert dir in done ==> current[dir := after] == current;
    UpdateLeavesOthers(current, dir, after);
    result := current[dir := after];
    visit := DirVisit(dir, true, renames);
  }

  /** main: each configured directory in turn, a missing one skipped with a
      warning; `dirs` stands for the configured list and `fs` for the
      directories that exist. A directory listed twice is sanitised once:
      the second pass finds nothing to rename. */
  method SanitiseAll<C>(fs: map<string, map<string, C>>, dirs: seq<string>)
    returns (result: map<string, map<string, C>>, log: seq<DirVisit>)
    ensures result.Keys == fs.Keys
    ensures forall dir :: dir in fs && dir !in dirs ==> result[dir] == fs[dir]
    ensures forall dir :: dir in fs && dir in dirs ==> SanitisedFrom(fs[dir], result[dir])
    ensures |log| == |dirs|
    ensures forall k :: 0 <= k < |dirs| ==> log[k].dir == dirs[k] && (log[k].found <==> dirs[k] in fs)
    ensures forall k :: 0 <= k < |dirs| ==> TrueRenames(log[k].renames) && (!log[k].found ==> log[k].renames == [])
    ensures forall k :: 0 <= k < |dirs| && dirs[k] in dirs[..k] ==> log[k].renames == []
    ensures forall k :: 0 <= k < |dirs| && log[k].found && dirs[k] !in dirs[..k] ==> ReportsRenames(fs[dirs[k]], log[k].renames)
  {
    result, log := fs, [];
    for i := 0 to |dirs|
      invariant DirsDone(fs, result, dirs[..i])
      invariant |log| == i
      invariant forall k :: 0 <= k < i ==> VisitOk(fs, dirs[k], dirs[k] in dirs[..k], log[k])
    {
      var dir := dirs[i];
      assert dirs[..i + 1] == dirs[..i] + [dir];
      var visit;
      result, visit := VisitDirectory(fs, result, dirs[..i], dir);
      assert forall k :: 0 <= k < i ==> (log + [visit])[k] == log[k];
      log := log + [visit];
    }
    assert dirs[..|dirs|] == dirs;
    assert forall k :: 0 <= k < |dirs| ==> VisitOk(fs, dirs[k], dirs[k] in dirs[..k], log[k]);
  }
}
