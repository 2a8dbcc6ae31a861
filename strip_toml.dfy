/** The line stripper (strip_toml.py): every manifest in the mods directory is
    rewritten without the lines that declare one of three launcher-specific
    keys. The test is made on each line alone, after trimming whitespace, by
    prefix; every other line is written back exactly as it was read. */
module StripToml {
  import opened Text
  import opened Directory
  import opened Toml

  /** A manifest as text: its lines, each with its own line terminator. */
  type Lines = seq<string>

  /** A line is dropped when its trimmed form starts with one of these. */
  const LoadersKey: string := "x-prismlauncher-loaders"
  const VersionsKey: string := "x-prismlauncher-mc-versions"
  const ReleaseTypeKey: string := "x-prismlauncher-release-type"

  predicate IsEphemeral(line: string) {
    var t := Trim(line);
    StartsWith(t, LoadersKey) || StartsWith(t, VersionsKey) || StartsWith(t, ReleaseTypeKey)
  }

  /** The lines of `lines` for which `drop` is false, in their order. The
      stripper is this filter with IsEphemeral; the general lemmas below are
      stated for any per-line test, so that they do not depend on what the
      test looks at. */
  function Filter(lines: Lines, drop: string -> bool): Lines {
    if lines == [] then []
    else Filter(lines[..|lines| - 1], drop)
         + (if drop(lines[|lines| - 1]) then [] else [lines[|lines| - 1]])
  }

  /** The lines strip_toml_lines keeps, in their order. */
  function KeptLines(lines: Lines): Lines {
    Filter(lines, IsEphemeral)
  }

  /** strip_toml_lines on the lines of one file: the loop that collects the
      lines to keep. The caller writes them back unconditionally. */
  method StripTomlLines(lines: Lines) returns (kept: Lines)
    ensures kept == KeptLines(lines)
    ensures forall l :: l in kept ==> !IsEphemeral(l)
  {
    kept := [];
    for i := 0 to |lines|
      invariant kept == Filter(lines[..i], IsEphemeral)
    {
      assert lines[..i + 1][..i] == lines[..i];
      if !IsEphemeral(lines[i]) {
        kept := kept + [lines[i]];
      }
    }
    assert lines[..|lines|] == lines;
    FilterMembers(lines, IsEphemeral);
  }

  lemma {:induction false} FilterMembers(lines: Lines, drop: string -> bool)
    ensures forall l :: l in Filter(lines, drop) <==> l in lines && !drop(l)
  {
    if lines != [] {
      var init := lines[..|lines| - 1];
      FilterMembers(init, drop);
      assert lines == init + [lines[|lines| - 1]];
    }
  }

  /** A line survives exactly when it occurs in the input and is not an
      ephemeral declaration; so no survivor is one. */
  lemma KeptLinesMembers(lines: Lines)
    ensures forall l :: l in KeptLines(lines) <==> l in lines && !IsEphemeral(l)
  {
    FilterMembers(lines, IsEphemeral);
  }

  lemma {:induction false} FilterCount(lines: Lines, drop: string -> bool, l: string)
    ensures multiset(Filter(lines, drop))[l] == if drop(l) then 0 else multiset(lines)[l]
  {
    if lines != [] {
      var init := lines[..|lines| - 1];
      FilterCount(init, drop, l);
      assert lines == init + [lines[|lines| - 1]];
    }
  }

  /** Each line occurs in the output as often as in the input, or not at all
      if it is ephemeral: nothing is duplicated, nothing kept is lost. */
  lemma KeptLinesCount(lines: Lines, l: string)
    ensures multiset(KeptLines(lines))[l] == if IsEphemeral(l) then 0 else multiset(lines)[l]
  {
    FilterCount(lines, IsEphemeral, l);
  }

  /** `sub` is `s` with some elements deleted, the rest in their order. */
  predicate IsSubsequence(sub: Lines, s: Lines) {
    if sub == [] then true
    else if s == [] then false
    else if sub[|sub| - 1] == s[|s| - 1] then IsSubsequence(sub[..|sub| - 1], s[..|s| - 1])
    else IsSubsequence(sub, s[..|s| - 1])
  }

  lemma {:induction false} FilterIsSubsequence(lines: Lines, drop: string -> bool)
    ensures IsSubsequence(Filter(lines, drop), lines)
  {
    if lines != [] {
      var init := lines[..|lines| - 1];
      var last := lines[|lines| - 1];
      FilterIsSubsequence(init, drop);
      assert lines == init + [last];
      var k := Filter(lines, drop);
      if !drop(last) {
        assert k == Filter(init, drop) + [last];
        SubsequenceAppendBoth(Filter(init, drop), init, last);
      } else {
        assert k == Filter(init, drop);
        SubsequenceOfInit(k, init, last);
      }
    }
  }

  /** Appending the same element to both keeps a subsequence one. */
  lemma SubsequenceAppendBoth(sub: Lines, s: Lines, x: string)
    requires IsSubsequence(sub, s)
    ensures IsSubsequence(sub + [x], s + [x])
  {
    assert (sub + [x])[..|sub|] == sub;
    assert (s + [x])[..|s|] == s;
  }

  /** The kept lines are the input with lines deleted: verbatim and in order. */
  lemma KeptLinesIsSubsequence(lines: Lines)
    ensures IsSubsequence(KeptLines(lines), lines)
  {
    FilterIsSubsequence(lines, IsEphemeral);
  }

  /** Appending to the longer sequence keeps a subsequence one. */
  lemma {:induction false} SubsequenceOfInit(sub: Lines, s: Lines, x: string)
    requires IsSubsequence(sub, s)
    ensures IsSubsequence(sub, s + [x])
    decreases |s|, 1
  {
    var t := s + [x];
    assert t[..|t| - 1] == s;
    if sub != [] && sub[|sub| - 1] == x {
      SubsequenceDropLast(sub, s);
    }
  }

  /** Dropping the last element of a subsequence keeps it one. */
  lemma {:induction false} SubsequenceDropLast(sub: Lines, s: Lines)
    requires sub != [] && IsSubsequence(sub, s)
    ensures IsSubsequence(sub[..|sub| - 1], s)
    decreases |s|, 0
  {
    var init := sub[..|sub| - 1];
    if init != [] {
      var sinit := s[..|s| - 1];
      assert sinit + [s[|s| - 1]] == s;
      if sub[|sub| - 1] == s[|s| - 1] {
        SubsequenceOfInit(init, sinit, s[|s| - 1]);
      } else {
        SubsequenceDropLast(sub, sinit);
        SubsequenceOfInit(init, sinit, s[|s| - 1]);
      }
    }
  }

  lemma {:induction false} FilterAppend(a: Lines, b: Lines, drop: string -> bool)
    ensures Filter(a + b, drop) == Filter(a, drop) + Filter(b, drop)
  {
    if b == [] {
      assert a + b == a;
    } else {
      var binit := b[..|b| - 1];
      FilterAppend(a, binit, drop);
      assert (a + b)[..|a + b| - 1] == a + binit;
    }
  }

  /** The decision for each line does not depend on the lines before it:
      there is no "skipping" state, so the lines that continue a multi-line
      array after a dropped declaration are kept. */
  lemma KeptLinesAppend(a: Lines, b: Lines)
    ensures KeptLines(a + b) == KeptLines(a) + KeptLines(b)
  {
    FilterAppend(a, b, IsEphemeral);
  }

  lemma {:induction false} FilterIdempotent(lines: Lines, drop: string -> bool)
    ensures Filter(Filter(lines, drop), drop) == Filter(lines, drop)
  {
    if lines != [] {
      var init := lines[..|lines| - 1];
      var last := lines[|lines| - 1];
      FilterIdempotent(init, drop);
      assert lines == init + [last];
      if !drop(last) {
        assert Filter(lines, drop) == Filter(init, drop) + [last];
        FilterAppend(Filter(init, drop), [last], drop);
        assert [last][..0] == [];
        assert Filter([last], drop) == [last];
      } else {
        assert Filter(lines, drop) == Filter(init, drop);
      }
    }
  }

  /** Stripping a file that has already been stripped changes nothing. */
  lemma KeptLinesIdempotent(lines: Lines)
    ensures KeptLines(KeptLines(lines)) == KeptLines(lines)
  {
    FilterIdempotent(lines, IsEphemeral);
  }

  lemma KeptSingle(l: string)
    ensures KeptLines([l]) == if IsEphemeral(l) then [] else [l]
  {
    assert [l][..0] == [];
    assert Filter([l], IsEphemeral) == Filter([], IsEphemeral) + (if IsEphemeral(l) then [] else [l]);
  }

  /** A key of the denylist is matched by prefix, after any indentation
      and whatever follows, its line terminator included: a declaration of
      any longer key that starts with one of the three names is dropped as
      well. */
  lemma PrefixMatchDrops(indent: string, key: string, rest: string)
    requires key in {LoadersKey, VersionsKey, ReleaseTypeKey}
    requires forall c :: c in indent ==> IsSpace(c)
    ensures KeptLines([indent + key + rest]) == []
  {
    var line := indent + key + rest;
    assert line == indent + (key + rest);
    TrimLeftSkips(indent, key + rest);
    TrimRightKeepsPrefix(key, rest);
    KeptSingle(line);
  }

  /** Only a declaration line itself is dropped: the lines that continue a
      multi-line array after it are kept, because no state carries over
      from one line to the next. */
  lemma DeclarationOnlyDropped(decl: string, continuation: Lines)
    requires IsEphemeral(decl)
    requires forall l :: l in continuation ==> !IsEphemeral(l)
    ensures KeptLines([decl] + continuation) == continuation
  {
    KeptLinesAppend([decl], continuation);
    KeptSingle(decl);
    FilterAllKept(continuation, IsEphemeral);
  }

  lemma {:induction false} FilterAllKept(lines: Lines, drop: string -> bool)
    requires forall l :: l in lines ==> !drop(l)
    ensures Filter(lines, drop) == lines
  {
    if lines != [] {
      var init, last := lines[..|lines| - 1], lines[|lines| - 1];
      assert lines == init + [last];
      assert last in lines;
      FilterAllKept(init, drop);
      assert Filter(lines, drop) == Filter(init, drop) + [last];
    }
  }

  /** The continuation lines of an array, such as `  "1.20.1",` and `]`,
      are not declarations of a denylisted key. */
  lemma ContinuationLinesKept()
    ensures !IsEphemeral("  \"1.20.1\",\n") && !IsEphemeral("]\n")
  {
    var l1, l2 := "  \"1.20.1\",\n", "]\n";
    TrimSpec(l1);
    assert TrimLeft(l1) == l1[2..];
    TrimSpec(l2);
  }

  /** What the pass prints. */
  datatype StripEvent =
    | ModsDirMissing
    | Processing(name: string)  // printed before the file is rewritten
    | AllStripped               // the closing line

  /** A `Processing` line for each of `names`, in order. */
  function Processed(names: seq<string>): (r: seq<StripEvent>)
    ensures |r| == |names| && forall i :: 0 <= i < |names| ==> r[i] == Processing(names[i])
  {
    if names == [] then []
    else Processed(names[..|names| - 1]) + [Processing(names[|names| - 1])]
  }

  /** What the pass prints about one manifest. */
  function Rewritten(name: string, lines: Lines): seq<StripEvent> {
    [Processing(name)]
  }

  /** main: without a mods directory only the error is printed; otherwise
      every `.pw.toml` file is announced, replaced by its kept lines and
      rewritten, changed or not, in listing order, no other file is
      touched, and the closing line follows. */
  method StripAll(mods: Option<map<string, Lines>>, listing: seq<string>)
    returns (result: Option<map<string, Lines>>, log: seq<StripEvent>)
    requires mods.Some? ==> IsListingOf(mods.value, listing)
    ensures mods.None? ==> result.None? && log == [ModsDirMissing]
    ensures mods.Some? ==> result == Some(UpdatedManifests(mods.value, KeptLines))
    ensures mods.Some? ==> log == Processed(ManifestNames(listing)) + [AllStripped]
  {
    if mods.None? {
      return None, [ModsDirMissing];
    }
    var d, names := ForEachManifest(mods.value, listing, KeptLines, Rewritten);
    RewrittenAreManifests(mods.value, listing);
    result, log := Some(d), names + [AllStripped];
  }

  /** Every listed manifest is announced, once, in listing order. */
  lemma {:induction false} RewrittenAreManifests(d: map<string, Lines>, ls: seq<string>)
    requires forall n :: n in ls ==> n in d
    ensures Messages(d, ls, Rewritten) == Processed(ManifestNames(ls))
  {
    if ls != [] {
      var init, n := ls[..|ls| - 1], ls[|ls| - 1];
      assert n in ls;
      RewrittenAreManifests(d, init);
      if IsManifestName(n) {
        var names := ManifestNames(init);
        assert ManifestNames(ls) == names + [n];
        assert (names + [n])[..|names|] == names;
      }
    }
  }
}
