# Diggerpack 2 build passes, modelled in Dafny

Diggerpack 2 is built from a directory of per-mod packwiz manifests
(`mods/*.pw.toml`). A handful of Python passes run over that directory. This
project models each of them and proves what it does:

- The line stripper (`strip_toml.py`) deletes the lines declaring
  `x-prismlauncher-loaders`, `x-prismlauncher-mc-versions` or
  `x-prismlauncher-release-type`. It keeps every other line.
- The URL fixer (`script/fix_urls.py`) percent-encodes spaces and square
  brackets in `download.url`. It writes a manifest back only when the URL
  changed.
- The side reconciler (`update_side.py`) matches manifests by file name
  against a client patch list and a server blacklist. It rewrites `side`,
  consumes the matched names and reports the names left over.
- The validators check that `download` holds `url` and that the URL is
  encoded (`script/check_mods.py`). A second validator reports the first
  line of each manifest that looks like a key without `=` (`check_mods.py`).
- The file-name sanitiser renames `.zip` files in the configured
  directories. It exists twice: `sanitise_filenames.py` and
  `script/sanitise_filenames.py`.
- The unknown-mod manifest builder (`generate_toml_for_unknown_mods` in
  `start.py`) writes a manifest for each complete configuration entry whose
  jar is present, overwriting any file of that name.

Modules and files:

- Shared modules:
  - `Text` (`text.dfy`): the Python string operations the passes use.
  - `Toml` (`toml.dfy`): a loaded manifest as a value, with Python's `in`,
    indexing and `get`, errors included.
  - `Directory` (`directory.dfy`): a directory as a map from name to
    contents. An `os.listdir` result is any sequence holding each name once.
    The file also holds the loop shared by the passes over the mods
    directory.
- One module per pass: `StripToml`, `FixUrls`, `UpdateSide`, `CheckMods`
  (`script/check_mods.py`), `SuspiciousLines` (`check_mods.py`),
  `SanitiseFilenames` and `UnknownMods`.
- `Pipeline` (`pipeline.dfy`) relates the passes to one another. For
  example, the validator accepts every URL the fixer writes.

Where each pass's main loop changes files, it is a method with a loop. Each
such method is proved equal to a function of the original directory and the
listing, and the properties are lemmas about those functions.

Two behaviours of the code are worth knowing:

- The stripper judges each line on its own, so the continuation lines of a
  dropped multi-line array are kept (`StripToml.KeptLinesAppend`,
  `StripToml.DeclarationOnlyDropped`).
- The sanitiser renames without checking whether the new name is taken
  (`SanitiseFilenames.CollisionOverwrites`).

## Model

| member | source | states |
|---|---|---|
| Text.TrimSpec | strip_toml.py:11 | `strip()` removes exactly the maximal leading and trailing runs of Python whitespace and keeps the middle |
| Text.TrimLeftSkips | strip_toml.py:11 | `strip()` removes all the leading whitespace up to the first other character, and nothing more from the front |
| Text.TrimRightKeepsPrefix | strip_toml.py:11 | `strip()` never removes trailing text from a prefix that ends in a character other than whitespace |
| Text.ContainsChar | script/check_mods.py:18-24 | a one-character substring test is membership of that character |
| Toml.In | script/check_mods.py:11 | Python `key in value` raises TypeError exactly on a scalar; on a table it is the key test |
| Toml.GetItem | script/check_mods.py:14 | `value[key]` succeeds exactly on a table holding the key and gives that field |
| Directory.ListDir | strip_toml.py:30 | an `os.listdir` result names every file of the directory exactly once, in some order |
| Directory.ManifestNames | strip_toml.py:30-31 | the names kept are exactly the listed names ending in `.pw.toml` |
| Directory.ForEachManifest | script/fix_urls.py:36-39 | the loop over the listing gives every `.pw.toml` file its updated contents and leaves every other file alone, whatever the listing order; the messages follow listing order |
| Directory.UpdatedPrefixFiles | script/fix_urls.py:36-39 | handling the files of a listing one at a time updates exactly the listed `.pw.toml` files, each from its original contents |
| Directory.ReportEachManifest | script/check_mods.py:57-58 | the read-only loop prints, in listing order, the report for each `.pw.toml` file |
| StripToml.StripTomlLines | strip_toml.py:7-15 | the loop keeps exactly the lines whose stripped form starts with none of the three keys, in order; no kept line starts with one |
| StripToml.KeptLinesMembers | strip_toml.py:11-15 | a line is in the output if and only if it is in the input and its stripped form starts with none of the three keys |
| StripToml.KeptLinesCount | strip_toml.py:15 | each kept line occurs in the output exactly as often as in the input, verbatim; a dropped line never occurs |
| StripToml.KeptLinesIsSubsequence | strip_toml.py:10-15 | the output is the input with lines deleted, order kept |
| StripToml.KeptLinesAppend | strip_toml.py:10-15 | stripping distributes over concatenation: no state carries from one line to the next |
| StripToml.KeptLinesIdempotent | strip_toml.py:10-15 | stripping stripped lines changes nothing |
| StripToml.PrefixMatchDrops | strip_toml.py:11-14 | a line made of any whitespace indentation, one of the three names and anything after it, its newline included, is dropped: the test is by prefix, so a longer key that starts with one of the names is dropped too |
| StripToml.DeclarationOnlyDropped | strip_toml.py:10-15 | after a dropped declaration, the continuation lines of its array are all kept |
| StripToml.ContinuationLinesKept | strip_toml.py:11-14 | the typical continuation lines `  "1.20.1",` and `]` are not declarations |
| StripToml.StripAll | strip_toml.py:20-36 | without a mods directory only the error is printed and no file changes; otherwise every `.pw.toml` file becomes its kept lines and is rewritten even when unchanged, and no other file changes; the log announces each of them, in listing order, and ends with the closing line |
| StripToml.RewrittenAreManifests | strip_toml.py:30-34 | the files announced are exactly the listed `.pw.toml` files, each once, in listing order |
| FixUrls.CorrectedUrlIsPercentEncode | script/fix_urls.py:16 | the three chained replaces equal encoding each character on its own: space, `[` and `]` become `%20`, `%5B` and `%5D`, and every other character stays |
| FixUrls.CorrectedChar | script/fix_urls.py:16 | on one character, the chained replaces give that character's encoding: no replacement re-encodes the text an earlier one inserted |
| FixUrls.PercentEncodeIsSafe | script/fix_urls.py:16 | the encoding leaves no space or square bracket |
| FixUrls.PercentEncodeKeepsSafe | script/fix_urls.py:16 | a URL without the three characters is left exactly as it is |
| FixUrls.CorrectedUrlProperties | script/fix_urls.py:16 | the corrected URL is clean, correcting is idempotent, and a URL changes if and only if it holds a space or bracket |
| FixUrls.FixUrlEncodingWith | script/fix_urls.py:12-24 | no `download` holding `url` leaves the manifest untouched; a non-string URL raises; the manifest is rewritten if and only if the correction changes the URL, and then only `download.url` differs |
| FixUrls.RewrittenUrlIsClean | script/fix_urls.py:19-20 | a rewritten manifest holds the corrected, clean URL |
| FixUrls.FixIsIdempotent | script/fix_urls.py:12-24 | running the fixer on its own output writes nothing |
| FixUrls.FixLogReportsWrites | script/fix_urls.py:19-27 | a file is reported fixed if and only if it is a listed manifest whose contents the pass changes |
| FixUrls.FixAll | script/fix_urls.py:29-39 | without a mods directory only the error is printed; otherwise each manifest gets its fixed contents, and a failure is reported for its file while the loop goes on |
| UpdateSide.BaseFilename | update_side.py:4-10 | a `.pw.toml` name loses exactly that suffix (`base + ".pw.toml" == filename`); any other name is returned unchanged |
| UpdateSide.BaseFilenameInjective | update_side.py:8-10 | two different manifest names have different identities |
| UpdateSide.BaseFilenameOfManifest | update_side.py:8-9 | the identity of `x.pw.toml` is `x` |
| UpdateSide.LoadNameList | update_side.py:28-44 | a missing list file gives no names and a warning; otherwise the names are exactly the stripped non-blank lines |
| UpdateSide.SideRewrite | update_side.py:59-76 | a side is assigned if and only if the identity is in the patch list with an original side other than `both`, or in the blacklist with an original side other than `client` |
| UpdateSide.SideAfter | update_side.py:59-76 | patch list only gives `both`; blacklist only gives `client`; both lists give `client`, or `both` when the original side was `client`; no list keeps the side |
| UpdateSide.SideRewriteSettles | update_side.py:63-76 | with the identity in at most one list, a second run assigns nothing |
| UpdateSide.SideFlipsWhenInBothLists | update_side.py:59-76 | with the identity in both lists, `server` becomes `client` and then `both` on the next run |
| UpdateSide.ReconciledDoc | update_side.py:63-80 | only `side` differs from the loaded record, and it has the value the checks assign |
| UpdateSide.ReconcileFile | update_side.py:53-85 | one file: a file that fails to load is reported and consumes nothing; a loaded one consumes its identity from each list holding it, changed or not, and is written back only when updated |
| UpdateSide.UnseenIdentity | update_side.py:58 | an identity not yet seen in the loop is still in a list exactly when it was at the start |
| UpdateSide.LoadedIdsStep | update_side.py:55 | only a manifest that loaded adds its identity to those consumed |
| UpdateSide.SeesInitialLists | update_side.py:58-76 | a manifest reached partway through the loop is updated and reported exactly as it would be against the lists as loaded |
| UpdateSide.ReconciledPrefixFiles | update_side.py:49-50 | handling the listed manifests in turn gives each its reconciled contents and leaves every other file alone |
| UpdateSide.ReconciledPrefixIsDir | update_side.py:49-50 | the result does not depend on the listing order |
| UpdateSide.Reconcile | update_side.py:49-85 | after the loop every manifest is reconciled against the initial lists; each list equals its initial contents minus the identities of the manifests that loaded; the messages follow listing order |
| UpdateSide.UpdateSide | update_side.py:12-98 | without a mods directory nothing is read or changed; otherwise the lists are loaded, the manifests reconciled and each non-empty leftover set reported |
| UpdateSide.UnmatchedNames | update_side.py:90-98 | a listed name is left over if and only if no manifest named `name.pw.toml` loaded; a parse failure does not consume its name |
| CheckMods.CheckForMissingKeys | script/check_mods.py:32-46 | exactly one error, "missing download", when `download` is absent; exactly one other error when `download` lacks `url`; no issue if and only if both are present; at most one error |
| CheckMods.CheckForMalformedUrl | script/check_mods.py:6-28 | no warning and false when `download` or `url` is missing; issues found if and only if a warning was printed |
| CheckMods.MalformedUrlOfString | script/check_mods.py:18-28 | on a string URL, one warning for each of space, `[` and `]` the URL holds, in that order; true if and only if it holds one |
| CheckMods.MalformedUrlWarnsOncePerReason | script/check_mods.py:18-26 | each character is warned about at most once, and the URL check prints no key error |
| CheckMods.MissingKeyShortCircuits | script/check_mods.py:67-69 | a manifest missing a key gets exactly its one error and no URL check |
| CheckMods.MalformedReportedOnlyAfterKeys | script/check_mods.py:67-69 | a URL warning is printed if and only if the key check passed and the URL check found that character |
| CheckMods.CheckAll | script/check_mods.py:50-76 | without a mods directory only the error; otherwise the reports of every manifest in listing order, then the closing line |
| CheckMods.EveryManifestChecked | script/check_mods.py:57-60 | every listed `.pw.toml` file, and no other, is announced, whatever happens while it is checked |
| SuspiciousLines.FirstSuspicious | check_mods.py:8-12 | no report if and only if no line is suspicious; otherwise the 1-based number of a suspicious line, its stripped text, and no earlier line is suspicious |
| SuspiciousLines.FirstSuspiciousUnique | check_mods.py:8-12 | the first suspicious line is the only report that satisfies that description |
| SuspiciousLines.FindSuspiciousLine | check_mods.py:3-12 | the `enumerate` loop with its early return reports the first suspicious line, or nothing |
| SuspiciousLines.ScanAll | check_mods.py:14-24 | without a mods directory only the error; otherwise the listed `.pw.toml` files are scanned in order until one cannot be opened |
| SuspiciousLines.ReportedAtFirst | check_mods.py:21-24 | a file is reported at most once, only if it is a listed manifest, and at its first suspicious line |
| SanitiseFilenames.SanitiseNameIsPerChar | sanitise_filenames.py:20-21 | replacing spaces by `_` and then deleting brackets equals rewriting each character on its own |
| SanitiseFilenames.SanitiseNameProperties | sanitise_filenames.py:20-24 | the sanitised name holds no space or bracket; sanitising is idempotent; a name changes if and only if it holds one of the three characters |
| SanitiseFilenames.SanitiseKeepsZip | sanitise_filenames.py:16-21 | a `.zip` name is its sanitised stem followed by `.zip` |
| SanitiseFilenames.TargetProperties | script/sanitise_filenames.py:24-32 | a file is renamed if and only if it is a `.zip` file whose name holds a space or bracket; the new name is a clean `.zip` name |
| SanitiseFilenames.TargetIdempotent | script/sanitise_filenames.py:28-29 | a new name is never renamed again |
| SanitiseFilenames.RenameLog | sanitise_filenames.py:24-30 | every reported rename moves a file to a different, sanitised name |
| SanitiseFilenames.RenameLogMembers | sanitise_filenames.py:24-30 | a rename is reported for a listed name if and only if its target differs from it, and it names that target |
| SanitiseFilenames.SanitiseEntry | sanitise_filenames.py:16-30 | one listed name: renamed to its target and reported when that differs, untouched otherwise |
| SanitiseFilenames.SanitiseDirectory | sanitise_filenames.py:15-30 | the loop over the listing renames each file in turn, as the fold over the listing says |
| SanitiseFilenames.RenameAllKeys | sanitise_filenames.py:15-26 | partway through the listing, names not yet handled are present and each handled name has been replaced by its target |
| SanitiseFilenames.RenameAllContents | sanitise_filenames.py:15-26 | without collisions, partway through the listing each file keeps its contents under its current name |
| SanitiseFilenames.RenameAllPrefix | sanitise_filenames.py:15-26 | partway through the listing, names not yet handled are present; each handled name has been replaced by its target; without collisions each file keeps its contents under its new name |
| SanitiseFilenames.RenameAllResult | script/sanitise_filenames.py:23-34 | after the pass the directory holds exactly the targets of its names; without collisions each file has its contents under its target, whatever the listing order |
| SanitiseFilenames.RenameAllClean | script/sanitise_filenames.py:32 | a directory of clean names is not touched and nothing is reported |
| SanitiseFilenames.TargetOfBracketed | sanitise_filenames.py:21 | `[stem].zip` goes to `stem.zip` |
| SanitiseFilenames.CollisionOverwrites | sanitise_filenames.py:24-26 | with `[stem].zip` and `stem.zip` both present, one file replaces the other in either listing order: there is no guard |
| SanitiseFilenames.SanitisedIsClean | script/sanitise_filenames.py:28-34 | after the pass every name in the directory is its own target |
| SanitiseFilenames.SanitiseExisting | script/sanitise_filenames.py:14-38 | an existing directory gets exactly its targets; the renames reported are exactly those of its files whose target differs, each to its target; a clean directory stays as it is and nothing is reported |
| SanitiseFilenames.VisitDirectory | script/sanitise_filenames.py:42-44 | a missing directory is skipped and reported as not found; an existing one is sanitised and, on its first visit, all its renames are reported; one seen before is left as it is with no rename reported; no other directory changes |
| SanitiseFilenames.SanitiseAll | script/sanitise_filenames.py:40-45 | each configured directory is visited in order; a missing one is skipped with a warning and no rename; each existing one is sanitised, its first visit reporting exactly its renames and a later visit none; others are untouched |
| UnknownMods.SplitextRoot | start.py:90 | `splitext(p)[0]` is a prefix of `p`; what it drops starts with the last period, holds no other period and no `/`, and is not preceded only by leading periods of the last component |
| UnknownMods.SplitextSplits | start.py:90 | when the last path component has a period after a character that is not a period, `splitext` drops an extension starting at or after that period |
| UnknownMods.SplitextOfExtension | start.py:90 | `stem.ext` loses exactly `.ext` when the stem has no `/` and a character other than a period |
| UnknownMods.SplitextWithoutPeriod | start.py:90 | a name without a period is its own root |
| UnknownMods.SplitextHidden | start.py:90 | `.ext` alone keeps its leading period |
| UnknownMods.TomlFilename | start.py:90 | the manifest name is the root of the jar name followed by `.pw.toml`, so the passes over the mods directory see it |
| UnknownMods.ManifestRecord | start.py:77-87 | the record has exactly `name`, `filename`, `side` and a `download` table with exactly `url`, `hash`, `hash-format` and `mode`; they hold the given name, file name and side, the base URL followed by the file name, the digest, `sha256` and `url` |
| UnknownMods.EntryOutcome | start.py:56-96 | an entry with missing or empty `filename` or `name` is skipped with an error; one whose jar is absent is skipped with a warning; every other entry is written: the record, with `side` defaulting to `both` and the digest of the jar, is written under the derived name |
| UnknownMods.HandleEntry | start.py:57-96 | one turn of the loop, with each `continue` an early return, changes the mods directory and prints as the entry's outcome says |
| UnknownMods.GenerateUnknownMods | start.py:46-96 | without the unknown-mods directory only the warning; otherwise the loop writes the manifests of the entries in order, a later one replacing an earlier one of the same name |
| UnknownMods.GeneratedFiles | start.py:89-94 | the mods directory gains exactly the written manifests, as loaded documents, and keeps every other file |
| UnknownMods.LastWriter | start.py:89-94 | a written manifest holds the record of the last entry that writes that name: a later entry overwrites the file an earlier one wrote |
| UnknownMods.WrittenNames | start.py:61-68 | a manifest name is written if and only if some complete entry whose jar is present derives it |
| Pipeline.GeneratedManifestChecks | start.py:77-87 | a built manifest passes the key check, and the URL check finds an issue in it if and only if the base URL or the jar name holds a space or bracket |
| Pipeline.GeneratedManifestIdentity | start.py:90 | the reconciler's identity of a built manifest is the jar name without its extension |
| Pipeline.FixedUrlPassesCheck | script/fix_urls.py:16-20 | after the fixer, a manifest with a string URL passes the URL check |
| Pipeline.FixerAndCheckAgreeOnGenerated | script/fix_urls.py:16-19 | the fixer rewrites a built manifest if and only if the URL check warns about it |
| Pipeline.ReconcilingKeepsChecks | update_side.py:78-80 | rewriting `side` changes neither validator's verdict |

## Left out

- Console output: each pass's messages about files, directories and
  missing inputs are event values appended to a log. The exact wording is
  not modelled. Neither are the opening and closing progress lines
  (update_side.py:46 and 87, sanitise_filenames.py:33 and 37,
  script/sanitise_filenames.py:41 and 45, script/fix_urls.py:41,
  fix_urls.py:47, start.py:50), except the closing lines of
  `script/check_mods.py` and `strip_toml.py`.
- TOML syntax, `toml.load` and `toml.dump` are not modelled. A manifest is
  its loaded document, or the error loading it raised, or (for the stripper
  and the line finder) its lines. A written document is recorded as the
  document itself, so `toml.load` of `toml.dump` is taken to give the
  document back.
- Errors while writing a file are not modelled: a failed `open(..., 'w')`
  or `toml.dump`. `update_side.py` and `script/fix_urls.py` would report
  them as unexpected errors.
- Errors while reading the two name lists (update_side.py:28-45) and the
  jar (start.py:72-74) are not modelled. An existing list file and a listed
  jar are taken to be readable. Neither script catches such an error, so
  it would end the pass.
- FixUrls.FixUrlEncodingWith: a URL that is not a string is reported as
  `AttributeError`, what `.replace` raises on a number, boolean, table or
  array. A date-time value has a `replace` method of its own, which raises
  `TypeError` instead. `Atom` does not tell date-times apart, and only the
  printed message differs.
- StripToml.StripAll: treats every manifest as readable. In
  `strip_toml.py` a file that cannot be read raises and ends the pass,
  because the script catches nothing.
- SuspiciousLines.FindSuspiciousLine: a decoding error partway through a
  file is not modelled. Only a file that cannot be opened is, and it ends
  the pass.
- `os.path.join` and `os.path.exists` are not modelled. A file is a key of
  its directory's map, and a directory that does not exist is `None` or a
  missing key. Names holding `/` or absolute names are treated as plain
  keys.
- `os.rename` over an existing name is modelled as POSIX does it: the old
  entry replaces the new one. Windows raises instead, and that is not
  modelled. A rename that fails for any other reason is not modelled
  either.
- The order in which leftover names are printed (set iteration order) is
  not modelled. Each leftover set is one event.
- `hashlib.sha256` and its chunked reading (start.py:70-74) are reduced to
  the parameter `digest`, a function of the jar's bytes.
- The configuration values that `config.py` does not define are
  parameters: `SANITISE_DIRS` (`dirs`), `UNKNOWN_MODS_TOML_DATA`
  (`entries`) and `UNKNOWN_MODS_URL_BASE` (`urlBase`).
- UnknownMods.EntryOutcome: entries are dictionaries of strings. Python's
  truthiness of other values in `not filename or not name` is not modelled.
- The orchestration in `start.py` is not modelled: `main`, `copy_items`,
  `run_script`, clearing and copying directories, and running `packwiz`
  and `signify`. The mods directory the builder writes to is taken to
  exist, because `main` creates it.
- The fixer at the top of the repository (`fix_urls.py`) corrects URLs with
  `urlsplit`, `quote` and `urlunsplit`, whose behaviour is not modelled. Its
  write-only-on-change guard is the same as that of `script/fix_urls.py`,
  and FixUrls.FixUrlEncodingWith takes the correction as a parameter. A
  total correction cannot raise, though: `urlsplit` raises `ValueError` on
  a network location with an unbalanced `[` or `]`, and that failure of
  the root fixer is not modelled.
