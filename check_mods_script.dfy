/** The manifest validator (script/check_mods.py): each manifest is checked
    for a `download` section holding `url` and, only when both are there,
    for a URL with an unencoded space or square bracket. The checks print
    their findings and change nothing. */
module CheckMods {
  import opened Text
  import opened Toml
  import opened Directory

  /** The character a malformed-URL warning names. */
  datatype Reason = Space | OpenBracket | CloseBracket

  /** The warnings and errors the checks print about one manifest. */
  datatype Finding =
    | MissingDownloadSection
    | MissingUrlKey
    | MalformedUrl(reason: Reason)

  /** What a check returns, `issues_found`, with what it printed. */
  datatype Check = Check(issues: bool, findings: seq<Finding>)

  /** check_for_missing_keys: a missing `download` section, or else a
      `download` without `url`, is reported; `key not in value` on a
      download value that is neither a string, a table nor an array raises
      TypeError. */
  function CheckForMissingKeys(doc: Doc): (r: Result<Check>)
    ensures r.Err? <==> "download" in doc && doc["download"].Atom?
    ensures r.Ok? ==> |r.value.findings| <= 1 && (r.value.issues <==> r.value.findings != [])
    ensures r == Ok(Check(true, [MissingDownloadSection])) <==> "download" !in doc
    ensures r == Ok(Check(true, [MissingUrlKey])) <==> "download" in doc && In("url", doc["download"]) == Ok(false)
    ensures r == Ok(Check(false, [])) <==> "download" in doc && In("url", doc["download"]) == Ok(true)
  {
    if "download" !in doc then Ok(Check(true, [MissingDownloadSection]))
    else
      match In("url", doc["download"])
      case Err(e) => Err(e)
      case Ok(found) =>
        if !found then Ok(Check(true, [MissingUrlKey])) else Ok(Check(false, []))
  }

  /** The warning for one of the three characters, when `url` holds it. */
  function Warn(found: bool, reason: Reason): seq<Finding> {
    if found then [MalformedUrl(reason)] else []
  }

  /** check_for_malformed_url: without `download` holding `url` there is
      nothing to check. Otherwise `download["url"]` is taken, which raises
      for a string or an array that merely contains "url", and the three
      characters are looked for one after the other with Python's `in`, each
      with its own warning. */
  function CheckForMalformedUrl(doc: Doc): (r: Result<Check>)
    ensures r.Ok? ==> (r.value.issues <==> r.value.findings != [])
    ensures ("download" !in doc || In("url", doc["download"]) == Ok(false)) ==> r == Ok(Check(false, []))
    ensures "download" in doc && doc["download"].Table? && "url" in doc["download"].fields ==>
      (r.Err? <==> doc["download"].fields["url"].Atom?)
  {
    if "download" !in doc then Ok(Check(false, []))
    else
      match In("url", doc["download"])
      case Err(e) => Err(e)
      case Ok(found) =>
        if !found then Ok(Check(false, []))
        else
          match GetItem(doc["download"], "url")
          case Err(e) => Err(e)
          case Ok(url) =>
            match In(" ", url)
            case Err(e) => Err(e)
            case Ok(space) =>
              var open, close := In("[", url).value, In("]", url).value;
              var findings := Warn(space, Space) + Warn(open, OpenBracket) + Warn(close, CloseBracket);
              Ok(Check(space || open || close, findings))
  }

  /** On a string URL the check warns, in this order, once for each of the
      three characters the URL contains, and finds an issue exactly when the
      URL has one of them. */
  lemma MalformedUrlOfString(doc: Doc)
    requires "download" in doc && doc["download"].Table?
    requires "url" in doc["download"].fields && doc["download"].fields["url"].Str?
    ensures var s := doc["download"].fields["url"].s;
      CheckForMalformedUrl(doc) == Ok(Check(' ' in s || '[' in s || ']' in s,
        Warn(' ' in s, Space) + Warn('[' in s, OpenBracket) + Warn(']' in s, CloseBracket)))
  {
    var s := doc["download"].fields["url"].s;
    ContainsChar(s, ' ');
    ContainsChar(s, '[');
    ContainsChar(s, ']');
  }

  /** One `download.url` string gets at most one warning per character. */
  lemma MalformedUrlWarnsOncePerReason(doc: Doc, reason: Reason)
    requires "download" in doc && doc["download"].Table?
    requires "url" in doc["download"].fields && doc["download"].fields["url"].Str?
    ensures CheckForMalformedUrl(doc).Ok?
    ensures multiset(CheckForMalformedUrl(doc).value.findings)[MalformedUrl(reason)] <= 1
    ensures MissingDownloadSection !in CheckForMalformedUrl(doc).value.findings
    ensures MissingUrlKey !in CheckForMalformedUrl(doc).value.findings
  {
    MalformedUrlOfString(doc);
  }

  /** What the pass prints. */
  datatype CheckEvent =
    | ModsDirMissing
    | Checking(name: string)
    | Reported(name: string, finding: Finding)
    | ParseFailure(name: string, error: PyError)      // toml.TomlDecodeError
    | UnexpectedFailure(name: string, error: PyError) // any other exception
    | Finished

  function Reports(name: string, findings: seq<Finding>): (r: seq<CheckEvent>)
    ensures |r| == |findings|
    ensures forall i :: 0 <= i < |r| ==> r[i] == Reported(name, findings[i])
  {
    if findings == [] then [] else [Reported(name, findings[0])] + Reports(name, findings[1..])
  }

  function Failure(name: string, e: PyError): CheckEvent {
    if e.TomlDecodeError? then ParseFailure(name, e) else UnexpectedFailure(name, e)
  }

  /** The checks run on one loaded manifest, lines 67-69: the URL check
      only when no key is missing. A check that raises ends the file with
      the error, after what was already printed. */
  function CheckDoc(name: string, doc: Doc): seq<CheckEvent> {
    match CheckForMissingKeys(doc)
    case Err(e) => [Failure(name, e)]
    case Ok(keys) =>
      Reports(name, keys.findings)
      + if keys.issues then []
        else match CheckForMalformedUrl(doc)
             case Err(e) => [Failure(name, e)]
             case Ok(url) => Reports(name, url.findings)
  }

  /** Everything printed for one manifest file. */
  function CheckFile(name: string, f: ManifestFile): seq<CheckEvent> {
    [Checking(name)]
    + match f
      case Unloadable(e) => [Failure(name, e)]
      case Parsed(doc) => CheckDoc(name, doc)
  }

  /** The URL check is not consulted when a key is missing: a manifest
      missing `download` or `url` gets exactly the one error. */
  lemma MissingKeyShortCircuits(name: string, doc: Doc)
    requires CheckForMissingKeys(doc).Ok? && CheckForMissingKeys(doc).value.issues
    ensures CheckDoc(name, doc) == [Reported(name, MissingDownloadSection)]
         || CheckDoc(name, doc) == [Reported(name, MissingUrlKey)]
  {
  }

  /** A malformed-URL warning is printed for a manifest exactly when it has
      `download` holding `url`, and the URL check finds the character. */
  lemma MalformedReportedOnlyAfterKeys(name: string, doc: Doc, reason: Reason)
    ensures Reported(name, MalformedUrl(reason)) in CheckDoc(name, doc)
        <==> CheckForMissingKeys(doc) == Ok(Check(false, []))
             && CheckForMalformedUrl(doc).Ok?
             && MalformedUrl(reason) in CheckForMalformedUrl(doc).value.findings
  {
    match CheckForMissingKeys(doc)
    case Err(e) => {}
    case Ok(keys) => {
      ReportsMembers(name, keys.findings, MalformedUrl(reason));
      if !keys.issues {
        match CheckForMalformedUrl(doc)
        case Err(e) => {}
        case Ok(url) => {
          ReportsMembers(name, url.findings, MalformedUrl(reason));
        }
      }
    }
  }

  lemma ReportsMembers(name: string, findings: seq<Finding>, x: Finding)
    ensures Reported(name, x) in Reports(name, findings) <==> x in findings
  {
    var r := Reports(name, findings);
    if x in findings {
      var i :| 0 <= i < |findings| && findings[i] == x;
      assert r[i] == Reported(name, x);
    }
  }

  /** main: without a mods directory only the error is printed; otherwise
      every `.pw.toml` file is checked on its own, an exception in one being
      reported and the loop going on with the next, and a closing line
      ends the pass. */
  method CheckAll(mods: Option<map<string, ManifestFile>>, listing: seq<string>) returns (log: seq<CheckEvent>)
    requires mods.Some? ==> IsListingOf(mods.value, listing)
    ensures mods.None? ==> log == [ModsDirMissing]
    ensures mods.Some? ==> log == Messages(mods.value, listing, CheckFile) + [Finished]
  {
    if mods.None? {
      return [ModsDirMissing];
    }
    log := ReportEachManifest(mods.value, listing, CheckFile);
    log := log + [Finished];
  }

  /** Every listed manifest is announced once, in listing order, whatever
      happens while it is checked. */
  lemma {:induction false} EveryManifestChecked(d: map<string, ManifestFile>, ls: seq<string>, n: string)
    requires forall m :: m in ls ==> m in d
    ensures Checking(n) in Messages(d, ls, CheckFile) <==> n in ls && IsManifestName(n)
  {
    if ls != [] {
      var last := ls[|ls| - 1];
      assert ls == ls[..|ls| - 1] + [last];
      EveryManifestChecked(d, ls[..|ls| - 1], n);
      if IsManifestName(last) {
        var f := d[last];
        assert Checking(n) in CheckFile(last, f) <==> n == last by {
          CheckFileAnnounces(last, f, n);
        }
      }
    }
  }

  lemma CheckFileAnnounces(name: string, f: ManifestFile, n: string)
    ensures Checking(n) in CheckFile(name, f) <==> n == name
  {
    var rest := match f
      case Unloadable(e) => [Failure(name, e)]
      case Parsed(doc) => CheckDoc(name, doc);
    assert CheckFile(name, f) == [Checking(name)] + rest;
    assert Checking(n) !in rest by {
      if f.Parsed? {
        match CheckForMissingKeys(f.doc)
        case Err(e) => {}
        case Ok(keys) => {
          ReportsNoChecking(name, keys.findings, n);
          if !keys.issues {
            match CheckForMalformedUrl(f.doc)
            case Err(e) => {}
            case Ok(url) => {
              ReportsNoChecking(name, url.findings, n);
            }
          }
        }
      }
    }
  }

  lemma ReportsNoChecking(name: string, findings: seq<Finding>, n: string)
    ensures Checking(n) !in Reports(name, findings)
  {
  }
}
