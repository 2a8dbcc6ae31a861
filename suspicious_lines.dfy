/** The suspicious-line finder (check_mods.py): each manifest is scanned,
    line by line, for the first line that holds a single quote but neither
    an `=` nor the text `mc-versions`, a hint that a key lost its `=`. At
    most one line is reported per file. */
module SuspiciousLines {
  import opened Text
  import opened Toml
  import opened Directory

  /** The test of line 10. */
  predicate IsSuspicious(line: string) {
    '\'' in line && '=' !in line && !Contains(line, "mc-versions")
  }

  /** A report: the 1-based number of the line and its stripped text. */
  datatype Hit = Hit(number: nat, text: string)

  /** The first suspicious line of `lines`, if any. */
  function FirstSuspicious(lines: seq<string>): (r: Option<Hit>)
    ensures r.None? <==> forall j :: 0 <= j < |lines| ==> !IsSuspicious(lines[j])
    ensures r.Some? ==>
      && 1 <= r.value.number <= |lines|
      && IsSuspicious(lines[r.value.number - 1])
      && r.value.text == Trim(lines[r.value.number - 1])
      && forall j :: 0 <= j < r.value.number - 1 ==> !IsSuspicious(lines[j])
  {
    if lines == [] then None
    else
      var init := lines[..|lines| - 1];
      var last := lines[|lines| - 1];
      assert forall j :: 0 <= j < |init| ==> init[j] == lines[j];
      match FirstSuspicious(init)
      case Some(h) => Some(h)
      case None => if IsSuspicious(last) then Some(Hit(|lines|, Trim(last))) else None
  }

  /** The first suspicious line is the one the scan stops at: no other
      report satisfies the contract of FirstSuspicious. */
  lemma FirstSuspiciousUnique(lines: seq<string>, h: Hit)
    requires 1 <= h.number <= |lines| && IsSuspicious(lines[h.number - 1]) && h.text == Trim(lines[h.number - 1])
    requires forall j :: 0 <= j < h.number - 1 ==> !IsSuspicious(lines[j])
    ensures FirstSuspicious(lines) == Some(h)
  {
    var r := FirstSuspicious(lines);
    assert r.Some?;
    assert !(r.value.number < h.number);
    assert !(h.number < r.value.number);
  }

  /** check_for_suspicious_lines on the lines of one file: the `enumerate`
      loop that returns at the first match. */
  method FindSuspiciousLine(lines: seq<string>) returns (r: Option<Hit>)
    ensures r == FirstSuspicious(lines)
  {
    for i := 0 to |lines|
      invariant forall j :: 0 <= j < i ==> !IsSuspicious(lines[j])
    {
      var line := lines[i];
      if '\'' in line && '=' !in line && !Contains(line, "mc-versions") {
        r := Some(Hit(i + 1, Trim(line)));
        FirstSuspiciousUnique(lines, r.value);
        return;
      }
    }
    r := None;
  }

  /** A manifest as this script reads it: its lines, or the exception that
      opening it raised. The script catches no exception. */
  datatype TextFile = Readable(lines: seq<string>) | Unreadable(error: PyError)

  /** What the pass prints, or the exception that ends it. */
  datatype ScanEvent =
    | ModsDirMissing
    | Suspicious(name: string, hit: Hit)
    | Crashed(name: string, error: PyError)

  /** The output of the loop of lines 21-24 over `ls`: one report per file
      with a suspicious line; an unreadable manifest ends the pass. */
  function Scan(d: map<string, TextFile>, ls: seq<string>): seq<ScanEvent>
    requires forall n :: n in ls ==> n in d
  {
    if ls == [] then []
    else if !IsManifestName(ls[0]) then Scan(d, ls[1..])
    else
      match d[ls[0]]
      case Unreadable(e) => [Crashed(ls[0], e)]
      case Readable(lines) =>
        (match FirstSuspicious(lines) case None => [] case Some(h) => [Suspicious(ls[0], h)])
        + Scan(d, ls[1..])
  }

  /** main: without a mods directory only the error is printed; otherwise
      each `.pw.toml` file of the listing is scanned, in order, until one
      cannot be read. */
  method ScanAll(mods: Option<map<string, TextFile>>, listing: seq<string>) returns (log: seq<ScanEvent>)
    requires mods.Some? ==> IsListingOf(mods.value, listing)
    ensures mods.None? ==> log == [ModsDirMissing]
    ensures mods.Some? ==> log == Scan(mods.value, listing)
  {
    if mods.None? {
      return [ModsDirMissing];
    }
    var d := mods.value;
    log := [];
    var i := 0;
    while i < |listing|
      invariant 0 <= i <= |listing|
      invariant log + Scan(d, listing[i..]) == Scan(d, listing)
    {
      var name := listing[i];
      assert listing[i..][1..] == listing[i + 1..];
      if IsManifestName(name) {
        match d[name]
        case Unreadable(e) => {
          return log + [Crashed(name, e)];
        }
        case Readable(lines) => {
          var hit := FindSuspiciousLine(lines);
          if hit.Some? {
            log := log + [Suspicious(name, hit.value)];
          }
        }
      }
      i := i + 1;
    }
  }

  /** A file is reported at most once, at its first suspicious line, and
      only when it is a manifest that has one and no unreadable manifest
      came before it. */
  lemma {:induction false} ReportedAtFirst(d: map<string, TextFile>, ls: seq<string>, n: string, h: Hit)
    requires forall m :: m in ls ==> m in d
    requires NoDuplicates(ls)
    ensures Suspicious(n, h) in Scan(d, ls) ==>
      n in ls && IsManifestName(n) && d[n].Readable? && FirstSuspicious(d[n].lines) == Some(h)
    ensures multiset(Scan(d, ls))[Suspicious(n, h)] <= 1
  {
    if ls != [] {
      assert forall m :: m in ls[1..] ==> m in ls;
      ReportedAtFirst(d, ls[1..], n, h);
      if IsManifestName(ls[0]) && d[ls[0]].Readable? && n == ls[0] {
        assert n !in ls[1..];
      }
    }
  }
}
