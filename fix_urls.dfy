/** The URL fixer (script/fix_urls.py): every manifest's `download.url` has
    its spaces and square brackets percent-encoded (section 2.1 of RFC 3986,
    restricted to these three characters), and the manifest is written back
    only when that changed the URL. The fixer in fix_urls.py at the top of
    the repository has the same write-only-on-change guard around a
    different correction (`urlsplit`, `quote` of the path, `urlunsplit`),
    which is passed here as a parameter. */
module FixUrls {
  import opened Text
  import opened Toml
  import opened Directory

  /** The chained `replace` of script/fix_urls.py. */
  function CorrectedUrl(url: string): string {
    ReplaceChar(ReplaceChar(ReplaceChar(url, ' ', "%20"), '[', "%5B"), ']', "%5D")
  }

  /** The percent-encoding of one character, for the three unsafe ones. */
  function EncodeChar(c: char): string {
    if c == ' ' then "%20"
    else if c == '[' then "%5B"
    else if c == ']' then "%5D"
    else [c]
  }

  /** Reference definition: each character of the URL on its own is replaced
      by its encoding; every other character stays as it is. */
  function PercentEncode(url: string): string {
    if url == [] then [] else EncodeChar(url[0]) + PercentEncode(url[1..])
  }

  /** The chained replacements distribute over concatenation. */
  lemma CorrectedUrlAppend(a: string, b: string)
    ensures CorrectedUrl(a + b) == CorrectedUrl(a) + CorrectedUrl(b)
  {
    ReplaceCharAppend(a, b, ' ', "%20");
    var a1, b1 := ReplaceChar(a, ' ', "%20"), ReplaceChar(b, ' ', "%20");
    ReplaceCharAppend(a1, b1, '[', "%5B");
    ReplaceCharAppend(ReplaceChar(a1, '[', "%5B"), ReplaceChar(b1, '[', "%5B"), ']', "%5D");
  }

  /** One replacement on a one-character string. */
  lemma ReplaceSingle(c: char, x: char, rep: string)
    ensures ReplaceChar([c], x, rep) == if c == x then rep else [c]
  {
    assert [c][1..] == [];
  }

  /** The text inserted for one character never holds a character a later
      replacement looks for. */
  lemma CorrectedChar(c: char)
    ensures CorrectedUrl([c]) == EncodeChar(c)
  {
    ReplaceSingle(c, ' ', "%20");
    if c == ' ' {
      assert ReplaceChar("%20", '[', "%5B") == "%20";
      assert ReplaceChar("%20", ']', "%5D") == "%20";
    } else {
      ReplaceSingle(c, '[', "%5B");
      if c == '[' {
        assert ReplaceChar("%5B", ']', "%5D") == "%5B";
      } else {
        ReplaceSingle(c, ']', "%5D");
      }
    }
  }

  /** The three chained replacements encode each character independently. */
  lemma {:induction false} CorrectedUrlIsPercentEncode(url: string)
    ensures CorrectedUrl(url) == PercentEncode(url)
  {
    if url != [] {
      assert url == [url[0]] + url[1..];
      CorrectedUrlAppend([url[0]], url[1..]);
      CorrectedChar(url[0]);
      CorrectedUrlIsPercentEncode(url[1..]);
    }
  }

  /** The encoded URL has no space and no square bracket left. */
  lemma {:induction false} PercentEncodeIsSafe(url: string)
    ensures !HasUnsafe(PercentEncode(url))
  {
    if url != [] {
      PercentEncodeIsSafe(url[1..]);
    }
  }

  /** A URL without the three characters is left exactly as it is; in
      particular `%` and hex digits are never touched. */
  lemma {:induction false} PercentEncodeKeepsSafe(url: string)
    requires !HasUnsafe(url)
    ensures PercentEncode(url) == url
  {
    if url != [] {
      assert url == [url[0]] + url[1..];
      PercentEncodeKeepsSafe(url[1..]);
    }
  }

  /** The fixed URL contains no space, `[` or `]`; fixing it again gives the
      same string; and the fix changes a URL exactly when it contains one of
      the three characters. */
  lemma CorrectedUrlProperties(url: string)
    ensures !HasUnsafe(CorrectedUrl(url))
    ensures CorrectedUrl(CorrectedUrl(url)) == CorrectedUrl(url)
    ensures CorrectedUrl(url) != url <==> HasUnsafe(url)
  {
    CorrectedUrlIsPercentEncode(url);
    PercentEncodeIsSafe(url);
    CorrectedUrlIsPercentEncode(CorrectedUrl(url));
    PercentEncodeKeepsSafe(CorrectedUrl(url));
    if !HasUnsafe(url) {
      PercentEncodeKeepsSafe(url);
    }
  }

  /** What processing one loaded manifest comes to. */
  datatype FixOutcome =
    | Untouched            // no `download` section holding `url`
    | Unchanged            // a url that is already correct: no write
    | Rewritten(doc: Doc)  // the document written back
    | Failed(error: PyError)

  /** The URL a manifest holds, when `download` is a table whose `url` is a
      string: the only shape that can be corrected. */
  predicate HasStringUrl(doc: Doc) {
    && "download" in doc && doc["download"].Table?
    && "url" in doc["download"].fields && doc["download"].fields["url"].Str?
  }

  function UrlOf(doc: Doc): string
    requires HasStringUrl(doc)
  {
    doc["download"].fields["url"].s
  }

  /** fix_url_encoding on a loaded document, with the correction `correct`
      applied to the original URL. */
  function FixUrlEncodingWith(doc: Doc, correct: string -> string): (r: FixOutcome)
    ensures r.Untouched? <==> "download" !in doc || In("url", doc["download"]) == Ok(false)
    ensures r.Rewritten? <==> HasStringUrl(doc) && correct(UrlOf(doc)) != UrlOf(doc)
    ensures r.Unchanged? <==> HasStringUrl(doc) && correct(UrlOf(doc)) == UrlOf(doc)
    ensures r.Rewritten? ==>
      && r.doc.Keys == doc.Keys
      && (forall k :: k in doc && k != "download" ==> r.doc[k] == doc[k])
      && r.doc["download"] == Table(doc["download"].fields["url" := Str(correct(UrlOf(doc)))])
      && r.doc != doc
  {
    if "download" !in doc then Untouched
    else
      match In("url", doc["download"])
      case Err(e) => Failed(e)
      case Ok(found) =>
        if !found then Untouched
        else
          match GetItem(doc["download"], "url")
          case Err(e) => Failed(e)
          case Ok(original) =>
            if !original.Str? then Failed(AttributeError)
            else
              var corrected := correct(original.s);
              if original.s == corrected then Unchanged
              else
                var fields := doc["download"].fields;
                var fixed := doc["download" := Table(fields["url" := Str(corrected)])];
                assert fixed["download"].fields["url"] != doc["download"].fields["url"];
                Rewritten(fixed)
  }

  /** fix_url_encoding of script/fix_urls.py. */
  function FixUrlEncoding(doc: Doc): FixOutcome {
    FixUrlEncodingWith(doc, CorrectedUrl)
  }

  /** After a rewrite the document's URL is the corrected one and clean. */
  lemma RewrittenUrlIsClean(doc: Doc)
    requires FixUrlEncoding(doc).Rewritten?
    ensures var d := FixUrlEncoding(doc).doc;
      HasStringUrl(d) && UrlOf(d) == CorrectedUrl(UrlOf(doc)) && !HasUnsafe(UrlOf(d))
  {
    CorrectedUrlProperties(UrlOf(doc));
  }

  /** Running the fixer on a document it has just rewritten writes nothing. */
  lemma FixIsIdempotent(doc: Doc)
    requires FixUrlEncoding(doc).Rewritten?
    ensures FixUrlEncoding(FixUrlEncoding(doc).doc).Unchanged?
  {
    CorrectedUrlProperties(UrlOf(doc));
  }

  /** What the pass prints about one file. */
  datatype FixEvent =
    | ModsDirMissing
    | Fixed(name: string)                    // the file was written back
    | ProcessingError(name: string, error: PyError)

  /** What one manifest file holds after the pass. */
  function FixedFile(f: ManifestFile): ManifestFile {
    if f.Parsed? && FixUrlEncoding(f.doc).Rewritten? then Parsed(FixUrlEncoding(f.doc).doc) else f
  }

  /** The messages for one manifest; every exception is caught and reported. */
  function FileEvents(name: string, f: ManifestFile): seq<FixEvent> {
    match f
    case Unloadable(e) => [ProcessingError(name, e)]
    case Parsed(doc) =>
      match FixUrlEncoding(doc)
      case Rewritten(_) => [Fixed(name)]
      case Failed(e) => [ProcessingError(name, e)]
      case _ => []
  }

  /** A file is reported as fixed exactly when it is a listed manifest whose
      URL the fix changed, which is exactly when its contents change. */
  lemma {:induction false} FixLogReportsWrites(d: map<string, ManifestFile>, ls: seq<string>, n: string)
    requires forall m :: m in ls ==> m in d
    ensures Fixed(n) in Messages(d, ls, FileEvents)
        <==> n in ls && IsManifestName(n) && FixedFile(d[n]) != d[n]
  {
    if ls != [] {
      var last := ls[|ls| - 1];
      assert ls == ls[..|ls| - 1] + [last];
      FixLogReportsWrites(d, ls[..|ls| - 1], n);
      var f := d[last];
      if IsManifestName(last) && f.Parsed? {
        match FixUrlEncoding(f.doc)
        case Rewritten(_) => {}
        case Failed(e) => {}
        case Untouched => {}
        case Unchanged => {}
      }
    }
  }

  /** main: without a mods directory nothing is read or changed; otherwise
      each `.pw.toml` file is processed on its own (fix_url_encoding), a
      failure in one being reported and the loop going on with the next. */
  method FixAll(mods: Option<map<string, ManifestFile>>, listing: seq<string>)
    returns (result: Option<map<string, ManifestFile>>, log: seq<FixEvent>)
    requires mods.Some? ==> IsListingOf(mods.value, listing)
    ensures mods.None? ==> result.None? && log == [ModsDirMissing]
    ensures mods.Some? ==> result == Some(UpdatedManifests(mods.value, FixedFile))
    ensures mods.Some? ==> log == Messages(mods.value, listing, FileEvents)
  {
    if mods.None? {
      return None, [ModsDirMissing];
    }
    var d, events := ForEachManifest(mods.value, listing, FixedFile, FileEvents);
    result, log := Some(d), events;
  }
}
