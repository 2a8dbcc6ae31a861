/** How the passes see one another's output: the manifests the builder
    writes, the URLs the fixer writes and the sides the reconciler writes,
    as the validator and the reconciler then read them. */
module Pipeline {
  import opened Text
  import opened Toml
  import opened Directory
  import FixUrls
  import UpdateSide
  import CheckMods
  import UnknownMods

  /** A built manifest has `download` holding `url`, so the key check
      finds nothing, and the URL check finds an issue exactly when the
      configured base or the jar name holds a space or a bracket. */
  lemma GeneratedManifestChecks(name: string, filename: string, side: string, urlBase: string, hash: string)
    ensures var doc := UnknownMods.ManifestRecord(name, filename, side, urlBase, hash);
      && CheckMods.CheckForMissingKeys(doc) == Ok(CheckMods.Check(false, []))
      && CheckMods.CheckForMalformedUrl(doc).Ok?
      && (CheckMods.CheckForMalformedUrl(doc).value.issues <==> HasUnsafe(urlBase + filename))
  {
    var doc := UnknownMods.ManifestRecord(name, filename, side, urlBase, hash);
    assert doc["download"].fields["url"] == Str(urlBase + filename);
    CheckMods.MalformedUrlOfString(doc);
  }

  /** The reconciler matches a built manifest by the jar name without its
      extension: the identity of `mod-1.0.pw.toml` is `mod-1.0`. */
  lemma GeneratedManifestIdentity(filename: string)
    ensures UpdateSide.BaseFilename(UnknownMods.TomlFilename(filename)) == UnknownMods.SplitextRoot(filename)
  {
    UpdateSide.BaseFilenameOfManifest(UnknownMods.SplitextRoot(filename));
  }

  /** A URL the fixer has written passes the URL check, and a manifest the
      fixer leaves alone because its URL is already correct passes too. */
  lemma FixedUrlPassesCheck(doc: Doc)
    requires FixUrls.HasStringUrl(doc)
    ensures var f := FixUrls.FixedFile(Parsed(doc));
      f.Parsed? && CheckMods.CheckForMalformedUrl(f.doc) == Ok(CheckMods.Check(false, []))
  {
    var url := FixUrls.UrlOf(doc);
    FixUrls.CorrectedUrlProperties(url);
    var f := FixUrls.FixedFile(Parsed(doc));
    if FixUrls.FixUrlEncoding(doc).Rewritten? {
      FixUrls.RewrittenUrlIsClean(doc);
    }
    CheckMods.MalformedUrlOfString(f.doc);
  }

  /** The fixer rewrites a built manifest exactly when the URL check would
      warn about it. */
  lemma FixerAndCheckAgreeOnGenerated(name: string, filename: string, side: string, urlBase: string, hash: string)
    ensures var doc := UnknownMods.ManifestRecord(name, filename, side, urlBase, hash);
      FixUrls.FixUrlEncoding(doc).Rewritten? <==> CheckMods.CheckForMalformedUrl(doc).value.issues
  {
    var doc := UnknownMods.ManifestRecord(name, filename, side, urlBase, hash);
    GeneratedManifestChecks(name, filename, side, urlBase, hash);
    FixUrls.CorrectedUrlProperties(urlBase + filename);
    assert FixUrls.UrlOf(doc) == urlBase + filename;
  }

  /** Rewriting `side` does not change what the key and URL checks see. */
  lemma ReconcilingKeepsChecks(doc: Doc, id: string, patch: set<string>, blacklist: set<string>)
    ensures var r := UpdateSide.ReconciledDoc(doc, id, patch, blacklist);
      && CheckMods.CheckForMissingKeys(r) == CheckMods.CheckForMissingKeys(doc)
      && CheckMods.CheckForMalformedUrl(r) == CheckMods.CheckForMalformedUrl(doc)
  {
    var r := UpdateSide.ReconciledDoc(doc, id, patch, blacklist);
    assert "download" in r <==> "download" in doc;
    if "download" in doc {
      assert r["download"] == doc["download"];
    }
  }
}
