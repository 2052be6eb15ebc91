/**
 * `pickFile`: the path rewrite of the two proxied assets that a site may
 * override. The query parser and the file-existence test are foreign and
 * arrive as parameters.
 */
module Override {
  import opened Wrappers
  import opened Text

  /** What parsing the `site` query value of a path gives: an exception, or the value (absent or text). */
  datatype SiteQuery = Threw | Parsed(site: Option<string>)

  /** The two assets with per-site overrides. */
  const Stylesheet: string := "/nci-global.css"
  const BarScript: string := "/returnToNCI-bar.js"

  /** The local file whose existence selects the override. */
  function OverrideFile(site: string, file: string): string {
    "./dist/returnToNCI/" + site + file
  }

  /** The site prefix a path gets, or "" for the default file. */
  function RequestPrefix(query: SiteQuery, file: string, fileExists: string -> bool): string {
    match query
    case Threw => ""
    case Parsed(site) => if fileExists(OverrideFile(JsText(site), file)) then "/" + JsText(site) else ""
  }

  /**
   * The rewritten proxy path: the first occurrence of `file` in `path`
   * gains the site prefix when the override file exists; otherwise the
   * path comes back unchanged. A missing `site` takes part as "undefined".
   */
  function PickFile(path: string, file: string, parseSite: string -> SiteQuery, fileExists: string -> bool): (r: string)
    ensures parseSite(path).Threw? ==> r == path
    ensures parseSite(path).Parsed? && !fileExists(OverrideFile(JsText(parseSite(path).site), file)) ==> r == path
    ensures !Occurs(path, file, false) ==> r == path
    ensures parseSite(path).Parsed? && fileExists(OverrideFile(JsText(parseSite(path).site), file)) ==>
              forall i :: IsFirstMatch(path, file, i, false) ==>
                r == path[..i] + "/" + JsText(parseSite(path).site) + file + path[i + |file|..]
  {
    var prefix := RequestPrefix(parseSite(path), file, fileExists);
    // both branches are the same replacement; the split only places the lemma call on the default branch
    if prefix == "" then
      // the default file: `path.replace(file, "" + file)` gives the path back
      assert prefix + file == file;
      ReplaceFirstWithItself(path, file);
      ReplaceFirst(path, file, prefix + file, false)
    else
      ReplaceFirst(path, file, prefix + file, false)
  }

  /**
   * With the override in place, the rewritten path differs from the
   * original exactly when `file` occurs in it, and then by the length of
   * the site prefix.
   */
  lemma OverrideChangesPath(path: string, file: string, parseSite: string -> SiteQuery, fileExists: string -> bool)
    requires parseSite(path).Parsed?
    requires fileExists(OverrideFile(JsText(parseSite(path).site), file))
    ensures var r := PickFile(path, file, parseSite, fileExists);
            (r != path <==> Occurs(path, file, false)) &&
            (Occurs(path, file, false) ==> |r| == |path| + 1 + |JsText(parseSite(path).site)|)
  {
  }
}
