/**
 * `injectReturnToNCI`: put the shared stylesheet link and bar script in
 * front of the first closing head tag of an HTML document.
 */
module Inject {
  import opened Wrappers
  import opened Text

  /** The closing head tag, as the case-insensitive pattern matches it and as it is re-emitted. */
  const HeadClose: string := "</head>"

  /** The stylesheet link and the script tag, both carrying `site=<site>`. */
  function Tags(site: string): string {
    "<link rel=\"stylesheet\" href=\"/nci-global.css?site=" + site +
    "\" /><script src=\"/returnToNCI-bar.js?site=" + site + "\"></script>"
  }

  /** The text that takes the place of the matched closing tag. */
  function Replacement(proxyEnv: Option<string>): string {
    Tags(JsText(proxyEnv)) + "\n" + HeadClose
  }

  predicate HasHeadClose(html: string) {
    Occurs(html, HeadClose, true)
  }

  /**
   * The page with the tags injected. `proxyEnv` is the server-wide upstream
   * host name (`undefined` when the environment does not set it).
   */
  function InjectReturnToNCI(body: string, proxyEnv: Option<string>): (r: string)
    ensures r == body <==> !HasHeadClose(body)
    ensures HasHeadClose(body) ==> |r| == |body| + |Tags(JsText(proxyEnv))| + 1
    ensures forall i :: IsFirstMatch(body, HeadClose, i, true) ==>
              r == body[..i] + Replacement(proxyEnv) + body[i + |HeadClose|..]
  {
    assert |Replacement(proxyEnv)| == |Tags(JsText(proxyEnv))| + 1 + |HeadClose|;
    ReplaceFirst(body, HeadClose, Replacement(proxyEnv), true)
  }

  /** Only '<' folds to '<', so no occurrence of the tag starts inside another one. */
  lemma NoHeadCloseInside(s: string, i: int, k: int)
    requires MatchesAt(s, HeadClose, i, true)
    requires 0 < k < |HeadClose|
    ensures !MatchesAt(s, HeadClose, i + k, true)
  {
    assert SameChar(s[i + k], HeadClose[k], true);
    assert HeadClose[k] in "/head>";
    assert !SameChar(s[(i + k) + 0], HeadClose[0], true);
  }

  lemma HeadCloseOccurrencesDisjoint(s: string, i: int, j: int)
    requires MatchesAt(s, HeadClose, i, true) && MatchesAt(s, HeadClose, j, true)
    requires i < j
    ensures i + |HeadClose| <= j
  {
    if j < i + |HeadClose| {
      NoHeadCloseInside(s, i, j - i);
      assert false;
    }
  }

  /**
   * Only the first closing tag is replaced: every later one still starts a
   * closing tag in the output, shifted right by the length of the tags and
   * the newline. `Text.LaterMatchKept` gives the same for the exact text.
   */
  lemma {:induction false} LaterHeadClosesKept(body: string, proxyEnv: Option<string>, i: int, j: int)
    requires IsFirstMatch(body, HeadClose, i, true)
    requires MatchesAt(body, HeadClose, j, true) && i < j
    ensures i + |HeadClose| <= j
    ensures MatchesAt(InjectReturnToNCI(body, proxyEnv),
                      HeadClose, j + |Tags(JsText(proxyEnv))| + 1, true)
  {
    HeadCloseOccurrencesDisjoint(body, i, j);
    LaterMatchKept(body, HeadClose, Replacement(proxyEnv), true, i, j);
  }

  /** A page whose first closing tag follows `before`: the replacement lands between `before` and `after`. */
  lemma InjectAfter(before: string, after: string, proxyEnv: Option<string>)
    requires forall j :: 0 <= j < |before| ==> !MatchesAt(before + HeadClose + after, HeadClose, j, true)
    ensures InjectReturnToNCI(before + HeadClose + after, proxyEnv) == before + Replacement(proxyEnv) + after
  {
    var page := before + HeadClose + after;
    assert page[|before|..|before| + |HeadClose|] == HeadClose;
    assert IsFirstMatch(page, HeadClose, |before|, true);
    assert page[..|before|] == before;
    assert page[|before| + |HeadClose|..] == after;
  }

  /** A small page with site "foo": the two tags land immediately before its closing head tag. */
  lemma SmallPageExample()
    ensures InjectReturnToNCI("<html><head></head><body>hi</body></html>", Some("foo")) ==
            "<html><head>" + Tags("foo") + "\n</head>" + "<body>hi</body></html>"
  {
    SmallPageParts();
    SmallPageHeadHasNoClose();
    InjectAfter("<html><head>", "<body>hi</body></html>", Some("foo"));
    ReplacementAround("<html><head>", "<body>hi</body></html>", "foo");
  }

  lemma ReplacementAround(before: string, after: string, site: string)
    ensures before + Replacement(Some(site)) + after == before + Tags(site) + "\n</head>" + after
  {
  }

  lemma SmallPageParts()
    ensures "<html><head>" + HeadClose + "<body>hi</body></html>" == "<html><head></head><body>hi</body></html>"
  {
  }

  lemma SmallPageHeadHasNoClose()
    ensures forall j :: 0 <= j < 12 ==>
              !MatchesAt("<html><head>" + HeadClose + "<body>hi</body></html>", HeadClose, j, true)
  {
    var page := "<html><head>" + HeadClose + "<body>hi</body></html>";
    forall j | 0 <= j < 12
      ensures !MatchesAt(page, HeadClose, j, true)
    {
      assert !SameChar(page[j + 0], HeadClose[0], true) || !SameChar(page[j + 1], HeadClose[1], true);
    }
  }
}
