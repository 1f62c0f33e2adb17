/**
 * The fragment router's table lookup and the translation of legacy
 * `.html` links into hash routes. Fetching, parsing and swapping the
 * fragment are outside this model; what remains is which file a hash
 * loads and which hash a clicked link navigates to.
 */
module Router {
  import opened Wrappers
  import opened JsString
  import opened JsObject

  /** The fixed route table: hash to fragment file. */
  const Routes: map<string, string> := map[
    "" := "index.html",
    "#/" := "index.html",
    "#/projeto" := "projeto.html",
    "#/cadastro" := "cadastro.html"
  ]

  /**
   * `routes[hash] || routes['']`: the value `loadRoute` fetches. There is
   * always something to fetch, and a string found is one of the table's files.
   */
  function Resolve(hash: string): (v: JsValue)
    ensures Truthy(v)
    ensures v.Str? ==> v.text in Routes.Values
  {
    var v := Get(Routes, hash);
    if Truthy(v) then v else Get(Routes, "")
  }

  /** `location.hash || '#/'`: the hash `routeChanged` hands to `loadRoute`. */
  function CurrentHash(locationHash: string): (h: string)
    ensures h != ""
    ensures locationHash != "" ==> h == locationHash
  {
    if locationHash == "" then "#/" else locationHash
  }

  /** A hash the browser reports: empty, or starting with `#`. */
  predicate IsLocationHash(h: string) {
    h == "" || h[0] == '#'
  }

  /** Every table key is a hash the browser can report. */
  lemma RouteKeysAreLocationHashes()
    ensures forall k :: k in Routes ==> IsLocationHash(k)
  {
  }

  /** A hash that is not a table key loads the same file as the empty hash. */
  lemma UnknownHashFallsBack(hash: string)
    requires hash !in Routes && hash !in PrototypeNames
    ensures Resolve(hash) == Resolve("") == Str("index.html")
  {
  }

  /** A table key loads its own file. */
  lemma KnownHashLoadsItsFile(hash: string)
    requires hash in Routes
    ensures Resolve(hash) == Str(Routes[hash])
  {
  }

  /**
   * Every hash the browser can report loads a file from the table: its own
   * entry if it has one, `index.html` otherwise, and the empty hash is
   * first turned into `#/`, which also loads `index.html`.
   */
  lemma RouteChangedLoadsTableFile(locationHash: string)
    requires IsLocationHash(locationHash)
    ensures var h := CurrentHash(locationHash);
            Resolve(h) == Str(if h in Routes then Routes[h] else "index.html")
    ensures locationHash == "" ==> Resolve(CurrentHash(locationHash)) == Str("index.html")
  {
    var h := CurrentHash(locationHash);
    assert h[0] == '#';
    if h !in Routes {
      forall n | n in PrototypeNames ensures n != h {
        assert n[0] != '#';
      }
    }
  }

  /**
   * The hash a clicked link navigates to, or None when the click is left to
   * the browser (the href does not end in `.html`). Later tests override
   * earlier ones.
   */
  function LegacyTarget(href: string): (t: Option<string>)
    ensures t.Some? ==> t.value in Routes
  {
    if !EndsWith(href, ".html") then None
    else
      var target := "#/";
      var target := if Contains(href, "projeto") then "#/projeto" else target;
      var target := if Contains(href, "cadastro") then "#/cadastro" else target;
      var target := if Contains(href, "index") then "#/" else target;
      Some(target)
  }

  /**
   * Only `.html` links are intercepted, and the page names take priority
   * `index` over `cadastro` over `projeto`, with `#/` as the default.
   */
  lemma LegacyTargetPriority(href: string)
    ensures LegacyTarget(href).Some? <==> EndsWith(href, ".html")
    ensures EndsWith(href, ".html") ==>
      LegacyTarget(href).value ==
        if Contains(href, "index") then "#/"
        else if Contains(href, "cadastro") then "#/cadastro"
        else if Contains(href, "projeto") then "#/projeto"
        else "#/"
  {
  }

  /** An intercepted link always lands on a key of the route table. */
  lemma LegacyTargetIsRoute(href: string)
    requires LegacyTarget(href).Some?
    ensures LegacyTarget(href).value in Routes
    ensures Resolve(LegacyTarget(href).value) == Str(Routes[LegacyTarget(href).value])
  {
  }

  /** A legacy link whose href mentions `cadastro` but not `index` opens the registration page. */
  lemma CadastroLinkOpensRegistration(href: string)
    requires EndsWith(href, ".html") && Contains(href, "cadastro") && !Contains(href, "index")
    ensures LegacyTarget(href) == Some("#/cadastro")
    ensures Resolve(LegacyTarget(href).value) == Str("cadastro.html")
  {
  }

  /** The legacy link to each fragment file loads that same file through the router. */
  lemma LegacyLinksToRouteFiles()
    ensures LegacyTarget("index.html") == Some("#/")
    ensures LegacyTarget("projeto.html") == Some("#/projeto")
    ensures LegacyTarget("cadastro.html") == Some("#/cadastro")
    ensures forall f :: f in Routes.Values ==>
      LegacyTarget(f).Some? && Resolve(LegacyTarget(f).value) == Str(f)
  {
    assert OccursAt("index.html", "index", 0);
    assert OccursAt("projeto.html", "projeto", 0);
    assert OccursAt("cadastro.html", "cadastro", 0);
    NotContains("projeto.html", "cadastro");
    NotContains("projeto.html", "index");
    NotContains("cadastro.html", "index");
    assert Routes.Values == {"index.html", "projeto.html", "cadastro.html"} by {
      assert Routes[""] == "index.html";
      assert Routes["#/projeto"] == "projeto.html";
      assert Routes["#/cadastro"] == "cadastro.html";
    }
  }

  /** `t` occurs nowhere in `s` when no position of `s` holds its first character followed by the rest. */
  lemma NotContains(s: string, t: string)
    requires t != []
    requires forall i :: 0 <= i < |s| && s[i] == t[0] ==> !OccursAt(s, t, i)
    ensures !Contains(s, t)
  {
  }
}
