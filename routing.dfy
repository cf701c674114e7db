/**
 * Request routing of the dev server: the HTML middleware answers `/`, the transform
 * middleware answers scripts, source maps and components, and everything else is passed on.
 */
module Routing {
  import opened Results
  import opened JsStrings
  import opened Imports

  /** What the middleware chain does with a request URL. */
  datatype Route =
    | ServeHtml
      /** A `.js` or `.map` file read at `file`; only scripts have their imports rewritten. */
    | ServeScript(file: string, rewriteImports: bool)
      /** A single-file component read at `file`, the URL without its query string. */
    | ServeComponent(file: string)
      /** Neither middleware answers; `next()` hands the request on. */
    | PassOn

  /** The middleware chain in order: `indexHtmlMiddleware`, then `transformMiddleware`. */
  function Dispatch(url: string): (r: Route)
    ensures r == ServeHtml <==> url == "/"
    ensures r.ServeScript? <==> url != "/" && (EndsWith(url, ".js") || EndsWith(url, ".map"))
    ensures r.ServeScript? ==> r.file == url && (r.rewriteImports <==> !EndsWith(url, ".map"))
    ensures r.ServeComponent? <==>
              url != "/" && !EndsWith(url, ".js") && !EndsWith(url, ".map") && Contains(url, ".vue")
    ensures r.ServeComponent? ==>
              '?' !in r.file && r.file <= url && (r.file == url || url[|r.file|] == '?')
  {
    if url == "/" then ServeHtml
    else if EndsWith(url, ".js") || EndsWith(url, ".map") then ServeScript(url, !EndsWith(url, ".map"))
    else if Contains(url, ".vue") then ServeComponent(SplitHead(url, '?'))
    else PassOn
  }

  /**
   * The body of a script response: a source map is sent as read, a script after
   * `importAnalysis` with the lexer's `records` for it.
   */
  function ScriptResponse(url: string, code: string, records: seq<ImportRecord>, manifest: Option<Manifest>): (r: Result<string>)
    requires RecordsWellFormed(records, |code|)
    ensures EndsWith(url, ".map") || records == [] ==> r == Ok(code)
    ensures !EndsWith(url, ".map") && records != [] && manifest.None? ==> r == Err(ManifestMissing)
    ensures r.Err? ==> r == ImportAnalysis(code, records, manifest)
  {
    if EndsWith(url, ".map") then Ok(code) else ImportAnalysis(code, records, manifest)
  }

  /** The body sent for a URL routed to a script is the file after the rewrite its route asks for. */
  lemma ScriptRouteResponse(url: string, code: string, records: seq<ImportRecord>, manifest: Option<Manifest>)
    requires Dispatch(url).ServeScript? && RecordsWellFormed(records, |code|)
    ensures ScriptResponse(url, code, records, manifest) ==
            if Dispatch(url).rewriteImports then ImportAnalysis(code, records, manifest) else Ok(code)
  {
  }

  /** A query string without dots hides any dotted suffix of the path before it. */
  lemma QueryHidesSuffix(path: string, query: string, ext: string)
    requires query != [] && query[0] == '?' && '.' !in query
    requires ext != [] && ext[0] == '.' && '?' !in ext
    ensures !EndsWith(path + query, ext)
  {
    var url := path + query;
    if |ext| <= |url| {
      var start := |url| - |ext|;
      var tail := url[start..];
      if start >= |path| {
        assert tail[0] == query[start - |path|] != ext[0];
      } else {
        assert tail[|path| - start] == url[|path|] == '?' != ext[|path| - start];
      }
    }
  }

  /** Neither does a query string without dots add a `.vue` the path lacks. */
  lemma QueryAddsNoComponent(path: string, query: string)
    requires !Contains(path, ".vue")
    requires query != [] && query[0] == '?' && '.' !in query
    ensures !Contains(path + query, ".vue")
  {
    var url := path + query;
    forall j: nat ensures !OccursAt(url, ".vue", j) {
      if j + 4 <= |url| {
        var part := url[j..j + 4];
        if j + 4 <= |path| {
          assert !OccursAt(path, ".vue", j);
          assert part == path[j..j + 4];
        } else if j < |path| {
          assert part[|path| - j] == url[|path|] == '?' != ".vue"[|path| - j];
        } else {
          assert part[0] == query[j - |path|] != '.';
        }
      }
    }
  }

  /**
   * The suffix tests look at the whole URL, query string included: a script requested with
   * a query string is passed on, not served, whenever the query neither ends the URL in a
   * script or map suffix nor brings a `.vue` into it.
   */
  lemma QueryHidesScript(path: string, query: string)
    requires path != "/" && EndsWith(path, ".js") && !Contains(path, ".vue")
    requires query != [] && query[0] == '?'
    requires !EndsWith(path + query, ".js") && !EndsWith(path + query, ".map")
    requires !Contains(path + query, ".vue")
    ensures Dispatch(path) == ServeScript(path, true)
    ensures Dispatch(path + query) == PassOn
  {
    assert !EndsWith(path, ".map") by {
      assert path[|path| - 1] == 's';
    }
    assert path + query != "/" by {
      assert |path + query| > |path| >= 3;
    }
  }

  /** A query string without dots meets those conditions for a path without `.vue`. */
  lemma DotlessQueryHidesScript(path: string, query: string)
    requires !Contains(path, ".vue")
    requires query != [] && query[0] == '?' && '.' !in query
    ensures !EndsWith(path + query, ".js") && !EndsWith(path + query, ".map")
    ensures !Contains(path + query, ".vue")
  {
    QueryHidesSuffix(path, query, ".js");
    QueryHidesSuffix(path, query, ".map");
    QueryAddsNoComponent(path, query);
  }

  /**
   * A component's query string is dropped before the file is read, whatever the query holds,
   * as long as it does not itself end the URL in a script or map suffix.
   */
  lemma ComponentQueryDropped(path: string, query: string)
    requires Contains(path, ".vue") && '?' !in path
    requires query != [] && query[0] == '?'
    requires !EndsWith(path + query, ".js") && !EndsWith(path + query, ".map")
    ensures Dispatch(path + query) == ServeComponent(path)
  {
    var url := path + query;
    var i := IndexOf(path, ".vue").value;
    assert OccursAt(url, ".vue", i) by {
      assert url[i..i + 4] == path[i..i + 4];
    }
    assert url != "/";
    SplitHeadOfPrefix(path, query, '?');
  }
}
