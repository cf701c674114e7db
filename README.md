# weak-vite dev server, modelled in Dafny

`vite/index.js` is a minimal Vite-style development server. Before it starts listening it
prebuilds the project's dependencies once (`optimizeDeps`) and records in a manifest which
bundle serves each dependency name. While it serves requests it rewrites the bare import
specifiers of every JavaScript module it sends (`importAnalysis`), compiles Vue single-file
components into one module, and routes each request URL to one of these handlers.

This project models those four pieces and proves properties of the models:

- `results.dfy` — `Option`, `Result` and the failures the server can run into: the manifest
  file is missing, MagicString is handed `undefined` as replacement text, or it is asked to
  overwrite an empty span.
- `js_strings.dfy` — the JavaScript string operations the server uses: `indexOf`,
  `endsWith`, `replace` with a string pattern (first occurrence only), `split('?')[0]`.
- `text_edits.dfy` — MagicString's `overwrite` followed by `toString`, as one left-to-right
  pass over a list of ascending, non-overlapping edits, and an independent reference that
  splices the edits in one at a time from the back.
- `import_analysis.dfy` — `importAnalysis`: the lexer's import records and the manifest go
  in, the rewritten text or the first failure comes out. A pure function and an imperative
  loop over an output buffer, proved equal, and the lemmas about the rewrite.
- `prebuild.dfy` — `optimizeDeps`: the manifest built by a loop over the dependency names,
  the cache guard as a state machine, and a class `PrebuildCache` whose method updates the
  cache state in place. Each takes the test that picks a dependency's bundle as a parameter:
  `SuffixMatch` is the program's own, `FileNameMatch` the correction under "## Findings".
- `component.dfy` — the `.vue` branch: the two first-occurrence replacements, the template
  literal that assembles the module, and the two `importAnalysis` passes.
- `routing.dfy` — which handler answers a URL.

The foreign engines are inputs: the module lexer is a function from text to import records
(well formed: spans inside the text, ascending, disjoint), the bundler is its list of output
file names (or `None` when the build rejects), and the Vue compilers are the script block and
the compiled template code as strings.

## Model

| member | source | states |
|---|---|---|
| JsStrings.IndexOf | vite/index.js:102 | `indexOf` finds the first occurrence of the pattern, or reports that there is none anywhere |
| JsStrings.ReplaceFirst | vite/index.js:110-118 | `replace` with a string pattern splices the replacement in at the first occurrence only, and returns the text unchanged when the pattern does not occur |
| JsStrings.SplitHead | vite/index.js:103 | `split('?')[0]` is a prefix of the URL without `?`, and is either the whole URL or stops right at a `?` |
| JsStrings.SplitHeadOfPrefix | vite/index.js:103 | the head of `path + rest` is exactly `path` when `path` has no separator and `rest` starts with one |
| TextEdits.ApplyEdits | vite/index.js:76-87 | overwriting the spans and calling `toString` keeps the text before the first span and after the last one, and changes nothing without overwrites |
| TextEdits.ApplyEditsIsSpliceFromBack | vite/index.js:76-87 | one ascending overwrite pass produces the same text as splicing each replacement in from the last to the first |
| TextEdits.ApplyEditsIdentity | vite/index.js:83-85 | overwrites whose text is already what their span holds leave the text unchanged |
| Imports.Resolve | vite/index.js:83 | `metaData[n] \|\| n`: a mapped name gives its non-empty manifest value; an unmapped name, or one mapped to "", is passed through; a missing name is looked up under "undefined" and stays missing without a non-empty value there; any other result is a manifest value |
| Imports.EditFor | vite/index.js:83-85 | one `overwrite`: a replacement that is not a string throws, otherwise an empty span throws, otherwise the span is overwritten with the resolved specifier |
| Imports.ToEdits | vite/index.js:77-86 | the overwrites succeed exactly when every record's does, one per record in order; otherwise the failure is that of the first record MagicString rejects |
| Imports.FirstRejectionDecides | vite/index.js:77-86 | the first rejected record decides the error, whatever the records after it hold |
| Imports.ImportAnalysis | vite/index.js:66-88 | no records give the text unchanged; records without a manifest file fail with the missing manifest; otherwise the result succeeds exactly when every overwrite does |
| Imports.RewriteImports | vite/index.js:76-87 | the `forEach` loop over an output buffer returns exactly what the pure `ImportAnalysis` returns, failure included |
| Imports.ImportAnalysisSplices | vite/index.js:77-87 | with every record accepted, each span is replaced by its resolved specifier and all other text is copied, as splicing from the back does |
| Imports.ImportAnalysisOneImport | vite/index.js:81-85 | one accepted import (a non-empty span and a string replacement): the text before the span, the resolved specifier, the text after it |
| Imports.ImportAnalysisPassthrough | vite/index.js:83-85 | specifiers the manifest does not map, in non-empty spans that hold the specifier itself, leave the text unchanged |
| Imports.ResolveIdempotent | vite/index.js:83 | resolving a resolved specifier again changes nothing when no manifest value is a key |
| Imports.RelocateSpans | vite/index.js:85-87 | in the rewritten text, each replacement sits at its relocated span, the spans ascending and disjoint |
| Imports.RewriteIsStable | vite/index.js:120-127 | a second pass over rewritten text, with the records of the replacements, returns it unchanged when no manifest value is a key and no record names the empty specifier (whose replacement would be an empty span the second pass rejects) |
| Imports.ToEditsShift | vite/index.js:120-124 | moving every record right by the same offset moves every overwrite and keeps any failure |
| Imports.ToEditsAppend | vite/index.js:77-86 | after accepted records, the records that follow decide the outcome, and their overwrites come after the first ones |
| Prebuild.FindFirst | vite/index.js:45 | `find` returns the first element the test accepts, or none when it accepts no element |
| Prebuild.SuffixServedPath | vite/index.js:45 | as written: `'/'` and the first output ending with `dep + ".js"`, or "/undefined" without one |
| Prebuild.ServedPath | vite/index.js:45 | corrected: `'/'` and the first output that is `dep + ".js"` or ends with `"/" + dep + ".js"`, or "/undefined"; any other result has that file name |
| Prebuild.MatchersAgree | vite/index.js:45 | both matchers serve the first output ending with `dep + ".js"` whenever that suffix starts at a path boundary |
| Prebuild.ServedPathKeepsScopedNames | vite/index.js:45 | corrected, a scoped name such as "@vue/shared" is served its bundle `dir/@vue/shared.js` |
| Prebuild.ManifestOf | vite/index.js:43-46 | the manifest's keys are exactly the declared dependency names, each mapped to the path the matcher picks (`SuffixServedPath` for the program's own) |
| Prebuild.ManifestPathsAbsolute | vite/index.js:45 | with either matcher, every path in a built manifest starts with `/` |
| Prebuild.ManifestNoValueIsKey | vite/index.js:43-46 | with either matcher, no path in a built manifest is a dependency name, when no name starts with `/` |
| Prebuild.BuildManifest | vite/index.js:43-46 | the `forEach` loop fills exactly the declared names with the paths the matcher picks, the manifest `ManifestOf` describes |
| Prebuild.Step | vite/index.js:16-50 | an existing directory returns `false` and changes nothing; otherwise the directory is created, a rejected build writes no manifest, and a finished build writes `ManifestOf` of its outputs |
| Prebuild.StepKeepsConsistent | vite/index.js:17-18 | after any call the cache directory exists, and a manifest only exists inside it |
| Prebuild.StepIdempotent | vite/index.js:17 | after any call, a further call returns `false` and changes nothing |
| Prebuild.RejectedBuildLeavesNoManifest | vite/index.js:17-39 | a rejected build leaves the directory without a manifest, and later calls still report it as cached |
| Prebuild.PrebuildCache.OptimizeDeps | vite/index.js:16-50 | the guard, directory creation, build and manifest write update the cache as the state machine `Step` does, with the same matcher; with the directory present nothing changes |
| Prebuild.SuffixMatchConfusesDependencies | vite/index.js:45 | as written, with outputs `preact.js` then `react.js`, both "react" and "preact" are served `preact.js` |
| Prebuild.ServedPathsDistinct | vite/index.js:45 | corrected, two distinct dependencies with a bundle are never served the same path, unless one name is the other behind a `/` |
| Prebuild.ServedPathServesOwnBundle | vite/index.js:45 | corrected, a dependency is served its own bundle even when another dependency's bundle, whose name ends the same way, is listed first ("react" after "preact") |
| ComponentCompiler.Assemble | vite/index.js:120-124 | the template literal puts the script part and the render part, unchanged, between its fixed indentation and trailer, and says where each part starts |
| ComponentCompiler.ScriptBody | vite/index.js:110 | only the first `export default ` of the script becomes `const __script = `; without one the script is unchanged |
| ComponentCompiler.RenderBody | vite/index.js:115-118 | only the first render header becomes the `__script.render=` assignment; without one the code is unchanged |
| ComponentCompiler.Compile | vite/index.js:109-127 | a failing first pass over the script is the response's failure, and a successful response had a successful first pass |
| ComponentCompiler.CompileWithoutImports | vite/index.js:120-127 | without imports, the module is the indented script, the render assignment and `export default __script;`, in that order, even without a manifest |
| ComponentCompiler.ScriptPartStable | vite/index.js:121 | when no manifest value is a key, no record names the empty specifier and every overwrite is accepted, the first pass succeeds, and its output, with the records of its replacements, is left unchanged by another pass |
| ComponentCompiler.SecondPassSplits | vite/index.js:120-127 | when the script part's own records are accepted and leave it unchanged, the second pass over the assembled module keeps the script part and rewrites the render part as a pass over it alone would, or fails as that pass does |
| ComponentCompiler.CompileSecondPass | vite/index.js:120-127 | when no manifest value is a key, no script import names the empty specifier and the script's overwrites are accepted, the response is the first pass's script followed by the template code rewritten once, or that rewrite's failure |
| Routing.Dispatch | vite/index.js:53-103 | exactly `/` is the HTML page; otherwise a `.js` or `.map` suffix serves the file, rewriting imports exactly when it is not `.map`; otherwise a `.vue` anywhere serves the component at the URL cut before its first `?`; anything else is passed on |
| Routing.ScriptResponse | vite/index.js:93-99 | a source map, or a script without imports, is sent as read; a script with imports and no manifest file fails with the missing manifest; every failure is that of `importAnalysis` |
| Routing.ScriptRouteResponse | vite/index.js:93-99 | for a URL routed to a script, the body is the file rewritten by `importAnalysis` exactly when the route asks for it, and the file as read otherwise |
| Routing.QueryHidesScript | vite/index.js:93 | a script URL without `.vue` is served, but the same URL with a query string is passed on, because the suffix test sees the query, whenever the query neither ends the URL in `.js` or `.map` nor brings in a `.vue` |
| Routing.DotlessQueryHidesScript | vite/index.js:93 | a query string without dots after a path without `.vue` meets those conditions |
| Routing.ComponentQueryDropped | vite/index.js:102-103 | a component URL with any query string that does not end the URL in `.js` or `.map` serves the component file without the query |

## Left out

- HTTP server creation, `connect` chaining, response headers and status codes, and the
  listening port: I/O plumbing with nothing to prove.
- File-system calls (`existsSync`, `mkdirSync`, `readFileSync`, `writeFileSync`, `require` of
  `package.json` and `_metadata.json`): the cache directory is a boolean, the manifest file an
  `Option` value, and file contents are inputs. `require` caches a module, so the manifest the
  server reads is the one present at its first read; the model passes the same manifest to
  every pass.
- The bundler call and its options: its output file names are an input, and a rejected build
  is `None`. JSON serialisation of the manifest, logging and `async` sequencing are left out.
- The module lexer's internals: its records are an input, well formed by precondition, and a
  parse failure of the lexer (a syntax error thrown by `parse`) is not modelled. A
  record without a name (`import.meta`, `import(expr)`) is `None`; JavaScript then looks up the
  key "undefined", which the model does as well.
- MagicString beyond `overwrite` and `toString`: only ascending, disjoint overwrites are
  modelled, which is what a lexer's records give.
- The Vue compilers: the script block and the compiled template code are strings. A component
  without a script or template block makes the source throw before any `importAnalysis` pass
  or response (only the `replace` on the script block may already have run); that case is not
  modelled.
- Character counting: JavaScript strings, the lexer's offsets and MagicString's offsets count
  UTF-16 code units, while the model's strings count its own characters and all offsets are in
  those characters. Since the lexer is an input this stays consistent, but a lone surrogate
  cannot be represented.
- JsStrings.ReplaceFirst: `$` patterns in the replacement text are not interpreted; the
  replacements used here contain none.
- Imports.Resolve: keys inherited from `Object.prototype` (such as "constructor") are not
  modelled; a manifest is a plain map.
- How the bundler names its outputs (for a scoped package such as "@vue/shared" in particular)
  is not modelled; both matchers are stated for any list of output paths.
- ComponentCompiler.CompileSecondPass: the lexer's records for the assembled module are a
  precondition (the rewritten script's replacements, then the template's records, each moved
  to its place), not derived from a lexer model.

## Findings

| source | as written | input that shows it | evidently intended | confidence | as-written member | corrected member |
|---|---|---|---|---|---|---|
| vite/index.js:45 | the manifest entry of `dep` is the first output whose path ends with `dep + ".js"` | dependencies "react" and "preact" with outputs `dir/preact.js` then `dir/react.js`: "react" is served `/dir/preact.js` | the output that is `dep + ".js"` or ends with `"/" + dep + ".js"`, so each dependency gets its own bundle | medium, not executed | Prebuild.SuffixMatchConfusesDependencies | Prebuild.ServedPathsDistinct |

`Prebuild.ManifestOf`, `Prebuild.BuildManifest`, `Prebuild.Step` and
`Prebuild.PrebuildCache.OptimizeDeps` take the matcher as a parameter: `SuffixMatch` picks
bundles with `Prebuild.SuffixServedPath`, as the program does, and `FileNameMatch` with the
corrected `Prebuild.ServedPath`. The properties of the manifest and of the state machine are
proved for both.
