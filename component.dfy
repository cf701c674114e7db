/**
 * The `.vue` branch of the transform middleware: the script block becomes a `__script`
 * object, the compiled template's `render` function is attached to it, and the assembled
 * module goes through `importAnalysis` a second time.
 */
module ComponentCompiler {
  import opened Results
  import opened JsStrings
  import opened TextEdits
  import opened Imports

  const ExportDefault: string := "export default "
  const ScriptBinding: string := "const __script = "
  const RenderHeader: string := "export function render(_ctx, _cache)"
  const RenderAssignment: string := "__script.render=(_ctx, _cache)=>"
  /** A line break and the three tabs of the template literal's indentation. */
  const Indent: string := "\n\t\t\t"
  /** The template literal's last line, the default export, and its closing indentation. */
  const Trailer: string := "\n\t\t\texport default __script;\n\t\t"

  /** The script block with its first default export turned into the `__script` binding. */
  function ScriptBody(script: string): (r: string)
    ensures !Contains(script, ExportDefault) ==> r == script
    ensures forall i: nat :: FirstOccurrence(script, ExportDefault, i) ==>
              r == script[..i] + ScriptBinding + script[i + |ExportDefault|..]
  {
    ReplaceFirst(script, ExportDefault, ScriptBinding)
  }

  /** The compiled template with its exported `render` declaration turned into an assignment. */
  function RenderBody(templateCode: string): (r: string)
    ensures !Contains(templateCode, RenderHeader) ==> r == templateCode
    ensures forall i: nat :: FirstOccurrence(templateCode, RenderHeader, i) ==>
              r == templateCode[..i] + RenderAssignment + templateCode[i + |RenderHeader|..]
  {
    ReplaceFirst(templateCode, RenderHeader, RenderAssignment)
  }

  /**
   * The template literal that joins the rewritten script and the render assignment: each part
   * sits, unchanged, between the literal's fixed indentation and trailer.
   */
  function Assemble(script: string, render: string): (r: string)
    ensures |r| == RenderOffset(script) + |render| + |Trailer|
    ensures r[..|Indent|] == Indent && r[|Indent|..|Indent| + |script|] == script
    ensures r[|Indent| + |script|..RenderOffset(script)] == Indent
    ensures r[RenderOffset(script)..RenderOffset(script) + |render|] == render
    ensures r[RenderOffset(script) + |render|..] == Trailer
  {
    Indent + script + Indent + render + Trailer
  }

  /** The module around a rewritten render part, or the failure of its rewrite. */
  function AssembleResult(script: string, render: Result<string>): Result<string> {
    match render
    case Ok(code) => Ok(Assemble(script, code))
    case Err(f) => Err(f)
  }

  /** Where the render part starts inside `Assemble(script, render)`. */
  function RenderOffset(script: string): nat {
    |Indent| + |script| + |Indent|
  }

  /** What the module lexer reports for a text: its import records. */
  type Lexer = string -> seq<ImportRecord>

  /** A lexer whose records always lie, ascending and disjoint, inside the text it read. */
  ghost predicate LexerWellFormed(lex: Lexer) {
    forall t :: RecordsWellFormed(lex(t), |t|)
  }

  /**
   * The response body for a component whose script block is `script` and whose template
   * compiles to `templateCode`: the first `importAnalysis` pass over the script, then the
   * second over the assembled module. The first failure is the response's failure.
   */
  function Compile(script: string, templateCode: string, lex: Lexer, manifest: Option<Manifest>): (r: Result<string>)
    requires LexerWellFormed(lex)
    ensures var body := ScriptBody(script);
            ImportAnalysis(body, lex(body), manifest).Err? ==> r == ImportAnalysis(body, lex(body), manifest)
    ensures var body := ScriptBody(script);
            r.Ok? ==> ImportAnalysis(body, lex(body), manifest).Ok?
  {
    var body := ScriptBody(script);
    match ImportAnalysis(body, lex(body), manifest)
    case Err(f) => Err(f)
    case Ok(first) =>
      var code := Assemble(first, RenderBody(templateCode));
      ImportAnalysis(code, lex(code), manifest)
  }

  /** A component without any import compiles even when no dependency has been prebuilt. */
  lemma CompileWithoutImports(script: string, templateCode: string, lex: Lexer, manifest: Option<Manifest>)
    requires LexerWellFormed(lex)
    requires lex(ScriptBody(script)) == []
    requires lex(Assemble(ScriptBody(script), RenderBody(templateCode))) == []
    ensures Compile(script, templateCode, lex, manifest) ==
            Ok(Indent + ScriptBody(script) + Indent + RenderBody(templateCode) + Trailer)
  {
  }

  /** The module as `FramedRewrite` splits it: what precedes the render part's separator, and the rest. */
  lemma FrameParts(lead: string, first: string, sep: string, mid: string, close: string)
    ensures lead + first + sep + mid + close == (lead + first) + (sep + (mid + close))
  {
    var x, y := lead + first, mid + close;
    assert x + sep + mid + close == x + sep + y;
    assert x + sep + y == x + (sep + y);
  }

  /**
   * Overwrites on `lead + first + sep + render + close` that leave `first` as it is,
   * followed by overwrites of `render` moved past `sep`, rewrite only the `render` part.
   */
  lemma FramedRewrite(lead: string, first: string, sep: string, render: string, close: string,
                      firstEdits: seq<Edit>, renderEdits: seq<Edit>, offset: nat)
    requires WellFormed(firstEdits, 0, |first|) && ApplyEdits(first, firstEdits) == first
    requires WellFormed(renderEdits, 0, |render|)
    requires offset == |lead| + |first| + |sep|
    ensures WellFormed(Shift(firstEdits, |lead|) + Shift(renderEdits, offset),
                       0, |lead + first + sep + render + close|)
    ensures ApplyEdits(lead + first + sep + render + close,
                       Shift(firstEdits, |lead|) + Shift(renderEdits, offset)) ==
            lead + first + sep + ApplyEdits(render, renderEdits) + close
  {
    var a := lead + first;
    var tail := render + close;
    var b := sep + tail;
    var firstMoved, renderMoved := Shift(firstEdits, |lead|), Shift(renderEdits, |sep|);
    ShiftShift(renderEdits, |sep|, |a|, offset);
    var second := ApplyEdits(render, renderEdits);
    FrameParts(lead, first, sep, render, close);
    ApplyFromShiftBefore(lead, first, firstEdits, 0);
    assert lead[0..] == lead;
    ApplyFromPrefix(tail, renderEdits, 0, |render|);
    assert tail[..|render|] == render && tail[|render|..] == close;
    ApplyFromShiftBefore(sep, tail, renderEdits, 0);
    assert sep[0..] == sep;
    ApplyFromConcat(a, b, firstMoved, renderMoved, 0);
    FrameParts(lead, first, sep, second, close);
    assert ApplyFrom(a, firstMoved, 0) == a;
    assert ApplyFrom(b, renderMoved, 0) == sep + (second + close);
  }

  /** The records of the rewritten script, as the second pass sees them, change nothing in it. */
  lemma ScriptPartStable(body: string, records: seq<ImportRecord>, m: Manifest)
    requires RecordsWellFormed(records, |body|) && NoValueIsKey(m)
    requires forall i :: 0 <= i < |records| ==> records[i].name != Some([])
    requires ToEdits(m, records).Ok?
    ensures ImportAnalysis(body, records, Some(m)).Ok?
    ensures var first := ImportAnalysis(body, records, Some(m)).value;
            var again := Rewritten(body, records, m);
            RecordsWellFormed(again, |first|) && ToEdits(m, again).Ok? &&
            WellFormed(ToEdits(m, again).value, 0, |first|) &&
            ApplyEdits(first, ToEdits(m, again).value) == first
  {
    var first := ImportAnalysis(body, records, Some(m)).value;
    var again := Rewritten(body, records, m);
    RewriteIsStable(body, records, m);
    assert ToEdits(m, again).Ok?;
    EditsWellFormed(first, again, m);
    if again == [] {
      ApplyEditsEmpty(first);
    }
  }

  /**
   * The second pass over the assembled module, given the records of the rewritten script
   * moved past the first indentation and the template's records moved past the script.
   */
  lemma SecondPassSplits(first: string, again: seq<ImportRecord>, render: string,
                         renderRecords: seq<ImportRecord>, m: Manifest)
    requires RecordsWellFormed(again, |first|) && ToEdits(m, again).Ok?
    requires WellFormed(ToEdits(m, again).value, 0, |first|)
    requires ApplyEdits(first, ToEdits(m, again).value) == first
    requires RecordsWellFormed(renderRecords, |render|)
    requires RecordsWellFormed(ShiftRecords(again, |Indent|) + ShiftRecords(renderRecords, RenderOffset(first)),
                               |Assemble(first, render)|)
    ensures ImportAnalysis(Assemble(first, render),
                           ShiftRecords(again, |Indent|) + ShiftRecords(renderRecords, RenderOffset(first)),
                           Some(m)) ==
            AssembleResult(first, ImportAnalysis(render, renderRecords, Some(m)))
  {
    var all := ShiftRecords(again, |Indent|) + ShiftRecords(renderRecords, RenderOffset(first));
    var scriptEdits := ToEdits(m, again).value;
    ToEditsShift(m, again, |Indent|);
    ToEditsShift(m, renderRecords, RenderOffset(first));
    ToEditsAppend(m, ShiftRecords(again, |Indent|), ShiftRecords(renderRecords, RenderOffset(first)));
    if ToEdits(m, renderRecords).Ok? {
      var renderEdits := ToEdits(m, renderRecords).value;
      EditsWellFormed(render, renderRecords, m);
      FramedRewrite(Indent, first, Indent, render, Trailer, scriptEdits, renderEdits, RenderOffset(first));
      if renderRecords == [] {
        ApplyEditsEmpty(render);
        if all == [] {
          ApplyEditsEmpty(Assemble(first, render));
        }
      }
    }
  }

  /**
   * The second pass is harmless to the script part: when no served path is itself a
   * dependency name and the lexer finds in the assembled module exactly the script's
   * rewritten imports followed by the template's imports, the second pass leaves the script
   * part as the first pass wrote it and rewrites the template's imports as a pass over the
   * template alone would; a template import the manifest cannot serve fails the response.
   */
  lemma CompileSecondPass(script: string, templateCode: string, lex: Lexer, m: Manifest)
    requires LexerWellFormed(lex) && NoValueIsKey(m)
    requires forall i :: 0 <= i < |lex(ScriptBody(script))| ==> lex(ScriptBody(script))[i].name != Some([])
    requires ToEdits(m, lex(ScriptBody(script))).Ok?
    requires var body := ScriptBody(script);
             var first := ImportAnalysis(body, lex(body), Some(m)).value;
             var render := RenderBody(templateCode);
             lex(Assemble(first, render)) ==
             ShiftRecords(Rewritten(body, lex(body), m), |Indent|) + ShiftRecords(lex(render), RenderOffset(first))
    ensures var body := ScriptBody(script);
            var first := ImportAnalysis(body, lex(body), Some(m)).value;
            var render := RenderBody(templateCode);
            Compile(script, templateCode, lex, Some(m)) ==
            AssembleResult(first, ImportAnalysis(render, lex(render), Some(m)))
  {
    var body := ScriptBody(script);
    var first := ImportAnalysis(body, lex(body), Some(m)).value;
    var render := RenderBody(templateCode);
    var code := Assemble(first, render);
    ScriptPartStable(body, lex(body), m);
    assert RecordsWellFormed(lex(code), |code|) && RecordsWellFormed(lex(render), |render|);
    SecondPassSplits(first, Rewritten(body, lex(body), m), render, lex(render), m);
  }
}
