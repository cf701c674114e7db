/**
 * `importAnalysis` (vite/index.js:66-88): every import specifier the lexer reports is
 * overwritten with its manifest path, or with itself when the manifest does not map it.
 */
module Imports {
  import opened Results
  import opened TextEdits

  /**
   * One import record of es-module-lexer: the specifier `n` (absent for `import.meta` and for
   * a dynamic import of a computed expression) and the span `[s, e)` it occupies in the text.
   */
  datatype ImportRecord = ImportRecord(name: Option<string>, start: nat, end: nat)

  /** The dependency manifest: dependency name to served path. */
  type Manifest = map<string, string>

  /** What the lexer guarantees: spans inside the text, ascending and non-overlapping. */
  predicate RecordsWellFormed(records: seq<ImportRecord>, len: nat) {
    (forall i :: 0 <= i < |records| ==> records[i].start <= records[i].end <= len) &&
    (forall i, j :: 0 <= i < j < |records| ==> records[i].end <= records[j].start)
  }

  /** No served path is itself a dependency name. */
  predicate NoValueIsKey(m: Manifest) {
    forall k :: k in m ==> m[k] !in m
  }

  /**
   * `metaData[n] || n`. A missing specifier is looked up under the key "undefined", as a
   * JavaScript property access does, and an empty mapped path falls through to `n`.
   */
  function Resolve(m: Manifest, name: Option<string>): (r: Option<string>)
    ensures name.Some? && name.value !in m ==> r == name
    ensures name.Some? && name.value in m && m[name.value] != [] ==> r == Some(m[name.value])
    ensures name.Some? && name.value in m && m[name.value] == [] ==> r == name
    ensures name.None? ==> r == (if "undefined" in m && m["undefined"] != [] then Some(m["undefined"]) else None)
    ensures r.Some? && r != name ==> r.value != [] && r.value in m.Values
  {
    var key := if name.Some? then name.value else "undefined";
    if key in m && m[key] != [] then Some(m[key]) else name
  }

  /**
   * The overwrite one record asks of MagicString, or the error MagicString throws for it: a
   * replacement that is not a string is rejected before an empty span is.
   */
  function EditFor(m: Manifest, rec: ImportRecord): (r: Result<Edit>)
    ensures r == Err(ReplacementNotString) <==> Resolve(m, rec.name).None?
    ensures r == Err(ZeroLengthRange) <==> Resolve(m, rec.name).Some? && rec.start == rec.end
    ensures r.Ok? ==> r.value == Edit(rec.start, rec.end, Resolve(m, rec.name).value) && rec.start != rec.end
  {
    match Resolve(m, rec.name)
    case None => Err(ReplacementNotString)
    case Some(text) =>
      if rec.start == rec.end then Err(ZeroLengthRange) else Ok(Edit(rec.start, rec.end, text))
  }

  /**
   * The overwrites of the `forEach` loop, in order. The first record MagicString rejects
   * decides the error: the loop throws there and no later record is looked at.
   */
  function ToEdits(m: Manifest, records: seq<ImportRecord>): (r: Result<seq<Edit>>)
    ensures r.Ok? <==> forall i :: 0 <= i < |records| ==> EditFor(m, records[i]).Ok?
    ensures r.Ok? ==> |r.value| == |records|
    ensures r.Ok? ==> forall i :: 0 <= i < |records| ==> Ok(r.value[i]) == EditFor(m, records[i])
    ensures r.Err? ==>
              exists i :: 0 <= i < |records| && Err(r.error) == EditFor(m, records[i]) &&
                          forall j :: 0 <= j < i ==> EditFor(m, records[j]).Ok?
    decreases |records|
  {
    if records == [] then Ok([])
    else
      var n := |records| - 1;
      assert forall i :: 0 <= i < n ==> records[..n][i] == records[i];
      Extend(ToEdits(m, records[..n]), EditFor(m, records[n]))
  }

  /** One more `forEach` iteration: a thrown error stays, otherwise the next overwrite is added. */
  function Extend(done: Result<seq<Edit>>, next: Result<Edit>): Result<seq<Edit>> {
    match done
    case Err(f) => Err(f)
    case Ok(edits) =>
      match next
      case Err(f) => Err(f)
      case Ok(e) => Ok(edits + [e])
  }

  /** The overwrites keep the lexer's spans, so they are as well formed as the records. */
  lemma EditsWellFormed(code: string, records: seq<ImportRecord>, m: Manifest)
    requires RecordsWellFormed(records, |code|) && ToEdits(m, records).Ok?
    ensures WellFormed(ToEdits(m, records).value, 0, |code|)
  {
    var edits := ToEdits(m, records).value;
    forall i | 0 <= i < |edits|
      ensures edits[i].start == records[i].start && edits[i].end == records[i].end
    {
      assert Ok(edits[i]) == EditFor(m, records[i]);
    }
    WellFormedIntro(edits, 0, |code|);
  }

  /**
   * `importAnalysis(code)` given the lexer's records for `code` and the manifest file's
   * content (`None` when the file is absent, which makes `require` throw).
   */
  function ImportAnalysis(code: string, records: seq<ImportRecord>, manifest: Option<Manifest>): (r: Result<string>)
    requires RecordsWellFormed(records, |code|)
    ensures records == [] ==> r == Ok(code)
    ensures records != [] && manifest.None? ==> r == Err(ManifestMissing)
    ensures records != [] && manifest.Some? ==> (r.Ok? <==> ToEdits(manifest.value, records).Ok?)
  {
    if records == [] then Ok(code)
    else if manifest.None? then Err(ManifestMissing)
    else
      match ToEdits(manifest.value, records)
      case Err(f) => Err(f)
      case Ok(edits) =>
        EditsWellFormed(code, records, manifest.value);
        Ok(ApplyEdits(code, edits))
  }

  /**
   * With every record accepted, the result is the text with each span replaced by its resolved
   * specifier, exactly as splicing the replacements in one at a time from the back.
   */
  lemma ImportAnalysisSplices(code: string, records: seq<ImportRecord>, m: Manifest)
    requires RecordsWellFormed(records, |code|) && records != []
    requires forall i :: 0 <= i < |records| ==> EditFor(m, records[i]).Ok?
    ensures ToEdits(m, records).Ok?
    ensures forall i :: 0 <= i < |records| ==>
              ToEdits(m, records).value[i] ==
              Edit(records[i].start, records[i].end, Resolve(m, records[i].name).value)
    ensures WellFormed(ToEdits(m, records).value, 0, |code|)
    ensures ImportAnalysis(code, records, Some(m)) == Ok(SpliceFromBack(code, ToEdits(m, records).value))
  {
    var edits := ToEdits(m, records).value;
    forall i | 0 <= i < |records|
      ensures edits[i] == Edit(records[i].start, records[i].end, Resolve(m, records[i].name).value)
    {
      assert Ok(edits[i]) == EditFor(m, records[i]);
    }
    EditsWellFormed(code, records, m);
    ApplyEditsIsSpliceFromBack(code, edits);
  }

  /** A single import: the text before its span, its resolved specifier, the text after. */
  lemma ImportAnalysisOneImport(code: string, rec: ImportRecord, m: Manifest)
    requires rec.start < rec.end <= |code|
    requires Resolve(m, rec.name).Some?
    ensures RecordsWellFormed([rec], |code|)
    ensures ImportAnalysis(code, [rec], Some(m)) ==
            Ok(code[..rec.start] + Resolve(m, rec.name).value + code[rec.end..])
  {
    ImportAnalysisSplices(code, [rec], m);
  }

  /**
   * Specifiers the manifest does not map, whose span holds the specifier itself (relative,
   * absolute or unknown bare names), leave the text exactly as it was.
   */
  lemma ImportAnalysisPassthrough(code: string, records: seq<ImportRecord>, m: Manifest)
    requires RecordsWellFormed(records, |code|)
    requires forall i :: 0 <= i < |records| ==>
               records[i].start < records[i].end &&
               records[i].name == Some(code[records[i].start..records[i].end]) &&
               records[i].name.value !in m
    ensures ImportAnalysis(code, records, Some(m)) == Ok(code)
  {
    if records != [] {
      ImportAnalysisSplices(code, records, m);
      var edits := ToEdits(m, records).value;
      forall i | 0 <= i < |edits| ensures edits[i].text == code[edits[i].start..edits[i].end] {
        assert edits[i] == Edit(records[i].start, records[i].end, records[i].name.value);
      }
      ApplyEditsIdentity(code, edits);
    }
  }

  /** `metaData[n] || n` applied to its own result changes nothing when no path is a name. */
  lemma ResolveIdempotent(m: Manifest, name: Option<string>)
    requires NoValueIsKey(m) && Resolve(m, name).Some?
    ensures Resolve(m, Resolve(m, name)) == Resolve(m, name)
  {
  }

  /**
   * The records a lexer reports for the rewritten text: each replacement, now a specifier of
   * its own, at the position the one-pass rewrite put it.
   */
  function Relocate(code: string, edits: seq<Edit>, pos: nat, outPos: nat): (r: seq<ImportRecord>)
    requires WellFormed(edits, pos, |code|)
    ensures |r| == |edits|
    decreases |edits|
  {
    if edits == [] then []
    else
      var e := edits[0];
      var at := outPos + (e.start - pos);
      assert WellFormed(edits[1..], e.end, |code|) by { WellFormedTail(edits, pos, |code|); }
      [ImportRecord(Some(e.text), at, at + |e.text|)] + Relocate(code, edits[1..], e.end, at + |e.text|)
  }

  /** One step of `Relocate`, with the output position after the first replacement named. */
  lemma RelocateStep(code: string, edits: seq<Edit>, pos: nat, outPos: nat, next: nat)
    requires WellFormed(edits, pos, |code|) && edits != []
    requires next == outPos + (edits[0].start - pos) + |edits[0].text|
    ensures WellFormed(edits[1..], edits[0].end, |code|)
    ensures Relocate(code, edits, pos, outPos) ==
            [ImportRecord(Some(edits[0].text), next - |edits[0].text|, next)] + Relocate(code, edits[1..], edits[0].end, next)
  {
    WellFormedTail(edits, pos, |code|);
  }

  /** A record in front of well-formed records that start after it keeps them well formed. */
  lemma RecordsCons(head: ImportRecord, tail: seq<ImportRecord>, lo: nat, len: nat)
    requires head.start <= head.end <= lo <= len && RecordsWellFormed(tail, len)
    requires forall i :: 0 <= i < |tail| ==> lo <= tail[i].start
    ensures RecordsWellFormed([head] + tail, len)
  {
    var all := [head] + tail;
    forall i | 0 < i < |all| ensures all[i] == tail[i - 1] {
    }
  }

  /**
   * A relocated record in front of relocated records that start after it: together they name
   * the replacements of `edits` and hold them in `out`, in well-formed spans.
   */
  lemma RelocatedCons(head: ImportRecord, tail: seq<ImportRecord>, edits: seq<Edit>, out: string, lo: nat, mid: nat)
    requires edits != [] && |tail| == |edits| - 1
    requires lo <= head.start <= head.end <= mid <= |out| && RecordsWellFormed(tail, |out|)
    requires head.name == Some(edits[0].text) && out[head.start..head.end] == edits[0].text
    requires forall i :: 0 <= i < |tail| ==>
               mid <= tail[i].start && tail[i].name == Some(edits[1..][i].text) &&
               out[tail[i].start..tail[i].end] == edits[1..][i].text
    ensures RecordsWellFormed([head] + tail, |out|)
    ensures forall i :: 0 <= i < |edits| ==>
              var rec := ([head] + tail)[i];
              lo <= rec.start && rec.name == Some(edits[i].text) && out[rec.start..rec.end] == edits[i].text
  {
    var all := [head] + tail;
    forall i | 0 < i < |all| ensures all[i] == tail[i - 1] && edits[i] == edits[1..][i - 1] {
    }
    RecordsCons(head, tail, mid, |out|);
  }

  /** The middle of three joined texts. */
  lemma MiddleSlice(x: string, t: string, y: string)
    ensures (x + t + y)[|x|..|x| + |t|] == t
  {
    assert (x + t + y)[|x|..|x| + |t|] == (x + t)[|x|..];
  }

  /** Relocated records name their replacement, and their spans in the output hold exactly it. */
  lemma {:induction false} RelocateSpans(code: string, edits: seq<Edit>, pos: nat, prefix: string)
    requires WellFormed(edits, pos, |code|)
    ensures RecordsWellFormed(Relocate(code, edits, pos, |prefix|), |prefix + ApplyFrom(code, edits, pos)|)
    ensures forall i :: 0 <= i < |edits| ==>
              var rec := Relocate(code, edits, pos, |prefix|)[i];
              |prefix| <= rec.start && rec.name == Some(edits[i].text) &&
              (prefix + ApplyFrom(code, edits, pos))[rec.start..rec.end] == edits[i].text
    decreases |edits|
  {
    if edits != [] {
      var e := edits[0];
      var lead := prefix + code[pos..e.start];
      var prefix' := lead + e.text;
      RelocateStep(code, edits, pos, |prefix|, |prefix'|);
      var rest := ApplyFrom(code, edits[1..], e.end);
      ApplyFromStep(code, edits, pos, e.start, e.end, e.text, edits[1..]);
      var out := prefix + ApplyFrom(code, edits, pos);
      assert out == lead + e.text + rest;
      RelocateSpans(code, edits[1..], e.end, prefix');
      var rs := Relocate(code, edits, pos, |prefix|);
      var tail := Relocate(code, edits[1..], e.end, |prefix'|);
      var head := ImportRecord(Some(e.text), |lead|, |prefix'|);
      assert rs == [head] + tail;
      MiddleSlice(lead, e.text, rest);
      assert out == prefix' + rest;
      RelocatedCons(head, tail, edits, out, |prefix|, |prefix'|);
    }
  }

  /** The import records of the rewritten text, when the rewrite succeeds. */
  function Rewritten(code: string, records: seq<ImportRecord>, m: Manifest): (r: seq<ImportRecord>)
    requires RecordsWellFormed(records, |code|) && ToEdits(m, records).Ok?
    ensures |r| == |records|
  {
    EditsWellFormed(code, records, m);
    Relocate(code, ToEdits(m, records).value, 0, 0)
  }

  /** The records of the rewritten text lie inside it, each naming the replacement its span holds. */
  lemma RewrittenSpans(code: string, records: seq<ImportRecord>, m: Manifest)
    requires RecordsWellFormed(records, |code|) && ToEdits(m, records).Ok?
    ensures WellFormed(ToEdits(m, records).value, 0, |code|)
    ensures var edits := ToEdits(m, records).value;
            var out := ApplyEdits(code, edits);
            var again := Rewritten(code, records, m);
            RecordsWellFormed(again, |out|) &&
            forall i :: 0 <= i < |again| ==>
              again[i].name == Some(edits[i].text) && out[again[i].start..again[i].end] == edits[i].text
  {
    var edits := ToEdits(m, records).value;
    EditsWellFormed(code, records, m);
    RelocateSpans(code, edits, 0, []);
    assert [] + ApplyFrom(code, edits, 0) == ApplyEdits(code, edits);
  }

  /**
   * Rewriting is stable: when no served path is itself a dependency name, a second pass over
   * the rewritten text, with the records a lexer reports for it, changes nothing.
   */
  lemma RewriteIsStable(code: string, records: seq<ImportRecord>, m: Manifest)
    requires RecordsWellFormed(records, |code|) && NoValueIsKey(m)
    requires forall i :: 0 <= i < |records| ==> records[i].name != Some([])
    requires ImportAnalysis(code, records, Some(m)).Ok?
    ensures var out := ImportAnalysis(code, records, Some(m)).value;
            RecordsWellFormed(Rewritten(code, records, m), |out|) &&
            ImportAnalysis(out, Rewritten(code, records, m), Some(m)) == Ok(out)
  {
    if records != [] {
      var edits := ToEdits(m, records).value;
      RewrittenSpans(code, records, m);
      var out := ApplyEdits(code, edits);
      var again := Rewritten(code, records, m);
      RewrittenAccepted(code, records, m);
      var edits2 := ToEdits(m, again).value;
      EditsWellFormed(out, again, m);
      assert Identity(out, edits2);
      ApplyEditsIdentity(out, edits2);
    }
  }

  /**
   * A second pass accepts every record of the rewritten text and overwrites each span with the
   * replacement it already holds, when no served path is a dependency name.
   */
  lemma RewrittenAccepted(code: string, records: seq<ImportRecord>, m: Manifest)
    requires RecordsWellFormed(records, |code|) && NoValueIsKey(m) && ToEdits(m, records).Ok?
    requires forall i :: 0 <= i < |records| ==> records[i].name != Some([])
    ensures var edits := ToEdits(m, records).value;
            var again := Rewritten(code, records, m);
            ToEdits(m, again).Ok? &&
            forall i :: 0 <= i < |again| ==>
              ToEdits(m, again).value[i] == Edit(again[i].start, again[i].end, edits[i].text)
  {
    var edits := ToEdits(m, records).value;
    var again := Rewritten(code, records, m);
    RewrittenSpans(code, records, m);
    forall i | 0 <= i < |again| ensures EditFor(m, again[i]) == Ok(Edit(again[i].start, again[i].end, edits[i].text)) {
      assert Ok(edits[i]) == EditFor(m, records[i]);
      ResolveIdempotent(m, records[i].name);
    }
    var edits2 := ToEdits(m, again).value;
    forall i | 0 <= i < |again| ensures edits2[i] == Edit(again[i].start, again[i].end, edits[i].text) {
      assert Ok(edits2[i]) == EditFor(m, again[i]);
    }
  }

  /**
   * The `forEach` loop of `importAnalysis`: one ascending pass that copies the text between
   * spans into an output buffer and writes each resolved specifier in place of its span.
   */
  method RewriteImports(code: string, records: seq<ImportRecord>, manifest: Option<Manifest>) returns (r: Result<string>)
    requires RecordsWellFormed(records, |code|)
    ensures r == ImportAnalysis(code, records, manifest)
  {
    if |records| == 0 {
      return Ok(code);
    }
    if manifest.None? {
      return Err(ManifestMissing);
    }
    var m := manifest.value;
    var out: string := [];
    var cursor: nat := 0;
    ghost var done: seq<Edit> := [];
    for i := 0 to |records|
      invariant ToEdits(m, records[..i]) == Ok(done)
      invariant cursor <= |code| && WellFormed(done, 0, cursor)
      invariant forall j :: i <= j < |records| ==> cursor <= records[j].start
      invariant out == ApplyEdits(code[..cursor], done)
    {
      var rec := records[i];
      var replacement := Resolve(m, rec.name);
      if replacement.None? || rec.start == rec.end {
        r := if replacement.None? then Err(ReplacementNotString) else Err(ZeroLengthRange);
        RejectedAt(code, records, m, i, done);
        return;
      }
      var e := Edit(rec.start, rec.end, replacement.value);
      ToEditsStep(m, records, i, done);
      EmitStep(code, done, cursor, e);
      out := out + code[cursor..rec.start] + replacement.value;
      cursor := rec.end;
      done := done + [e];
    }
    AcceptedAll(code, records, m, done, cursor);
    r := Ok(out + code[cursor..]);
  }

  /** A record MagicString rejects, after only accepted ones, decides the outcome of the loop. */
  lemma FirstRejectionDecides(m: Manifest, records: seq<ImportRecord>, i: nat)
    requires i < |records| && EditFor(m, records[i]).Err?
    requires forall j :: 0 <= j < i ==> EditFor(m, records[j]).Ok?
    ensures ToEdits(m, records) == Err(EditFor(m, records[i]).error)
  {
    var r := ToEdits(m, records);
    var k :| 0 <= k < |records| && Err(r.error) == EditFor(m, records[k]) &&
             forall j :: 0 <= j < k ==> EditFor(m, records[j]).Ok?;
    assert k == i;
  }

  /** The loop stops at the first record MagicString rejects, with that record's error. */
  lemma RejectedAt(code: string, records: seq<ImportRecord>, m: Manifest, i: nat, done: seq<Edit>)
    requires RecordsWellFormed(records, |code|)
    requires i < |records| && ToEdits(m, records[..i]) == Ok(done) && EditFor(m, records[i]).Err?
    ensures ImportAnalysis(code, records, Some(m)) == Err(EditFor(m, records[i]).error)
  {
    forall j | 0 <= j < i ensures EditFor(m, records[j]).Ok? {
      assert records[..i][j] == records[j];
    }
    FirstRejectionDecides(m, records, i);
  }

  /** After the last record the buffer plus the rest of the text is the rewritten text. */
  lemma AcceptedAll(code: string, records: seq<ImportRecord>, m: Manifest, done: seq<Edit>, cursor: nat)
    requires RecordsWellFormed(records, |code|) && records != []
    requires ToEdits(m, records[..|records|]) == Ok(done)
    requires cursor <= |code| && WellFormed(done, 0, cursor)
    ensures ImportAnalysis(code, records, Some(m)) == Ok(ApplyEdits(code[..cursor], done) + code[cursor..])
  {
    assert records[..|records|] == records;
    ApplyFromPrefix(code, done, 0, cursor);
    EditsWellFormed(code, records, m);
  }

  /** An accepted record extends the overwrites of the records before it by its own. */
  lemma ToEditsStep(m: Manifest, records: seq<ImportRecord>, i: nat, done: seq<Edit>)
    requires i < |records| && ToEdits(m, records[..i]) == Ok(done) && EditFor(m, records[i]).Ok?
    ensures ToEdits(m, records[..i + 1]) == Ok(done + [EditFor(m, records[i]).value])
  {
    assert records[..i + 1][..i] == records[..i];
  }

  /** One step of the output buffer: copy the gap up to the span, then write the replacement. */
  lemma EmitStep(code: string, done: seq<Edit>, cursor: nat, e: Edit)
    requires WellFormed(done, 0, cursor) && cursor <= e.start <= e.end <= |code|
    ensures WellFormed(done + [e], 0, e.end)
    ensures ApplyEdits(code[..e.end], done + [e]) ==
            ApplyEdits(code[..cursor], done) + code[cursor..e.start] + e.text
  {
    WellFormedAppend(done, [e], 0, cursor, e.end);
    ApplyFromSnoc(code[..e.end], done, e, 0);
    assert code[..e.end][..e.start] == code[..e.start];
    assert code[..e.end][e.end..] == [];
    ApplyFromPrefix(code[..e.start], done, 0, cursor);
    assert code[..e.start][..cursor] == code[..cursor];
    assert code[..e.start][cursor..] == code[cursor..e.start];
  }

  /** Every record moved right by `k`, as a lexer reports them after `k` characters are prepended. */
  function ShiftRecords(records: seq<ImportRecord>, k: nat): (r: seq<ImportRecord>)
    ensures |r| == |records|
    ensures forall i :: 0 <= i < |records| ==>
              r[i] == ImportRecord(records[i].name, records[i].start + k, records[i].end + k)
  {
    if records == [] then []
    else [ImportRecord(records[0].name, records[0].start + k, records[0].end + k)] + ShiftRecords(records[1..], k)
  }

  /** An overwrite moved right by `k`; an error stays as it is. */
  function ShiftEdit(r: Result<Edit>, k: nat): Result<Edit> {
    match r
    case Ok(e) => Ok(Edit(e.start + k, e.end + k, e.text))
    case Err(f) => Err(f)
  }

  /** Overwrites moved right by `k`; an error stays as it is. */
  function ShiftResult(r: Result<seq<Edit>>, k: nat): Result<seq<Edit>> {
    match r
    case Ok(edits) => Ok(Shift(edits, k))
    case Err(f) => Err(f)
  }

  /** Moving a record moves its overwrite and keeps its error. */
  lemma EditForMoved(m: Manifest, rec: ImportRecord, k: nat)
    ensures EditFor(m, ImportRecord(rec.name, rec.start + k, rec.end + k)) == ShiftEdit(EditFor(m, rec), k)
  {
  }

  /** `EditForMoved` for the record at index `i` of the moved records. */
  lemma EditForShift(m: Manifest, records: seq<ImportRecord>, k: nat, i: nat)
    requires i < |records|
    ensures EditFor(m, ShiftRecords(records, k)[i]) == ShiftEdit(EditFor(m, records[i]), k)
  {
    var rec := records[i];
    var moved := ShiftRecords(records, k)[i];
    assert moved == ImportRecord(rec.name, rec.start + k, rec.end + k);
    EditForMoved(m, rec, k);
  }

  /** Moving commutes with one more iteration. */
  lemma ExtendShift(done: Result<seq<Edit>>, next: Result<Edit>, k: nat)
    ensures Extend(ShiftResult(done, k), ShiftEdit(next, k)) == ShiftResult(Extend(done, next), k)
  {
    if done.Ok? && next.Ok? {
      ShiftSnoc(done.value, next.value, k);
    }
  }

  /** Moving the records moves their overwrites and keeps any error. */
  lemma {:induction false} ToEditsShift(m: Manifest, records: seq<ImportRecord>, k: nat)
    ensures ToEdits(m, ShiftRecords(records, k)) == ShiftResult(ToEdits(m, records), k)
    decreases |records|
  {
    if records != [] {
      var n := |records| - 1;
      var sh := ShiftRecords(records, k);
      assert sh[..n] == ShiftRecords(records[..n], k);
      ToEditsShift(m, records[..n], k);
      EditForShift(m, records, k, n);
      ExtendShift(ToEdits(m, records[..n]), EditFor(m, records[n]), k);
    }
  }

  /** After records that are all accepted, the outcome is decided by the records that follow. */
  lemma ToEditsAppend(m: Manifest, first: seq<ImportRecord>, second: seq<ImportRecord>)
    requires ToEdits(m, first).Ok?
    ensures ToEdits(m, first + second).Ok? == ToEdits(m, second).Ok?
    ensures ToEdits(m, second).Ok? ==>
              ToEdits(m, first + second).value == ToEdits(m, first).value + ToEdits(m, second).value
    ensures ToEdits(m, second).Err? ==> ToEdits(m, first + second) == ToEdits(m, second)
  {
    var all := first + second;
    var ea := ToEdits(m, first).value;
    forall i | 0 <= i < |all|
      ensures all[i] == if i < |first| then first[i] else second[i - |first|]
    {
    }
    forall i | 0 <= i < |first| ensures EditFor(m, all[i]) == Ok(ea[i]) && EditFor(m, first[i]).Ok? {
      assert Ok(ea[i]) == EditFor(m, first[i]);
    }
    if ToEdits(m, second).Ok? {
      var eb := ToEdits(m, second).value;
      var both := ToEdits(m, all).value;
      forall i | 0 <= i < |all| ensures both[i] == (ea + eb)[i] {
        assert Ok(both[i]) == EditFor(m, all[i]);
        if i >= |first| {
          assert Ok(eb[i - |first|]) == EditFor(m, second[i - |first|]);
        }
      }
    } else {
      AppendRejected(m, first, second);
    }
  }

  /** `ToEditsAppend` when a record of `second` is rejected. */
  lemma AppendRejected(m: Manifest, first: seq<ImportRecord>, second: seq<ImportRecord>)
    requires forall i :: 0 <= i < |first| ==> EditFor(m, first[i]).Ok?
    requires ToEdits(m, second).Err?
    ensures ToEdits(m, first + second) == ToEdits(m, second)
  {
    var all := first + second;
    var r := ToEdits(m, second);
    var i :| 0 <= i < |second| && Err(r.error) == EditFor(m, second[i]) &&
             forall j :: 0 <= j < i ==> EditFor(m, second[j]).Ok?;
    forall j | 0 <= j < |first| + i ensures EditFor(m, all[j]).Ok? {
      if j < |first| {
        assert all[j] == first[j];
      } else {
        assert all[j] == second[j - |first|];
      }
    }
    assert all[|first| + i] == second[i];
    FirstRejectionDecides(m, all, |first| + i);
  }
}
