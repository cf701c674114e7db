/**
 * MagicString's overwrite-then-toString semantics as an edit list: each edit names a span
 * `[start, end)` of the ORIGINAL text and the text that replaces it.
 */
module TextEdits {

  datatype Edit = Edit(start: nat, end: nat, text: string)

  /**
   * Spans lie in `[from, len]`, each is ordered, and they are ascending and non-overlapping:
   * the first edit starts at or after `from`, and the rest are well formed after its end.
   */
  predicate WellFormed(edits: seq<Edit>, from: nat, len: nat)
    decreases |edits|
  {
    from <= len &&
    (edits != [] ==>
       from <= edits[0].start <= edits[0].end <= len && WellFormed(edits[1..], edits[0].end, len))
  }

  /** One left-to-right pass over `code` from `pos`: copy the gaps, emit each edit's text. */
  function ApplyFrom(code: string, edits: seq<Edit>, pos: nat): string
    requires WellFormed(edits, pos, |code|)
    decreases |edits|
  {
    if edits == [] then code[pos..]
    else code[pos..edits[0].start] + edits[0].text + ApplyFrom(code, edits[1..], edits[0].end)
  }

  /**
   * The text `toString` yields after every edit has been overwritten into `code`: the text
   * before the first span and after the last one is kept as it is.
   */
  function ApplyEdits(code: string, edits: seq<Edit>): (r: string)
    requires WellFormed(edits, 0, |code|)
    ensures edits == [] ==> r == code
    ensures edits != [] ==> code[..edits[0].start] <= r
    ensures edits != [] ==>
              edits[|edits| - 1].end <= |code| &&
              var kept := code[edits[|edits| - 1].end..];
              |kept| <= |r| && r[|r| - |kept|..] == kept
  {
    if edits == [] then ApplyFrom(code, edits, 0)
    else
      var n := |edits| - 1;
      assert edits == edits[..n] + [edits[n]];
      ApplyFromSnoc(code, edits[..n], edits[n], 0);
      ApplyFrom(code, edits, 0)
  }

  /** Replace one span of `code`. */
  function Splice(code: string, e: Edit): string
    requires e.start <= e.end <= |code|
  {
    code[..e.start] + e.text + code[e.end..]
  }

  /**
   * Reference semantics: splice the edits in one by one, last first, so that the offsets of
   * the edits still to come are not disturbed by the ones already applied.
   */
  function SpliceFromBack(code: string, edits: seq<Edit>): string
    requires WellFormed(edits, 0, |code|)
    decreases |edits|
  {
    if edits == [] then code
    else
      var n := |edits| - 1;
      var last := edits[n];
      assert edits == edits[..n] + [last];
      WellFormedSnoc(edits[..n], last, 0, |code|);
      WellFormedWiden(edits[..n], 0, last.start, |Splice(code, last)|);
      SpliceFromBack(Splice(code, last), edits[..n])
  }

  /** Every edit moved right by `k`. */
  function Shift(edits: seq<Edit>, k: nat): (r: seq<Edit>)
    ensures |r| == |edits|
  {
    if edits == [] then []
    else [Edit(edits[0].start + k, edits[0].end + k, edits[0].text)] + Shift(edits[1..], k)
  }


  /** Edits that only restate the text already in their span. */
  predicate Identity(code: string, edits: seq<Edit>) {
    forall i :: 0 <= i < |edits| ==>
      edits[i].start <= edits[i].end <= |code| && edits[i].text == code[edits[i].start..edits[i].end]
  }

  /** Dropping the first edit keeps the rest well formed after its end. */
  lemma WellFormedTail(edits: seq<Edit>, from: nat, len: nat)
    requires WellFormed(edits, from, len) && edits != []
    ensures from <= edits[0].start <= edits[0].end <= len
    ensures WellFormed(edits[1..], edits[0].end, len)
  {
  }

  /** Edits well formed from `m` are well formed from any earlier position. */
  lemma WellFormedFrom(edits: seq<Edit>, from: nat, m: nat, len: nat)
    requires from <= m && WellFormed(edits, m, len)
    ensures WellFormed(edits, from, len)
  {
  }

  /** Edits well formed inside `len` are well formed inside any longer text. */
  lemma {:induction false} WellFormedWiden(edits: seq<Edit>, from: nat, len: nat, len': nat)
    requires WellFormed(edits, from, len) && len <= len'
    ensures WellFormed(edits, from, len')
    decreases |edits|
  {
    if edits != [] {
      WellFormedWiden(edits[1..], edits[0].end, len, len');
    }
  }

  /** The ascending, non-overlapping spans of the pointwise description are well formed. */
  lemma {:induction false} WellFormedIntro(edits: seq<Edit>, from: nat, len: nat)
    requires from <= len
    requires forall i :: 0 <= i < |edits| ==> from <= edits[i].start <= edits[i].end <= len
    requires forall i, j :: 0 <= i < j < |edits| ==> edits[i].end <= edits[j].start
    ensures WellFormed(edits, from, len)
    decreases |edits|
  {
    if edits != [] {
      var tail := edits[1..];
      forall i | 0 <= i < |tail| ensures edits[0].end <= tail[i].start <= tail[i].end <= len {
        assert tail[i] == edits[i + 1];
      }
      forall i, j | 0 <= i < j < |tail| ensures tail[i].end <= tail[j].start {
        assert tail[i] == edits[i + 1] && tail[j] == edits[j + 1];
      }
      WellFormedIntro(tail, edits[0].end, len);
    }
  }

  /** The last edit of a well-formed list bounds all the others. */
  lemma {:induction false} WellFormedSnoc(edits: seq<Edit>, e: Edit, from: nat, len: nat)
    requires WellFormed(edits + [e], from, len)
    ensures from <= e.start <= e.end <= len
    ensures WellFormed(edits, from, e.start)
    decreases |edits|
  {
    var all := edits + [e];
    if edits == [] {
      assert all == [e];
    } else {
      assert all[0] == edits[0] && all[1..] == edits[1..] + [e];
      WellFormedSnoc(edits[1..], e, edits[0].end, len);
    }
  }


  /** With no edits the text comes back unchanged. */
  lemma ApplyEditsEmpty(code: string)
    ensures WellFormed([], 0, |code|) && ApplyEdits(code, []) == code
  {
  }

  /** Edits that end by `b` leave everything from `b` on verbatim. */
  lemma {:induction false} ApplyFromPrefix(code: string, edits: seq<Edit>, pos: nat, b: nat)
    requires WellFormed(edits, pos, b) && b <= |code|
    ensures WellFormed(edits, pos, |code|)
    ensures ApplyFrom(code, edits, pos) == ApplyFrom(code[..b], edits, pos) + code[b..]
    decreases |edits|
  {
    if edits == [] {
      assert code[pos..] == code[..b][pos..] + code[b..];
    } else {
      var e := edits[0];
      assert WellFormed(edits[1..], e.end, b);
      ApplyFromPrefix(code, edits[1..], e.end, b);
      assert code[pos..e.start] == code[..b][pos..e.start];
    }
  }

  /** Applying one more edit at the right end: the text before it, then its text, then the rest. */
  lemma {:induction false} ApplyFromSnoc(code: string, edits: seq<Edit>, e: Edit, pos: nat)
    requires WellFormed(edits + [e], pos, |code|)
    ensures pos <= e.start <= e.end <= |code|
    ensures WellFormed(edits, pos, e.start)
    ensures ApplyFrom(code, edits + [e], pos) == ApplyFrom(code[..e.start], edits, pos) + e.text + code[e.end..]
    decreases |edits|
  {
    WellFormedSnoc(edits, e, pos, |code|);
    var all := edits + [e];
    if edits == [] {
      assert all == [e] && all[1..] == [];
      ApplyFromStep(code, all, pos, e.start, e.end, e.text, []);
      assert code[pos..e.start] == code[..e.start][pos..];
    } else {
      var h := edits[0];
      assert all[0] == h && all[1..] == edits[1..] + [e];
      WellFormedTail(all, pos, |code|);
      ApplyFromSnoc(code, edits[1..], e, h.end);
      ApplyFromSnocStep(code, edits, e, pos, h.start, h.end, h.text, ApplyFrom(code[..e.start], edits[1..], h.end));
    }
  }

  /** Five texts joined left to right, grouped two ways. */
  lemma Regroup(x: string, t: string, y: string, u: string, z: string)
    ensures x + t + (y + u + z) == (x + t + y) + u + z
  {
  }

  /** The inductive step of `ApplyFromSnoc`, with the first edit and the rewritten middle named. */
  lemma ApplyFromSnocStep(code: string, edits: seq<Edit>, e: Edit, pos: nat,
                          start: nat, end: nat, text: string, mid: string)
    requires edits != [] && edits[0] == Edit(start, end, text)
    requires WellFormed(edits + [e], pos, |code|) && WellFormed(edits, pos, e.start)
    requires e.start <= e.end <= |code|
    requires WellFormed(edits[1..] + [e], end, |code|) && WellFormed(edits[1..], end, e.start)
    requires ApplyFrom(code, edits[1..] + [e], end) == mid + e.text + code[e.end..]
    requires ApplyFrom(code[..e.start], edits[1..], end) == mid
    ensures ApplyFrom(code, edits + [e], pos) == ApplyFrom(code[..e.start], edits, pos) + e.text + code[e.end..]
  {
    var all := edits + [e];
    assert all[0] == edits[0] && all[1..] == edits[1..] + [e];
    ApplyFromStep(code, all, pos, start, end, text, edits[1..] + [e]);
    ApplyFromStep(code[..e.start], edits, pos, start, end, text, edits[1..]);
    var gap := code[pos..start];
    assert code[..e.start][pos..start] == gap;
    Regroup(gap, text, mid, e.text, code[e.end..]);
  }

  /** The one-pass application agrees with splicing the edits in from the back. */
  lemma {:induction false} ApplyEditsIsSpliceFromBack(code: string, edits: seq<Edit>)
    requires WellFormed(edits, 0, |code|)
    ensures ApplyEdits(code, edits) == SpliceFromBack(code, edits)
    decreases |edits|
  {
    if edits != [] {
      var n := |edits| - 1;
      var last, init := edits[n], edits[..n];
      assert edits == init + [last];
      WellFormedSnoc(init, last, 0, |code|);
      var spliced := Splice(code, last);
      WellFormedWiden(init, 0, last.start, |spliced|);
      ApplyEditsIsSpliceFromBack(spliced, init);
      ApplyFromPrefix(spliced, init, 0, last.start);
      SpliceParts(code, last);
      ApplyFromSnoc(code, init, last, 0);
      var before := ApplyFrom(code[..last.start], init, 0);
      assert before + (last.text + code[last.end..]) == before + last.text + code[last.end..];
    }
  }

  /** The text before a spliced span is untouched, and the replacement is followed by the rest. */
  lemma SpliceParts(code: string, e: Edit)
    requires e.start <= e.end <= |code|
    ensures Splice(code, e)[..e.start] == code[..e.start]
    ensures Splice(code, e)[e.start..] == e.text + code[e.end..]
  {
  }

  /** Edits that restate their own spans change nothing. */
  lemma {:induction false} ApplyFromIdentity(code: string, edits: seq<Edit>, pos: nat)
    requires WellFormed(edits, pos, |code|)
    requires Identity(code, edits)
    ensures ApplyFrom(code, edits, pos) == code[pos..]
    decreases |edits|
  {
    if edits != [] {
      var e := edits[0];
      assert WellFormed(edits[1..], e.end, |code|);
      ApplyFromIdentity(code, edits[1..], e.end);
      assert code[pos..] == code[pos..e.start] + code[e.start..e.end] + code[e.end..];
    }
  }

  /** Edits that restate their own spans leave the whole text as it was. */
  lemma ApplyEditsIdentity(code: string, edits: seq<Edit>)
    requires WellFormed(edits, 0, |code|) && Identity(code, edits)
    ensures ApplyEdits(code, edits) == code
  {
    ApplyFromIdentity(code, edits, 0);
  }

  /** Shifting keeps the edits well formed, one place further right. */
  lemma {:induction false} WellFormedShift(edits: seq<Edit>, from: nat, len: nat, k: nat, from': nat, len': nat)
    requires WellFormed(edits, from, len) && from' == from + k && len' == len + k
    ensures WellFormed(Shift(edits, k), from', len')
    decreases |edits|
  {
    if edits != [] {
      var e := edits[0];
      WellFormedShift(edits[1..], e.end, len, k, e.end + k, len');
    }
  }

  /** The first shifted edit is the first edit moved, and the rest are the rest shifted. */
  lemma ShiftTail(edits: seq<Edit>, k: nat)
    requires edits != []
    ensures Shift(edits, k)[0] == Edit(k + edits[0].start, k + edits[0].end, edits[0].text)
    ensures Shift(edits, k)[1..] == Shift(edits[1..], k)
  {
  }

  /** A slice of the `b` part of `a + b`. */
  lemma SliceRight(a: string, b: string, i: nat, j: nat)
    requires i <= j <= |b|
    ensures (a + b)[|a| + i..|a| + j] == b[i..j] && (a + b)[|a| + i..] == b[i..]
  {
  }

  /** One step of the pass, with the first edit and the rest named by the caller. */
  lemma ApplyFromStep(code: string, edits: seq<Edit>, pos: nat, start: nat, end: nat, text: string, rest: seq<Edit>)
    requires WellFormed(edits, pos, |code|) && edits != []
    requires edits[0] == Edit(start, end, text) && edits[1..] == rest
    ensures pos <= start <= end <= |code| && WellFormed(rest, end, |code|)
    ensures ApplyFrom(code, edits, pos) == code[pos..start] + text + ApplyFrom(code, rest, end)
  {
    WellFormedTail(edits, pos, |code|);
  }

  /** Shifted edits over `a + b` act on the `b` part exactly as the unshifted ones act on `b`. */
  lemma {:induction false} ApplyFromShift(a: string, b: string, edits: seq<Edit>, pos: nat)
    requires WellFormed(edits, pos, |b|)
    ensures WellFormed(Shift(edits, |a|), |a| + pos, |a + b|)
    ensures ApplyFrom(a + b, Shift(edits, |a|), |a| + pos) == ApplyFrom(b, edits, pos)
    decreases |edits|
  {
    WellFormedShift(edits, pos, |b|, |a|, |a| + pos, |a + b|);
    if edits == [] {
      SliceRight(a, b, pos, pos);
    } else {
      var e := edits[0];
      WellFormedTail(edits, pos, |b|);
      ApplyFromShift(a, b, edits[1..], e.end);
      ShiftTail(edits, |a|);
      ApplyFromShiftStep(a, b, edits, Shift(edits, |a|), Shift(edits[1..], |a|), pos,
                         e.start, e.end, e.text, ApplyFrom(b, edits[1..], e.end));
    }
  }

  /** The inductive step of `ApplyFromShift`, with the first edit, its shifted copy and the rest named. */
  lemma ApplyFromShiftStep(a: string, b: string, edits: seq<Edit>, sh: seq<Edit>, shRest: seq<Edit>,
                           pos: nat, start: nat, end: nat, text: string, rest: string)
    requires edits != [] && edits[0] == Edit(start, end, text)
    requires WellFormed(edits, pos, |b|) && WellFormed(edits[1..], end, |b|)
    requires sh != [] && sh[0] == Edit(|a| + start, |a| + end, text) && sh[1..] == shRest
    requires WellFormed(sh, |a| + pos, |a + b|) && WellFormed(shRest, |a| + end, |a + b|)
    requires ApplyFrom(a + b, shRest, |a| + end) == rest
    requires ApplyFrom(b, edits[1..], end) == rest
    ensures ApplyFrom(a + b, sh, |a| + pos) == ApplyFrom(b, edits, pos)
  {
    ShiftedStep(a, b, sh, shRest, pos, start, end, text, rest);
    ApplyFromStep(b, edits, pos, start, end, text, edits[1..]);
  }

  /** One step of the pass over `a + b` with edits moved past `a`: the gap is taken from `b`. */
  lemma ShiftedStep(a: string, b: string, sh: seq<Edit>, shRest: seq<Edit>,
                    pos: nat, start: nat, end: nat, text: string, rest: string)
    requires sh != [] && sh[0] == Edit(|a| + start, |a| + end, text) && sh[1..] == shRest
    requires WellFormed(sh, |a| + pos, |a + b|) && pos <= start <= |b|
    requires WellFormed(shRest, |a| + end, |a + b|) && ApplyFrom(a + b, shRest, |a| + end) == rest
    ensures ApplyFrom(a + b, sh, |a| + pos) == b[pos..start] + text + rest
  {
    ApplyFromStep(a + b, sh, |a| + pos, |a| + start, |a| + end, text, shRest);
    SliceRight(a, b, pos, start);
  }

  /** Concatenated edit lists stay well formed when the second starts after the first ends. */
  lemma {:induction false} WellFormedAppend(ea: seq<Edit>, eb: seq<Edit>, from: nat, mid: nat, len: nat)
    requires WellFormed(ea, from, mid) && WellFormed(eb, mid, len)
    ensures WellFormed(ea + eb, from, len)
    decreases |ea|
  {
    if ea == [] {
      assert ea + eb == eb;
      WellFormedFrom(eb, from, mid, len);
    } else {
      assert (ea + eb)[0] == ea[0] && (ea + eb)[1..] == ea[1..] + eb;
      WellFormedAppend(ea[1..], eb, ea[0].end, mid, len);
    }
  }

  /** A gap copied from `pos` is the gap up to `m` followed by the gap from `m`. */
  lemma SplitGap(code: string, pos: nat, m: nat, start: nat, text: string, rest: string)
    requires pos <= m <= start <= |code|
    ensures code[pos..start] + text + rest == code[pos..m] + (code[m..start] + text + rest)
  {
    assert code[pos..start] == code[pos..m] + code[m..start];
  }

  /** When no edit starts before `m`, the pass from `pos` first copies `code[pos..m]`. */
  lemma ApplyFromSkip(code: string, edits: seq<Edit>, pos: nat, m: nat)
    requires pos <= m && WellFormed(edits, m, |code|)
    ensures WellFormed(edits, pos, |code|)
    ensures ApplyFrom(code, edits, pos) == code[pos..m] + ApplyFrom(code, edits, m)
  {
    if edits == [] {
      assert code[pos..] == code[pos..m] + code[m..];
    } else {
      var e := edits[0];
      WellFormedTail(edits, m, |code|);
      SplitGap(code, pos, m, e.start, e.text, ApplyFrom(code, edits[1..], e.end));
    }
  }

  /** Shifted edits of `b`, applied to `a + b` from inside `a`, copy the rest of `a` first. */
  lemma ApplyFromShiftBefore(a: string, b: string, eb: seq<Edit>, pos: nat)
    requires pos <= |a| && WellFormed(eb, 0, |b|)
    ensures WellFormed(Shift(eb, |a|), pos, |a + b|)
    ensures ApplyFrom(a + b, Shift(eb, |a|), pos) == a[pos..] + ApplyFrom(b, eb, 0)
  {
    ApplyFromShift(a, b, eb, 0);
    ApplyFromSkip(a + b, Shift(eb, |a|), pos, |a|);
    assert (a + b)[pos..|a|] == a[pos..];
  }

  /** Edits of `a` followed by shifted edits of `b` rewrite `a + b` part by part. */
  lemma {:induction false} ApplyFromConcat(a: string, b: string, ea: seq<Edit>, eb: seq<Edit>, pos: nat)
    requires WellFormed(ea, pos, |a|) && WellFormed(eb, 0, |b|)
    ensures WellFormed(ea + Shift(eb, |a|), pos, |a + b|)
    ensures ApplyFrom(a + b, ea + Shift(eb, |a|), pos) == ApplyFrom(a, ea, pos) + ApplyFrom(b, eb, 0)
    decreases |ea|
  {
    var sh := Shift(eb, |a|);
    WellFormedShift(eb, 0, |b|, |a|, |a|, |a + b|);
    WellFormedAppend(ea, sh, pos, |a|, |a + b|);
    var all := ea + sh;
    if ea == [] {
      assert all == sh;
      ApplyFromShiftBefore(a, b, eb, pos);
    } else {
      var e := ea[0];
      WellFormedTail(ea, pos, |a|);
      ApplyFromConcat(a, b, ea[1..], eb, e.end);
      ApplyFromConcatStep(a, b, ea, sh, pos, e.start, e.end, e.text,
                          ApplyFrom(a, ea[1..], e.end), ApplyFrom(b, eb, 0));
    }
  }

  /** The inductive step of `ApplyFromConcat`, with the first edit and both rewritten parts named. */
  lemma ApplyFromConcatStep(a: string, b: string, ea: seq<Edit>, sh: seq<Edit>, pos: nat,
                            start: nat, end: nat, text: string, restA: string, restB: string)
    requires ea != [] && ea[0] == Edit(start, end, text)
    requires WellFormed(ea, pos, |a|) && WellFormed(ea + sh, pos, |a + b|)
    requires WellFormed(ea[1..], end, |a|) && WellFormed(ea[1..] + sh, end, |a + b|)
    requires ApplyFrom(a, ea[1..], end) == restA
    requires ApplyFrom(a + b, ea[1..] + sh, end) == restA + restB
    ensures ApplyFrom(a + b, ea + sh, pos) == ApplyFrom(a, ea, pos) + restB
  {
    var all := ea + sh;
    assert all[0] == ea[0] && all[1..] == ea[1..] + sh;
    ApplyFromStep(a + b, all, pos, start, end, text, ea[1..] + sh);
    ApplyFromStep(a, ea, pos, start, end, text, ea[1..]);
    var gap := a[pos..start];
    assert (a + b)[pos..start] == gap;
    Regroup(gap, text, restA, [], restB);
  }


  /** Shifting distributes over appending one edit. */
  lemma {:induction false} ShiftSnoc(edits: seq<Edit>, e: Edit, k: nat)
    ensures Shift(edits + [e], k) == Shift(edits, k) + [Edit(e.start + k, e.end + k, e.text)]
    decreases |edits|
  {
    if edits == [] {
      assert edits + [e] == [e];
    } else {
      var h, all := edits[0], edits + [e];
      assert all[0] == h && all[1..] == edits[1..] + [e];
      ShiftSnoc(edits[1..], e, k);
      var moved, rest, last := [Edit(h.start + k, h.end + k, h.text)], Shift(edits[1..], k), [Edit(e.start + k, e.end + k, e.text)];
      assert Shift(all, k) == moved + (rest + last);
      assert Shift(edits, k) == moved + rest;
      assert moved + (rest + last) == (moved + rest) + last;
    }
  }

  /** Shifting twice is shifting by the sum. */
  lemma ShiftShift(edits: seq<Edit>, j: nat, k: nat, total: nat)
    requires j + k == total
    ensures Shift(Shift(edits, j), k) == Shift(edits, total)
    decreases |edits|
  {
    if edits != [] {
      ShiftShift(edits[1..], j, k, total);
    }
  }
}
