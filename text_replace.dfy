/**
 * Text reconstruction. The engine walks the plan from the rightmost span to
 * the leftmost, splicing each replacement into a working buffer and
 * remembering where the previous (right-hand) replacement started, so that
 * an overlapping span never re-inserts text already replaced.
 */
module TextReplace {
  import opened Entities

  /** Spans a splice can apply: non-empty, inside the text, starts strictly increasing. */
  predicate Planned(text: string, plan: seq<RecognizerResult>)
  {
    && (forall i :: 0 <= i < |plan| ==> WithinText(text, plan[i]))
    && (forall i, j :: 0 <= i < j < |plan| ==> plan[i].start < plan[j].start)
  }

  function Min(a: nat, b: nat): nat
  {
    if a <= b then a else b
  }

  /** Where span i begins, or the end of the text once every span is behind. */
  function Resume(text: string, plan: seq<RecognizerResult>, i: nat): (k: nat)
    requires Planned(text, plan) && i <= |plan|
    ensures k <= |text|
  {
    if i < |plan| then plan[i].start else |text|
  }

  /** The text from position `e` on ends `r` unchanged. */
  predicate Kept(text: string, e: nat, r: string)
  {
    e <= |text| && |text| - e <= |r| && r[|r| - (|text| - e)..] == text[e..]
  }

  /**
   * The output from span i onwards, read left to right: each replacement,
   * then the source text between the end of its span (or the next span's
   * start, if that comes first) and the next span's start.
   */
  function After(text: string, plan: seq<RecognizerResult>, replacements: seq<string>, i: nat): (r: string)
    requires Planned(text, plan) && |replacements| == |plan| && i <= |plan|
    ensures i == |plan| ==> r == []
    ensures i < |plan| ==> Kept(text, plan[|plan| - 1].end, r)
    decreases |plan| - i
  {
    if i == |plan| then []
    else
      var next := Resume(text, plan, i + 1);
      var here := replacements[i] + text[Min(plan[i].end, next)..next];
      var rest := After(text, plan, replacements, i + 1);
      if i + 1 == |plan| then
        KeptSuffix(text, plan[i].end, replacements[i]);
        here + rest
      else
        KeptExtend(text, plan[|plan| - 1].end, here, rest);
        here + rest
  }

  lemma {:induction false} KeptSuffix(text: string, e: nat, x: string)
    requires e <= |text|
    ensures Kept(text, e, x + text[e..|text|] + [])
  {
    var r := x + text[e..|text|] + [];
    assert r[|r| - (|text| - e)..] == text[e..];
  }

  lemma {:induction false} KeptExtend(text: string, e: nat, x: string, r: string)
    requires Kept(text, e, r)
    ensures Kept(text, e, x + r)
  {
    var y := x + r;
    assert y[|y| - (|text| - e)..] == r[|r| - (|text| - e)..];
  }

  /** The reconstructed text: the untouched prefix, then everything from the first span on. */
  function Rendered(text: string, plan: seq<RecognizerResult>, replacements: seq<string>): (r: string)
    requires Planned(text, plan) && |replacements| == |plan|
    ensures plan == [] ==> r == text
    ensures plan != [] ==> text[..plan[0].start] <= r && Kept(text, plan[|plan| - 1].end, r)
  {
    text[..Resume(text, plan, 0)] + After(text, plan, replacements, 0)
  }

  /** The working buffer, an untouched prefix of the text followed by `tail`, cut at two points of the prefix. */
  lemma {:induction false} BufferSlices(text: string, tail: string, last: nat, start: nat, cut: nat)
    requires start <= cut <= last <= |text|
    ensures (text[..last] + tail)[..start] == text[..start]
    ensures (text[..last] + tail)[cut..] == text[cut..last] + tail
  {
    var buffer := text[..last] + tail;
    assert buffer[..start] == text[..start];
    assert buffer[cut..] == text[cut..last] + tail;
  }

  /**
   * Applies the replacements from right to left on a working buffer:
   * `buffer[..start] + replacement + buffer[min(end, last)..]`, where `last`
   * is the start of the previously applied span.
   */
  method Splice(text: string, plan: seq<RecognizerResult>, replacements: seq<string>) returns (output: string)
    requires Planned(text, plan) && |replacements| == |plan|
    ensures output == Rendered(text, plan, replacements)
  {
    output := text;
    var last := |text|;
    var i := |plan|;
    assert text[..last] == text;
    while i > 0
      invariant 0 <= i <= |plan|
      invariant last == Resume(text, plan, i)
      invariant output == text[..last] + After(text, plan, replacements, i)
    {
      i := i - 1;
      var span := plan[i];
      var cut := Min(span.end, last);
      ghost var tail := After(text, plan, replacements, i + 1);
      BufferSlices(text, tail, last, span.start, cut);
      assert After(text, plan, replacements, i) == replacements[i] + text[cut..last] + tail;
      output := output[..span.start] + replacements[i] + output[cut..];
      last := span.start;
    }
  }

  /** In a plan whose spans share no character, each span ends no later than the next starts. */
  lemma {:induction false} NextStartsAfter(text: string, plan: seq<RecognizerResult>, i: nat)
    requires Planned(text, plan) && NoOverlaps(plan) && i + 1 < |plan|
    ensures plan[i].end <= plan[i + 1].start
  {
    var a, b := plan[i], plan[i + 1];
    assert a in plan && b in plan && a.start < b.start;
  }

  lemma {:induction false} AfterKeep(text: string, plan: seq<RecognizerResult>, replacements: seq<string>, i: nat)
    requires Planned(text, plan) && |replacements| == |plan| && i <= |plan|
    requires NoOverlaps(plan)
    requires forall k :: 0 <= k < |plan| ==> replacements[k] == text[plan[k].start..plan[k].end]
    ensures After(text, plan, replacements, i) == text[Resume(text, plan, i)..]
    decreases |plan| - i
  {
    if i < |plan| {
      var s, e, next := plan[i].start, plan[i].end, Resume(text, plan, i + 1);
      assert e <= next by {
        if i + 1 < |plan| {
          NextStartsAfter(text, plan, i);
        }
      }
      AfterKeep(text, plan, replacements, i + 1);
      assert After(text, plan, replacements, i) == text[s..e] + text[e..next] + text[next..] by {
        assert Min(e, next) == e;
      }
      ThreeSlices(text, s, e, next);
    }
  }

  lemma {:induction false} ThreeSlices(text: string, s: nat, e: nat, next: nat)
    requires s <= e <= next <= |text|
    ensures text[s..e] + text[e..next] + text[next..] == text[s..]
  {
  }

  /** Putting every span's own text back over non-overlapping spans restores the text. */
  lemma {:induction false} KeepRestoresText(text: string, plan: seq<RecognizerResult>, replacements: seq<string>)
    requires Planned(text, plan) && |replacements| == |plan|
    requires NoOverlaps(plan)
    requires forall k :: 0 <= k < |plan| ==> replacements[k] == text[plan[k].start..plan[k].end]
    ensures Rendered(text, plan, replacements) == text
  {
    AfterKeep(text, plan, replacements, 0);
  }

  /** Some span covers position `p`. */
  predicate Covered(plan: seq<RecognizerResult>, p: nat)
  {
    exists k :: 0 <= k < |plan| && plan[k].start <= p < plan[k].end
  }

  /** The characters of `text[lo..hi]` that no span covers, in order. */
  function Uncovered(text: string, plan: seq<RecognizerResult>, lo: nat, hi: nat): string
    requires lo <= hi <= |text|
    decreases hi - lo
  {
    if lo == hi then []
    else Uncovered(text, plan, lo, hi - 1) + (if Covered(plan, hi - 1) then [] else [text[hi - 1]])
  }

  lemma {:induction false} UncoveredSplit(text: string, plan: seq<RecognizerResult>, lo: nat, mid: nat, hi: nat)
    requires lo <= mid <= hi <= |text|
    ensures Uncovered(text, plan, lo, hi) == Uncovered(text, plan, lo, mid) + Uncovered(text, plan, mid, hi)
    decreases hi - mid
  {
    if mid < hi {
      UncoveredSplit(text, plan, lo, mid, hi - 1);
    }
  }

  lemma {:induction false} UncoveredAllCovered(text: string, plan: seq<RecognizerResult>, lo: nat, hi: nat)
    requires lo <= hi <= |text|
    requires forall p :: lo <= p < hi ==> Covered(plan, p)
    ensures Uncovered(text, plan, lo, hi) == []
    decreases hi - lo
  {
    if lo < hi {
      UncoveredAllCovered(text, plan, lo, hi - 1);
    }
  }

  lemma {:induction false} UncoveredNoneCovered(text: string, plan: seq<RecognizerResult>, lo: nat, hi: nat)
    requires lo <= hi <= |text|
    requires forall p :: lo <= p < hi ==> !Covered(plan, p)
    ensures Uncovered(text, plan, lo, hi) == text[lo..hi]
    decreases hi - lo
  {
    if lo < hi {
      UncoveredNoneCovered(text, plan, lo, hi - 1);
      assert text[lo..hi] == text[lo..hi - 1] + [text[hi - 1]];
    }
  }

  /** Ends never decrease along the plan, so no span reaches past a later one's end. */
  predicate EndsAscending(plan: seq<RecognizerResult>)
  {
    forall i, j :: 0 <= i < j < |plan| ==> plan[i].end <= plan[j].end
  }

  /** The text between a span's end (or the next span's start) and the next span's start is covered by no span. */
  lemma {:induction false} GapUncovered(text: string, plan: seq<RecognizerResult>, i: nat, p: nat)
    requires Planned(text, plan) && EndsAscending(plan) && i < |plan|
    requires Min(plan[i].end, Resume(text, plan, i + 1)) <= p < Resume(text, plan, i + 1)
    ensures !Covered(plan, p)
  {
    forall k | 0 <= k < |plan| ensures !(plan[k].start <= p < plan[k].end) {
      if k > i {
        assert plan[k].start >= plan[i + 1].start;
      } else if k < i {
        assert plan[k].end <= plan[i].end;
      }
    }
  }

  /**
   * From span i's start, the uncovered characters are those of the gap
   * between its end (or the next start) and the next start, then the
   * uncovered characters from the next start on.
   */
  lemma {:induction false} UncoveredFromSpan(text: string, plan: seq<RecognizerResult>, i: nat)
    requires Planned(text, plan) && EndsAscending(plan) && i < |plan|
    ensures var next := Resume(text, plan, i + 1);
      Uncovered(text, plan, plan[i].start, |text|)
        == text[Min(plan[i].end, next)..next] + Uncovered(text, plan, next, |text|)
  {
    var s, e, next := plan[i].start, plan[i].end, Resume(text, plan, i + 1);
    var cut := Min(e, next);
    UncoveredSplit(text, plan, s, cut, |text|);
    UncoveredSplit(text, plan, cut, next, |text|);
    forall p | s <= p < cut ensures Covered(plan, p) {
      assert plan[i].start <= p < plan[i].end;
    }
    UncoveredAllCovered(text, plan, s, cut);
    forall p | cut <= p < next ensures !Covered(plan, p) {
      GapUncovered(text, plan, i, p);
    }
    UncoveredNoneCovered(text, plan, cut, next);
  }

  lemma {:induction false} AfterRedact(text: string, plan: seq<RecognizerResult>, replacements: seq<string>, i: nat)
    requires Planned(text, plan) && |replacements| == |plan| && i <= |plan|
    requires EndsAscending(plan)
    requires forall k :: 0 <= k < |plan| ==> replacements[k] == []
    ensures After(text, plan, replacements, i) == Uncovered(text, plan, Resume(text, plan, i), |text|)
    decreases |plan| - i
  {
    if i < |plan| {
      var s, e, next := plan[i].start, plan[i].end, Resume(text, plan, i + 1);
      var cut := Min(e, next);
      AfterRedact(text, plan, replacements, i + 1);
      assert After(text, plan, replacements, i) == text[cut..next] + After(text, plan, replacements, i + 1) by {
        assert replacements[i] == [];
      }
      UncoveredFromSpan(text, plan, i);
    } else {
      assert Uncovered(text, plan, |text|, |text|) == [];
    }
  }

  /**
   * Redacting every span leaves exactly the characters that no span covers,
   * each once and in their original order.
   */
  lemma {:induction false} RedactLeavesUncovered(text: string, plan: seq<RecognizerResult>, replacements: seq<string>)
    requires Planned(text, plan) && |replacements| == |plan|
    requires EndsAscending(plan)
    requires forall k :: 0 <= k < |plan| ==> replacements[k] == []
    ensures Rendered(text, plan, replacements) == Uncovered(text, plan, 0, |text|)
  {
    var first := Resume(text, plan, 0);
    AfterRedact(text, plan, replacements, 0);
    UncoveredSplit(text, plan, 0, first, |text|);
    forall p | 0 <= p < first ensures !Covered(plan, p) {
      forall k | 0 <= k < |plan| ensures !(plan[k].start <= p < plan[k].end) {
        assert plan[0].start <= plan[k].start;
      }
    }
    UncoveredNoneCovered(text, plan, 0, first);
  }

  /** With a single span the output is the text before it, its replacement, and the text after it. */
  lemma {:induction false} SingleRendered(text: string, span: RecognizerResult, replacement: string)
    requires span.start < span.end <= |text|
    ensures Rendered(text, [span], [replacement]) == text[..span.start] + replacement + text[span.end..]
  {
    assert After(text, [span], [replacement], 1) == [];
    assert Min(span.end, |text|) == span.end;
  }

  /** With two spans the overlap, if any, is taken by the first replacement and the text between them is kept. */
  lemma {:induction false} TwoRendered(text: string, first: RecognizerResult, second: RecognizerResult,
                                       firstReplacement: string, secondReplacement: string)
    requires first.start < first.end <= |text| && second.start < second.end <= |text|
    requires first.start < second.start
    ensures Planned(text, [first, second])
    ensures Rendered(text, [first, second], [firstReplacement, secondReplacement])
         == text[..first.start] + firstReplacement + text[Min(first.end, second.start)..second.start]
            + secondReplacement + text[second.end..]
  {
    var plan, replacements := [first, second], [firstReplacement, secondReplacement];
    assert Planned(text, plan);
    assert After(text, plan, replacements, 2) == [];
    assert After(text, plan, replacements, 1) == secondReplacement + text[second.end..];
  }
}
